/** Object-like macro definitions from their token spellings (src/purego_gen/macro_constants.py). */
module MacroConstants {
  import opened MacroParser
  import opened MacroEval
  import opened Text
  import opened Options
  import Decimal
  import IntBits

  // ---- spellings ----

  function OperatorToken(piece: string): Option<Token> {
    match piece
    case "+" => Some(Symbol(Plus))
    case "-" => Some(Symbol(Minus))
    case "*" => Some(Symbol(Times))
    case "/" => Some(Symbol(Slash))
    case "%" => Some(Symbol(Percent))
    case "<<" => Some(Symbol(ShiftLeft))
    case ">>" => Some(Symbol(ShiftRight))
    case "|" => Some(Symbol(Or))
    case "&" => Some(Symbol(And))
    case "^" => Some(Symbol(Xor))
    case "~" => Some(Symbol(Tilde))
    case "(" => Some(Open)
    case ")" => Some(Close)
    case _ => None
  }

  predicate IsHexDigit(c: char) {
    Decimal.IsDigit(c) || 'a' <= c <= 'f' || 'A' <= c <= 'F'
  }

  function HexDigitValue(c: char): (d: nat)
    requires IsHexDigit(c)
    ensures d < 16
  {
    if Decimal.IsDigit(c) then Decimal.DigitValue(c)
    else (c as int) - (if 'a' <= c <= 'f' then 'a' as int else 'A' as int) + 10
  }

  function HexValue(s: string): nat
    requires forall i :: 0 <= i < |s| ==> IsHexDigit(s[i])
  {
    if s == "" then 0 else 16 * HexValue(s[..|s| - 1]) + HexDigitValue(s[|s| - 1])
  }

  /** Length of the longest prefix of hexadecimal, respectively decimal, digits. */
  function DigitsLength(s: string, hex: bool): (n: nat)
    ensures n <= |s|
    ensures forall i :: 0 <= i < n ==> if hex then IsHexDigit(s[i]) else Decimal.IsDigit(s[i])
    ensures n < |s| ==> !(if hex then IsHexDigit(s[n]) else Decimal.IsDigit(s[n]))
  {
    if s != "" && (if hex then IsHexDigit(s[0]) else Decimal.IsDigit(s[0]))
    then 1 + DigitsLength(s[1..], hex)
    else 0
  }

  predicate IsHexPrefix(s: string) {
    |s| >= 3 && s[0] == '0' && s[1] in {'x', 'X'} && IsHexDigit(s[2])
  }

  /** The length of the digits before the suffix, 0 when there is no literal. */
  function LiteralLength(piece: string): (n: nat)
    ensures n <= |piece|
  {
    if IsHexPrefix(piece) then 2 + DigitsLength(piece[2..], true)
    else if piece != "" && '1' <= piece[0] <= '9' then DigitsLength(piece, false)
    else if piece != "" && piece[0] == '0' then 1
    else 0
  }

  predicate IsSuffix(s: string) {
    forall i :: 0 <= i < |s| ==> s[i] in {'u', 'U', 'l', 'L'}
  }

  /** `_normalize_macro_literal_token`: the literal without its suffix, and whether that is unsigned. */
  function NormalizeLiteral(piece: string): Option<(string, bool)> {
    var n := LiteralLength(piece);
    if n > 0 && IsSuffix(piece[n..]) then Some((piece[..n], 'u' in piece[n..] || 'U' in piece[n..])) else None
  }

  /** The value of an integer literal without suffix. */
  function LiteralValue(text: string): nat
    requires text != "" && LiteralLength(text) == |text|
  {
    if IsHexPrefix(text) then HexValue(text[2..]) else Decimal.Parse(text)
  }

  /** The C token of one spelling. */
  function Classify(piece: string): Option<Token> {
    if OperatorToken(piece).Some? then OperatorToken(piece)
    else
      match NormalizeLiteral(piece)
      case Some((text, _)) =>
        LiteralPrefix(piece, |text|);
        Some(Number(LiteralValue(text)))
      case None => if IsIdentifier(piece) then Some(Name(piece)) else None
  }

  lemma {:induction false} LiteralPrefix(piece: string, n: nat)
    requires n == LiteralLength(piece) > 0
    ensures LiteralLength(piece[..n]) == n && (IsHexPrefix(piece[..n]) <==> IsHexPrefix(piece))
  {
    if IsHexPrefix(piece) {
      assert DigitsLength(piece[2..], true) >= 1;
      assert piece[..n][2..] == piece[2..][..n - 2];
    }
  }

  // ---- what the spellings mean ----

  /** The punctuators of C that are read, and nothing else. */
  lemma {:induction false} PunctuatorsExact(piece: string)
    ensures OperatorToken("+") == Some(Symbol(Plus)) && OperatorToken("-") == Some(Symbol(Minus))
    ensures OperatorToken("*") == Some(Symbol(Times)) && OperatorToken("/") == Some(Symbol(Slash))
    ensures OperatorToken("%") == Some(Symbol(Percent)) && OperatorToken("~") == Some(Symbol(Tilde))
    ensures OperatorToken("<<") == Some(Symbol(ShiftLeft)) && OperatorToken(">>") == Some(Symbol(ShiftRight))
    ensures OperatorToken("|") == Some(Symbol(Or)) && OperatorToken("&") == Some(Symbol(And))
    ensures OperatorToken("^") == Some(Symbol(Xor)) && OperatorToken("(") == Some(Open)
    ensures OperatorToken(")") == Some(Close)
    ensures OperatorToken(piece).Some? ==>
      piece in {"+", "-", "*", "/", "%", "~", "<<", ">>", "|", "&", "^", "(", ")"}
  {
  }

  const LOWER_DIGITS := "0123456789abcdef"
  const UPPER_DIGITS := "0123456789ABCDEF"

  /** A number in hexadecimal notation. */
  function FormatHex(n: nat, digits: string): string
    requires digits == LOWER_DIGITS || digits == UPPER_DIGITS
  {
    if n < 16 then [digits[n]] else FormatHex(n / 16, digits) + [digits[n % 16]]
  }

  lemma {:induction false} HexDigits(d: nat, digits: string)
    requires d < 16 && (digits == LOWER_DIGITS || digits == UPPER_DIGITS)
    ensures IsHexDigit(digits[d]) && HexDigitValue(digits[d]) == d
  {
  }

  /** Hexadecimal notation reads back, in either case of the letters. */
  lemma {:induction false} HexRoundTrip(n: nat, digits: string)
    requires digits == LOWER_DIGITS || digits == UPPER_DIGITS
    ensures var s := FormatHex(n, digits);
      s != "" && (forall i :: 0 <= i < |s| ==> IsHexDigit(s[i])) && HexValue(s) == n
  {
    var s := FormatHex(n, digits);
    HexDigits(n % 16, digits);
    if n < 16 {
      assert s[..0] == "";
    } else {
      HexRoundTrip(n / 16, digits);
      assert s[..|s| - 1] == FormatHex(n / 16, digits);
    }
  }

  /** The digits of an integer constant of C, octal ones apart (section 6.4.4.1 of ISO/IEC 9899:2011). */
  predicate IsConstantText(text: string) {
    || text == "0"
    || (text != "" && text[0] != '0' && Decimal.AllDigits(text))
    || (|text| >= 3 && text[0] == '0' && (text[1] == 'x' || text[1] == 'X')
        && forall i :: 2 <= i < |text| ==> IsHexDigit(text[i]))
  }

  lemma {:induction false} DigitsUpTo(s: string, n: nat, hex: bool)
    requires n <= |s| && forall i :: 0 <= i < n ==> if hex then IsHexDigit(s[i]) else Decimal.IsDigit(s[i])
    requires n < |s| ==> !(if hex then IsHexDigit(s[n]) else Decimal.IsDigit(s[n]))
    ensures DigitsLength(s, hex) == n
  {
    var k := DigitsLength(s, hex);
    if k < n {
      assert false;
    }
  }

  lemma {:induction false} SuffixStops(c: char)
    requires c in {'u', 'U', 'l', 'L'}
    ensures !IsHexDigit(c) && c != 'x' && c != 'X'
  {
  }

  /** A literal is such a text with a suffix of the letters u and l, and is unsigned with a u. */
  lemma {:induction false} LiteralExact(piece: string, text: string, unsigned: bool)
    ensures NormalizeLiteral(piece) == Some((text, unsigned)) <==>
      && text <= piece && IsConstantText(text) && IsSuffix(piece[|text|..])
      && (unsigned <==> 'u' in piece[|text|..] || 'U' in piece[|text|..])
  {
    if NormalizeLiteral(piece) == Some((text, unsigned)) {
      LiteralShape(piece);
    }
    if text <= piece && IsConstantText(text) && IsSuffix(piece[|text|..]) {
      ShapeLength(piece, text);
      assert piece[..|text|] == text;
    }
  }

  lemma {:induction false} LiteralShape(piece: string)
    requires LiteralLength(piece) > 0
    ensures IsConstantText(piece[..LiteralLength(piece)])
  {
    var n := LiteralLength(piece);
    var text := piece[..n];
    if IsHexPrefix(piece) {
      assert DigitsLength(piece[2..], true) >= 1;
      forall i | 2 <= i < n ensures IsHexDigit(text[i]) {
        assert text[i] == piece[2..][i - 2];
      }
    }
  }

  lemma {:induction false} ShapeLength(piece: string, text: string)
    requires text <= piece && IsConstantText(text) && IsSuffix(piece[|text|..])
    ensures LiteralLength(piece) == |text|
  {
    var n := |text|;
    assert forall i :: 0 <= i < n ==> piece[i] == text[i];
    if n < |piece| {
      assert piece[n] == piece[n..][0];
      SuffixStops(piece[n]);
    }
    if text[0] != '0' {
      DigitsUpTo(piece, n, false);
    } else if text != "0" {
      forall i | 0 <= i < n - 2 ensures IsHexDigit(piece[2..][i]) {
        assert piece[2..][i] == text[i + 2];
      }
      DigitsUpTo(piece[2..], n - 2, true);
    }
  }

  lemma {:induction false} FormatIsLiteral(n: nat)
    ensures var s := Decimal.Format(n);
      s != "" && Decimal.IsDigit(s[0]) && LiteralLength(s) == |s| && LiteralValue(s) == n
  {
    var s := Decimal.Format(n);
    Decimal.ParseFormat(n);
    assert Decimal.IsDigit(s[0]);
    assert n == 0 ==> s == "0";
  }

  lemma {:induction false} HexShape(s: string, mark: char)
    requires s != "" && (forall i :: 0 <= i < |s| ==> IsHexDigit(s[i])) && (mark == 'x' || mark == 'X')
    ensures var piece := ['0', mark] + s; LiteralLength(piece) == |piece| && IsHexPrefix(piece) && piece[2..] == s
  {
    var piece := ['0', mark] + s;
    assert piece[2..] == s && piece[2] == s[0] && piece[0] == '0' && piece[1] == mark;
    DigitsUpTo(s, |s|, true);
  }

  lemma {:induction false} HexLiteral(s: string, mark: char)
    requires s != "" && (forall i :: 0 <= i < |s| ==> IsHexDigit(s[i])) && (mark == 'x' || mark == 'X')
    ensures Classify(['0', mark] + s) == Some(Number(HexValue(s)))
  {
    var piece := ['0', mark] + s;
    HexShape(s, mark);
    assert piece[|piece|..] == "" && piece[..|piece|] == piece;
    assert OperatorToken(piece).None? by {
      assert |piece| >= 3;
    }
  }

  lemma {:induction false} DecimalValueExact(n: nat)
    ensures Classify(Decimal.Format(n)) == Some(Number(n))
  {
    FormatIsLiteral(n);
    var decimal := Decimal.Format(n);
    assert decimal[|decimal|..] == "" && decimal[..|decimal|] == decimal;
  }

  /** The value of a literal is that of its digits, in base 16 behind `0x`. */
  lemma {:induction false} ValueExact(n: nat, digits: string, mark: char)
    requires digits == LOWER_DIGITS || digits == UPPER_DIGITS
    requires mark == 'x' || mark == 'X'
    ensures Classify(Decimal.Format(n)) == Some(Number(n))
    ensures Classify(['0', mark] + FormatHex(n, digits)) == Some(Number(n))
  {
    DecimalValueExact(n);
    HexRoundTrip(n, digits);
    HexLiteral(FormatHex(n, digits), mark);
  }

  // ---- building the Python expression ----

  datatype Expression = Expression(texts: seq<string>, unsigned: bool)

  /** The normalised text of one spelling, and whether it is an unsigned literal. */
  function NormalizePiece(piece: string, known: map<string, int>): Option<(string, bool)> {
    if OperatorToken(piece).Some? then Some((piece, false))
    else if NormalizeLiteral(piece).Some? then NormalizeLiteral(piece)
    else if IsIdentifier(piece) && piece in known then Some((Decimal.FormatInt(known[piece]), false))
    else None
  }

  function BuildPieces(pieces: seq<string>, known: map<string, int>): Option<Expression> {
    if pieces == [] then Some(Expression([], false))
    else
      var n := |pieces| - 1;
      ExtendExpression(BuildPieces(pieces[..n], known), NormalizePiece(pieces[n], known))
  }

  function ExtendExpression(e: Option<Expression>, piece: Option<(string, bool)>): Option<Expression> {
    match (e, piece)
    case (Some(e), Some((text, unsigned))) => Some(Expression(e.texts + [text], e.unsigned || unsigned))
    case _ => None
  }

  lemma {:induction false} BuildPiecesStops(pieces: seq<string>, known: map<string, int>, n: nat)
    requires n <= |pieces| && BuildPieces(pieces[..n], known).None?
    ensures BuildPieces(pieces, known).None?
  {
    if n < |pieces| {
      assert pieces[..|pieces| - 1][..n] == pieces[..n];
      BuildPiecesStops(pieces[..|pieces| - 1], known, n);
    } else {
      assert pieces[..n] == pieces;
    }
  }

  /** `_build_macro_expression` */
  method BuildMacroExpression(pieces: seq<string>, known: map<string, int>) returns (r: Option<Expression>)
    ensures r == if pieces == [] then None else BuildPieces(pieces, known)
  {
    var normalizedTokens: seq<string>, hasUnsignedLiteral := [], false;
    for i := 0 to |pieces|
      invariant BuildPieces(pieces[..i], known) == Some(Expression(normalizedTokens, hasUnsignedLiteral))
      invariant |normalizedTokens| == i
    {
      assert pieces[..i + 1][..i] == pieces[..i];
      var piece := pieces[i];
      if OperatorToken(piece).Some? {
        normalizedTokens := normalizedTokens + [piece];
        continue;
      }
      var literal := NormalizeLiteral(piece);
      if literal.Some? {
        normalizedTokens := normalizedTokens + [literal.value.0];
        hasUnsignedLiteral := hasUnsignedLiteral || literal.value.1;
        continue;
      }
      if IsIdentifier(piece) {
        if piece !in known {
          BuildPiecesStops(pieces, known, i + 1);
          return None;
        }
        normalizedTokens := normalizedTokens + [Decimal.FormatInt(known[piece])];
        continue;
      }
      BuildPiecesStops(pieces, known, i + 1);
      return None;
    }
    assert pieces[..|pieces|] == pieces;
    if normalizedTokens == [] {
      return None;
    }
    return Some(Expression(normalizedTokens, hasUnsignedLiteral));
  }

  // ---- reading it back ----

  /** Python's tokens of one of the texts; the spaces between the texts separate tokens, and a minus
      sign in front of digits is a token of its own. */
  function LexText(text: string): seq<Token> {
    if OperatorToken(text).Some? then [OperatorToken(text).value]
    else if text != "" && LiteralLength(text) == |text| then [Number(LiteralValue(text))]
    else if |text| >= 2 && text[0] == '-' && LiteralLength(text[1..]) == |text| - 1 then
      [Symbol(Minus), Number(LiteralValue(text[1..]))]
    else []
  }

  function Lex(texts: seq<string>): seq<Token> {
    if texts == [] then [] else Lex(texts[..|texts| - 1]) + LexText(texts[|texts| - 1])
  }

  /** The C tokens, when every spelling is one. */
  function ClassifyAll(pieces: seq<string>): Option<seq<Token>> {
    if pieces == [] then Some([])
    else ExtendTokens(ClassifyAll(pieces[..|pieces| - 1]), Classify(pieces[|pieces| - 1]))
  }

  function ExtendTokens(tokens: Option<seq<Token>>, token: Option<Token>): Option<seq<Token>> {
    match (tokens, token)
    case (Some(tokens), Some(token)) => Some(tokens + [token])
    case _ => None
  }

  lemma {:induction false} LexDigits(s: string)
    requires s != "" && Decimal.IsDigit(s[0]) && LiteralLength(s) == |s|
    ensures LexText(s) == [Number(LiteralValue(s))]
  {
  }

  lemma {:induction false} LexNegative(s: string)
    requires s != "" && Decimal.IsDigit(s[0]) && LiteralLength(s) == |s|
    ensures LexText("-" + s) == [Symbol(Minus), Number(LiteralValue(s))]
  {
    var m := "-" + s;
    assert m[1..] == s && m[0] == '-' && m[1] == s[0];
  }

  lemma {:induction false} LexNumber(n: nat)
    ensures LexText(Decimal.Format(n)) == [Number(n)]
    ensures LexText("-" + Decimal.Format(n)) == [Symbol(Minus), Number(n)]
  {
    FormatIsLiteral(n);
    LexDigits(Decimal.Format(n));
    LexNegative(Decimal.Format(n));
  }

  lemma {:induction false} LiteralText(piece: string)
    requires NormalizeLiteral(piece).Some?
    ensures var text := NormalizeLiteral(piece).value.0;
      text != "" && text[0] == piece[0] && Decimal.IsDigit(text[0]) && LiteralLength(text) == |text|
  {
    LiteralPrefix(piece, LiteralLength(piece));
  }

  lemma {:induction false} LexLiteral(piece: string)
    requires NormalizeLiteral(piece).Some? && OperatorToken(piece).None?
    ensures LexText(NormalizeLiteral(piece).value.0) == SpliceOne(Classify(piece).value, map[])
  {
    LiteralText(piece);
  }

  lemma {:induction false} LexPiece(piece: string, known: map<string, int>)
    ensures NormalizePiece(piece, known).Some? <==>
      Classify(piece).Some? && (Classify(piece).value.Name? ==> piece in known && Classify(piece).value.id == piece)
    ensures NormalizePiece(piece, known).Some? ==>
      LexText(NormalizePiece(piece, known).value.0) == SpliceOne(Classify(piece).value, known)
  {
    if OperatorToken(piece).Some? {
    } else if NormalizeLiteral(piece).Some? {
      LexLiteral(piece);
    } else if IsIdentifier(piece) && piece in known {
      LexNumber(if known[piece] < 0 then -known[piece] else known[piece]);
    }
  }

  lemma {:induction false} KnownSnoc(tokens: seq<Token>, token: Token, known: map<string, int>)
    ensures Known(tokens + [token], known) <==> Known(tokens, known) && (token.Name? ==> token.id in known)
    ensures Splice(tokens + [token], known) == Splice(tokens, known) + SpliceOne(token, known)
  {
    var all := tokens + [token];
    assert forall i :: 0 <= i < |tokens| ==> all[i] == tokens[i];
    assert all[|tokens|] == token;
    SpliceConcat(tokens, [token], known);
    assert Splice([token], known) == SpliceOne(token, known) + Splice([token][1..], known);
    assert [token][1..] == [];
  }

  ghost predicate ReadsBack(e: Option<Expression>, tokens: Option<seq<Token>>, known: map<string, int>) {
    && (e.Some? <==> tokens.Some? && Known(tokens.value, known))
    && (e.Some? ==> Lex(e.value.texts) == Splice(tokens.value, known))
  }

  ghost predicate PieceReadsBack(p: Option<(string, bool)>, token: Option<Token>, known: map<string, int>) {
    && (p.Some? <==> token.Some? && (token.value.Name? ==> token.value.id in known))
    && (p.Some? ==> LexText(p.value.0) == SpliceOne(token.value, known))
  }

  lemma {:induction false} ExtendReadsBack(e: Option<Expression>, tokens: Option<seq<Token>>,
                        p: Option<(string, bool)>, token: Option<Token>, known: map<string, int>)
    requires ReadsBack(e, tokens, known) && PieceReadsBack(p, token, known)
    ensures ReadsBack(ExtendExpression(e, p), ExtendTokens(tokens, token), known)
  {
    if tokens.Some? && token.Some? {
      KnownSnoc(tokens.value, token.value, known);
    }
    if e.Some? && p.Some? {
      var texts := e.value.texts + [p.value.0];
      assert texts[..|texts| - 1] == e.value.texts;
    }
  }

  /** The built text reads back as the C tokens with the known values spliced in; building fails
      exactly when a spelling is no supported token or names an unknown constant. */
  lemma {:induction false} BuildSplices(pieces: seq<string>, known: map<string, int>)
    ensures ReadsBack(BuildPieces(pieces, known), ClassifyAll(pieces), known)
  {
    if pieces != [] {
      var n := |pieces| - 1;
      BuildSplices(pieces[..n], known);
      LexPiece(pieces[n], known);
      ExtendReadsBack(BuildPieces(pieces[..n], known), ClassifyAll(pieces[..n]),
                      NormalizePiece(pieces[n], known), Classify(pieces[n]), known);
    }
  }

  predicate IsUnsignedLiteral(piece: string) {
    OperatorToken(piece).None? && NormalizeLiteral(piece).Some? && NormalizeLiteral(piece).value.1
  }

  predicate HasUnsigned(pieces: seq<string>) {
    exists i :: 0 <= i < |pieces| && IsUnsignedLiteral(pieces[i])
  }

  lemma {:induction false} BuildUnsigned(pieces: seq<string>, known: map<string, int>)
    requires BuildPieces(pieces, known).Some?
    ensures BuildPieces(pieces, known).value.unsigned <==> HasUnsigned(pieces)
  {
    if pieces != [] {
      var n := |pieces| - 1;
      BuildUnsigned(pieces[..n], known);
      assert NormalizePiece(pieces[n], known).value.1 <==> IsUnsignedLiteral(pieces[n]);
      assert forall i :: 0 <= i < n ==> pieces[..n][i] == pieces[i];
      if HasUnsigned(pieces[..n]) {
        var i :| 0 <= i < |pieces[..n]| && IsUnsignedLiteral(pieces[..n][i]);
        assert IsUnsignedLiteral(pieces[i]);
      }
    }
  }

  // ---- definitions ----

  datatype Evaluated = Evaluated(value: int, cType: Option<string>, goExpression: Option<string>)

  datatype Definition = Constant(constant: Evaluated) | NotSupported | PythonError

  /** `_evaluate_casted_sentinel_macro_definition`: `((T)0)` and `((T)-1)`. */
  function CastedSentinel(pieces: seq<string>): Option<Evaluated> {
    if |pieces| < 6 || pieces[0] != "(" || pieces[1] != "(" || pieces[|pieces| - 1] != ")" then None
    else if pieces[2] == ")" || pieces[3] != ")" then None  // exactly one token before the first ")"
    else if !IsIdentifier(pieces[2]) then None
    else
      var cast := pieces[4..|pieces| - 1];
      if cast == ["0"] then Some(Evaluated(0, Some(pieces[2]), None))
      else if cast == ["-", "1"] then
        Some(Evaluated(IntBits.Pow2(64) - 1, Some(pieces[2]), Some("^uintptr(0)")))
      else None
  }

  /** `evaluate_object_like_macro_definition`; the first spelling is the macro's name. */
  function EvaluateDefinition(spellings: seq<string>, known: map<string, int>, functionLike: bool): Definition {
    if |spellings| < 2 || functionLike then NotSupported
    else if CastedSentinel(spellings[1..]).Some? then Constant(CastedSentinel(spellings[1..]).value)
    else
      match BuildPieces(spellings[1..], known)
      case None => NotSupported
      case Some(e) => EvaluateExpression(e)
  }

  /** The normalised text parsed and evaluated as Python. */
  function EvaluateExpression(e: Expression): Definition {
    match Parse(Lex(e.texts))
    case None => NotSupported
    case Some(t) => FinishDefinition(Eval(t, map[]), e.unsigned)
  }

  function FinishDefinition(result: Outcome, unsigned: bool): Definition {
    match result
    case Unsupported => NotSupported
    case Raises => PythonError
    case Value(v) => Constant(Evaluated(Finish(v, unsigned), None, None))
  }

  lemma {:induction false} ExpressionMeaning(e: Expression, tokens: seq<Token>, t: Tree, known: map<string, int>)
    requires Lex(e.texts) == Splice(tokens, known) && Parse(tokens) == Some(t)
    ensures EvaluateExpression(e) == FinishDefinition(Eval(t, known), e.unsigned)
  {
    SubstitutionPreservesMeaning(tokens, t, known);
  }

  /** What evaluation gives for every definition: a body is C tokens with known names, or not
      supported; it is read with a minus sign in front of each negative constant directly behind an
      operand, and then evaluated under the known constants. The shortcut for casts comes first. */
  lemma {:induction false} DefinitionExactly(spellings: seq<string>, known: map<string, int>)
    requires |spellings| >= 2
    ensures var pieces := spellings[1..]; var tokens := ClassifyAll(pieces);
      EvaluateDefinition(spellings, known, false) ==
        if CastedSentinel(pieces).Some? then Constant(CastedSentinel(pieces).value)
        else if tokens.None? || !Known(tokens.value, known) then NotSupported
        else match Parse(WithMinus(tokens.value, known))
             case None => NotSupported
             case Some(t) => FinishDefinition(Eval(t, known), HasUnsigned(pieces))
  {
    var pieces := spellings[1..];
    BuildSplices(pieces, known);
    if BuildPieces(pieces, known).Some? {
      BuildUnsigned(pieces, known);
      AcceptedExactly(ClassifyAll(pieces).value, known);
    }
  }

  // ---- tokens of single spellings ----

  lemma {:induction false} OneDigit(digit: char)
    requires '1' <= digit <= '9'
    ensures Classify([digit]) == Some(Number(Decimal.DigitValue(digit))) && !IsUnsignedLiteral([digit])
  {
    assert [digit][1..] == "" && [digit][..1] == [digit] && [digit][..0] == "";
    assert DigitsLength([digit], false) == 1;
    assert Decimal.Parse([digit]) == Decimal.DigitValue(digit);
  }

  /** The tokens of a body, spelling by spelling. */
  lemma {:induction false} ClassifyEach(pieces: seq<string>, tokens: seq<Token>)
    requires |pieces| == |tokens| && forall i :: 0 <= i < |pieces| ==> Classify(pieces[i]) == Some(tokens[i])
    ensures ClassifyAll(pieces) == Some(tokens)
  {
    if pieces != [] {
      var n := |pieces| - 1;
      ClassifyEach(pieces[..n], tokens[..n]);
      assert tokens == tokens[..n] + [tokens[n]];
    }
  }

  lemma {:induction false} ClassifyAt(pieces: seq<string>, i: nat)
    requires i < |pieces| && ClassifyAll(pieces).Some?
    ensures |ClassifyAll(pieces).value| == |pieces|
    ensures Classify(pieces[i]) == Some(ClassifyAll(pieces).value[i])
  {
    var n := |pieces| - 1;
    if n > 0 {
      ClassifyAt(pieces[..n], if i < n then i else 0);
    }
  }

  // ---- the cast of minus one ----

  /** The body `((name)-1)`: a cast of -1, or the subtraction of 1 from a constant. */
  predicate MinusOneCast(pieces: seq<string>) {
    && |pieces| == 7 && IsIdentifier(pieces[2])
    && pieces == ["(", "(", pieces[2], ")", "-", "1", ")"]
  }

  /** The value of a definition in C when all its identifiers are constants; a call has none. */
  function CDefinition(pieces: seq<string>, known: map<string, int>, t: Tree): Definition
    requires ClassifyAll(pieces).Some?
  {
    if !Known(ClassifyAll(pieces).value, known) then NotSupported
    else FinishDefinition(Eval(t, known), HasUnsigned(pieces))
  }

  /** A well-formed body evaluates like its C parse tree with the known constants as values, except
      that `((name)-1)` is always taken for a cast, whatever `name` is known to be. */
  lemma {:induction false} DefinitionMeaning(spellings: seq<string>, known: map<string, int>, t: Tree)
    requires |spellings| >= 2
    requires ClassifyAll(spellings[1..]).Some? && Parse(ClassifyAll(spellings[1..]).value) == Some(t)
    ensures EvaluateDefinition(spellings, known, false) ==
      if MinusOneCast(spellings[1..])
      then Constant(Evaluated(IntBits.Pow2(64) - 1, Some(spellings[1..][2]), Some("^uintptr(0)")))
      else CDefinition(spellings[1..], known, t)
  {
    var pieces := spellings[1..];
    DefinitionExactly(spellings, known);
    if CastedSentinel(pieces).Some? {
      SentinelIsCast(pieces, t);
    } else {
      if MinusOneCast(pieces) {
        CastIsSentinel(pieces);
      }
      WellFormedWithoutMinus(ClassifyAll(pieces).value, t, known);
    }
  }

  lemma {:induction false} WellFormedWithoutMinus(tokens: seq<Token>, t: Tree, known: map<string, int>)
    requires Parse(tokens) == Some(t)
    ensures WithMinus(tokens, known) == tokens
  {
    if JuxtaposedNegative(tokens, known) {
      JuxtaposedIsMalformed(tokens, known);
    } else {
      WithoutMinus(tokens, known);
    }
  }

  lemma {:induction false} CastIsSentinel(pieces: seq<string>)
    requires MinusOneCast(pieces)
    ensures CastedSentinel(pieces) == Some(Evaluated(IntBits.Pow2(64) - 1, Some(pieces[2]), Some("^uintptr(0)")))
  {
    assert pieces[4..6] == ["-", "1"];
  }

  /** The cast of 0 is 0, and that of -1 the greatest 64-bit word; the type is recorded. */
  lemma {:induction false} SentinelValues(name: string)
    requires IsIdentifier(name)
    ensures CastedSentinel(["(", "(", name, ")", "0", ")"]) == Some(Evaluated(0, Some(name), None))
    ensures CastedSentinel(["(", "(", name, ")", "-", "1", ")"])
         == Some(Evaluated(IntBits.Pow2(64) - 1, Some(name), Some("^uintptr(0)")))
  {
    var zero := ["(", "(", name, ")", "0", ")"];
    assert zero[4..5] == ["0"];
    CastIsSentinel(["(", "(", name, ")", "-", "1", ")"]);
  }

  /** Of the two sentinel forms only that one is an expression over constants. */
  lemma {:induction false} SentinelIsCast(pieces: seq<string>, t: Tree)
    requires CastedSentinel(pieces).Some?
    requires ClassifyAll(pieces).Some? && Parse(ClassifyAll(pieces).value) == Some(t)
    ensures MinusOneCast(pieces)
    ensures CastedSentinel(pieces) == Some(Evaluated(IntBits.Pow2(64) - 1, Some(pieces[2]), Some("^uintptr(0)")))
  {
    CastedSentinelExact(pieces);
    var name :| name in pieces && IsIdentifier(name)
      && (pieces == ["(", "(", name, ")", "0", ")"] || pieces == ["(", "(", name, ")", "-", "1", ")"]);
    assert pieces[2] == name;
    if pieces == ["(", "(", name, ")", "0", ")"] {
      ClassifyAt(pieces, 3);
      ClassifyAt(pieces, 4);
      ParseExact(ClassifyAll(pieces).value, t);
      FlattenShape(t);
      assert false;
    } else {
      CastIsSentinel(pieces);
    }
  }

  /** What the body `((name)-1)` is in C when `name` is a constant. */
  function Subtraction(name: string): Tree {
    Group(Binary(Minus, Group(Reference(name)), Literal(1)))
  }

  function SubtractionTokens(name: string): seq<Token> {
    [Open, Open, Name(name), Close, Symbol(Minus), Number(1), Close]
  }

  lemma {:induction false} SubtractionParses(name: string)
    ensures Parse(SubtractionTokens(name)) == Some(Subtraction(name))
  {
    var left := Group(Reference(name));
    assert Flatten(left) == [Open, Name(name), Close] && Grammatical(left) && Level(left) == ATOM;
    assert Grammatical(Binary(Minus, left, Literal(1)));
    assert Flatten(Binary(Minus, left, Literal(1))) == [Open, Name(name), Close, Symbol(Minus), Number(1)];
    assert Flatten(Subtraction(name)) == SubtractionTokens(name);
    ParseExact(SubtractionTokens(name), Subtraction(name));
  }

  lemma {:induction false} NameToken(name: string)
    requires IsIdentifier(name)
    ensures Classify(name) == Some(Name(name)) && !IsUnsignedLiteral(name)
  {
  }

  lemma {:induction false} CastTokens(pieces: seq<string>)
    requires MinusOneCast(pieces)
    ensures ClassifyAll(pieces) == Some(SubtractionTokens(pieces[2])) && !HasUnsigned(pieces)
  {
    OneDigit('1');
    NameToken(pieces[2]);
    ClassifyEach(pieces, SubtractionTokens(pieces[2]));
  }

  predicate SameValue(a: Definition, b: Definition) {
    a == b || (a.Constant? && b.Constant? && a.constant.value == b.constant.value)
  }

  /** A well-formed body over constants gets its value in C exactly when it is not `((name)-1)`, or
      when `name` happens to be 2^64. */
  lemma {:induction false} MeansCExactly(spellings: seq<string>, known: map<string, int>, t: Tree)
    requires |spellings| >= 2
    requires ClassifyAll(spellings[1..]).Some? && Parse(ClassifyAll(spellings[1..]).value) == Some(t)
    ensures SameValue(EvaluateDefinition(spellings, known, false), CDefinition(spellings[1..], known, t)) <==>
      (MinusOneCast(spellings[1..]) ==>
         spellings[1..][2] in known && known[spellings[1..][2]] == IntBits.Pow2(64))
  {
    var pieces := spellings[1..];
    DefinitionMeaning(spellings, known, t);
    if MinusOneCast(pieces) {
      CastTokens(pieces);
      SubtractionParses(pieces[2]);
      SubtractionValue(pieces[2], known);
    }
  }

  lemma {:induction false} SubtractionValue(name: string, known: map<string, int>)
    ensures Known(SubtractionTokens(name), known) <==> name in known
    ensures name in known ==> Eval(Subtraction(name), known) == Value(known[name] - 1)
  {
    assert SubtractionTokens(name)[2] == Name(name);
    if name in known {
      assert Eval(Group(Reference(name)), known) == Value(known[name]);
      assert Eval(Binary(Minus, Group(Reference(name)), Literal(1)), known) == Value(known[name] - 1);
    }
  }

  /** `#define M ((X)-1)` is 2^64 - 1 for every X, where C has 4 for X = 5. */
  lemma {:induction false} CastOfConstant(known: map<string, int>)
    requires "X" in known && known["X"] == 5
    ensures var pieces := ["(", "(", "X", ")", "-", "1", ")"];
      && EvaluateDefinition(["M"] + pieces, known, false)
         == Constant(Evaluated(IntBits.Pow2(64) - 1, Some("X"), Some("^uintptr(0)")))
      && ClassifyAll(pieces).Some? && Parse(ClassifyAll(pieces).value) == Some(Subtraction("X"))
      && CDefinition(pieces, known, Subtraction("X")) == Constant(Evaluated(4, None, None))
  {
    var pieces := ["(", "(", "X", ")", "-", "1", ")"];
    assert MinusOneCast(pieces) && (["M"] + pieces)[1..] == pieces;
    CastTokens(pieces);
    SubtractionParses("X");
    SubtractionValue("X", known);
    DefinitionMeaning(["M"] + pieces, known, Subtraction("X"));
  }

  // ---- negative shift counts and juxtaposed negatives ----

  /** Evaluation of a definition raises in Python exactly when its body is read as an expression, all
      its names are known, and some shift has a negative count. */
  lemma {:induction false} DefinitionRaises(spellings: seq<string>, known: map<string, int>)
    requires |spellings| >= 2
    ensures var pieces := spellings[1..]; var tokens := ClassifyAll(pieces);
      EvaluateDefinition(spellings, known, false) == PythonError <==>
        && CastedSentinel(pieces).None? && tokens.Some? && Known(tokens.value, known)
        && Parse(WithMinus(tokens.value, known)).Some?
        && NegativeShift(Parse(WithMinus(tokens.value, known)).value, known)
  {
    var tokens := ClassifyAll(spellings[1..]);
    DefinitionExactly(spellings, known);
    if tokens.Some? && Parse(WithMinus(tokens.value, known)).Some? {
      RaisesExact(Parse(WithMinus(tokens.value, known)).value, known);
    }
  }

  /** `v X` is no expression in C, and with a minus sign it is a subtraction. */
  lemma {:induction false} JuxtaposedTokens(v: nat, x: string, known: map<string, int>)
    requires x in known && known[x] < 0
    ensures Parse([Number(v), Name(x)]) == None
    ensures Parse(WithMinus([Number(v), Name(x)], known)) == Some(Binary(Minus, Literal(v), Literal(-known[x])))
  {
    var tokens := [Number(v), Name(x)];
    assert EndsOperand(tokens[1 - 1]) && tokens[1].Name?;
    JuxtaposedIsMalformed(tokens, known);
    assert tokens[..1] == [Number(v)] && [Number(v)][..0] == [];
    assert WithMinus([Number(v)], known) == [Number(v)];
    var minus := [Number(v), Symbol(Minus), Number(-known[x])];
    assert WithMinus(tokens, known) == [Number(v)] + ValueTokens(known[x]) == minus;
    var t := Binary(Minus, Literal(v), Literal(-known[x]));
    assert Flatten(t) == minus;
    ParseExact(minus, t);
  }

  lemma {:induction false} JuxtaposedPieces()
    ensures ClassifyAll(["3", "X"]) == Some([Number(3), Name("X")])
    ensures !HasUnsigned(["3", "X"]) && (["M"] + ["3", "X"])[1..] == ["3", "X"]
  {
    OneDigit('3');
    NameToken("X");
    ClassifyEach(["3", "X"], [Number(3), Name("X")]);
  }

  lemma {:induction false} DefinitionRead(name: string, pieces: seq<string>, known: map<string, int>)
    requires |pieces| > 0 && CastedSentinel(pieces).None? && ClassifyAll(pieces).Some?
    requires Known(ClassifyAll(pieces).value, known) && Parse(WithMinus(ClassifyAll(pieces).value, known)).Some?
    ensures EvaluateDefinition([name] + pieces, known, false)
         == FinishDefinition(Eval(Parse(WithMinus(ClassifyAll(pieces).value, known)).value, known), HasUnsigned(pieces))
  {
    assert ([name] + pieces)[1..] == pieces;
    DefinitionExactly([name] + pieces, known);
  }

  /** `#define M 3 X` for negative X is no expression in C, and evaluates to 3 + X. */
  lemma {:induction false} JuxtaposedDefinition(known: map<string, int>)
    requires "X" in known && known["X"] < 0
    ensures ClassifyAll(["3", "X"]).Some? && Parse(ClassifyAll(["3", "X"]).value) == None
    ensures EvaluateDefinition(["M"] + ["3", "X"], known, false) == Constant(Evaluated(3 + known["X"], None, None))
  {
    JuxtaposedPieces();
    JuxtaposedTokens(3, "X", known);
    DefinitionRead("M", ["3", "X"], known);
    assert Eval(Binary(Minus, Literal(3), Literal(-known["X"])), known) == Value(3 + known["X"]);
  }

  /** A definition given by the spellings, tokens and parse tree of its body. */
  lemma {:induction false} DefinitionOf(pieces: seq<string>, tokens: seq<Token>, known: map<string, int>, t: Tree)
    requires |pieces| > 0 && !MinusOneCast(pieces) && Grammatical(t) && Flatten(t) == tokens
    requires |pieces| == |tokens| && forall i :: 0 <= i < |pieces| ==> Classify(pieces[i]) == Some(tokens[i])
    requires Known(tokens, known)
    ensures EvaluateDefinition(["M"] + pieces, known, false) == FinishDefinition(Eval(t, known), HasUnsigned(pieces))
  {
    ClassifyEach(pieces, tokens);
    ParseExact(tokens, t);
    assert (["M"] + pieces)[1..] == pieces;
    DefinitionMeaning(["M"] + pieces, known, t);
  }

  /** `#define M 1 << -1` */
  lemma {:induction false} NegativeShiftRaises(known: map<string, int>)
    ensures EvaluateDefinition(["M"] + ["1", "<<", "-", "1"], known, false) == PythonError
  {
    var minusOne := Unary(Minus, Literal(1));
    var tokens := [Number(1), Symbol(ShiftLeft), Symbol(Minus), Number(1)];
    OneDigit('1');
    assert Flatten(minusOne) == [Symbol(Minus), Number(1)];
    assert Flatten(Binary(ShiftLeft, Literal(1), minusOne)) == tokens;
    assert Eval(minusOne, known) == Value(-1);
    DefinitionOf(["1", "<<", "-", "1"], tokens, known, Binary(ShiftLeft, Literal(1), minusOne));
  }

  const REMAINDER := Binary(Percent, Unary(Minus, Literal(7)), Literal(3))

  lemma {:induction false} RemainderValue(known: map<string, int>)
    ensures Grammatical(Group(REMAINDER)) && Eval(Group(REMAINDER), known) == Value(2)
    ensures Flatten(Group(REMAINDER)) == [Open, Symbol(Minus), Number(7), Symbol(Percent), Number(3), Close]
  {
    var minusSeven := Unary(Minus, Literal(7));
    assert Flatten(minusSeven) == [Symbol(Minus), Number(7)];
    assert Flatten(REMAINDER) == [Symbol(Minus), Number(7), Symbol(Percent), Number(3)];
    assert Eval(minusSeven, known) == Value(-7) && Eval(REMAINDER, known) == Value(2);
  }

  lemma {:induction false} RemainderPieces()
    ensures var pieces, tokens := ["(", "-", "7", "%", "3", ")"],
                                  [Open, Symbol(Minus), Number(7), Symbol(Percent), Number(3), Close];
      (forall i :: 0 <= i < |pieces| ==> Classify(pieces[i]) == Some(tokens[i])) && !HasUnsigned(pieces)
  {
    OneDigit('7');
    OneDigit('3');
  }

  /** `#define M (-7 % 3)` is 2, where C has -1. */
  lemma {:induction false} ModuloDiffers(known: map<string, int>)
    ensures EvaluateDefinition(["M"] + ["(", "-", "7", "%", "3", ")"], known, false)
         == Constant(Evaluated(2, None, None))
    ensures IntBits.CRemainder(-7, 3) == -1
  {
    RemainderValue(known);
    RemainderPieces();
    DefinitionOf(["(", "-", "7", "%", "3", ")"],
                 [Open, Symbol(Minus), Number(7), Symbol(Percent), Number(3), Close], known, Group(REMAINDER));
  }

  const FLAGS := Binary(Or, Literal(1), Literal(2))

  lemma {:induction false} FlagsValue(known: map<string, int>)
    ensures Grammatical(Group(FLAGS)) && Eval(Group(FLAGS), known) == Value(3)
    ensures Flatten(Group(FLAGS)) == [Open, Number(1), Symbol(Or), Number(2), Close]
  {
    assert Flatten(FLAGS) == [Number(1), Symbol(Or), Number(2)];
    assert IntBits.Bitwise(IntBits.BitOr, 0, 1) == 2 * IntBits.Bitwise(IntBits.BitOr, 0, 0) + 1;
    assert IntBits.Bitwise(IntBits.BitOr, 1, 2) == 2 * IntBits.Bitwise(IntBits.BitOr, 0, 1) + 1;
    assert Eval(FLAGS, known) == Value(3);
  }

  lemma {:induction false} FlagsPieces()
    ensures var pieces, tokens := ["(", "1", "|", "2", ")"], [Open, Number(1), Symbol(Or), Number(2), Close];
      (forall i :: 0 <= i < |pieces| ==> Classify(pieces[i]) == Some(tokens[i])) && !HasUnsigned(pieces)
  {
    OneDigit('1');
    OneDigit('2');
  }

  /** `#define FLAGS (1 | 2)` is 3. */
  lemma {:induction false} FlagsDefinition(known: map<string, int>)
    ensures EvaluateDefinition(["M"] + ["(", "1", "|", "2", ")"], known, false) == Constant(Evaluated(3, None, None))
  {
    FlagsValue(known);
    FlagsPieces();
    DefinitionOf(["(", "1", "|", "2", ")"], [Open, Number(1), Symbol(Or), Number(2), Close], known, Group(FLAGS));
  }

  /** With an unsigned literal and word operators the constant is C's 64-bit value, up to a multiple
      of 2^64 that is missing exactly when the exact value stays below 2^64. */
  lemma {:induction false} UnsignedDefinition(spellings: seq<string>, known: map<string, int>, t: Tree) returns (v: int)
    requires |spellings| >= 2
    requires ClassifyAll(spellings[1..]).Some? && Parse(ClassifyAll(spellings[1..]).value) == Some(t)
    requires Known(ClassifyAll(spellings[1..]).value, known)
    requires WordExpression(t, known) && HasUnsigned(spellings[1..])
    ensures EvaluateDefinition(spellings, known, false) == Constant(Evaluated(v, None, None))
    ensures v >= 0 && IntBits.Congruent(v, WordValue(t, known), IntBits.Pow2(64))
    ensures Eval(t, known).Value? && (v == WordValue(t, known) <==> Eval(t, known).value < IntBits.Pow2(64))
  {
    UnsignedResult(t, known);
    DefinitionMeaning(spellings, known, t);
    if MinusOneCast(spellings[1..]) {
      CastTokens(spellings[1..]);
    }
    v := Finish(Eval(t, known).value, true);
  }

  /** An identifier without a known value leaves no expression; only the cast shortcut does without. */
  lemma {:induction false} UnknownIdentifierFails(pieces: seq<string>, known: map<string, int>, i: nat)
    requires i < |pieces| && IsIdentifier(pieces[i]) && pieces[i] !in known
    ensures BuildPieces(pieces, known) == None
  {
    var n := |pieces| - 1;
    if i < n {
      assert pieces[..n][i] == pieces[i];
      UnknownIdentifierFails(pieces[..n], known, i);
    }
  }

  lemma {:induction false} CastPieces(name: string, cast: seq<string>)
    ensures var pieces := ["(", "(", name, ")"] + cast + [")"];
      pieces[2] == name && pieces[4..|pieces| - 1] == cast && pieces[|pieces| - 1] == ")"
  {
  }

  /** The sentinel forms are recognised exactly. */
  lemma {:induction false} CastedSentinelExact(pieces: seq<string>)
    ensures CastedSentinel(pieces).Some? <==>
      exists name | name in pieces ::
        && IsIdentifier(name)
        && (pieces == ["(", "(", name, ")", "0", ")"] || pieces == ["(", "(", name, ")", "-", "1", ")"])
  {
    if CastedSentinel(pieces).Some? {
      var name := pieces[2];
      var n := |pieces|;
      var cast := pieces[4..n - 1];
      assert pieces == pieces[..4] + cast + [pieces[n - 1]];
      assert pieces[..4] == ["(", "(", name, ")"];
      assert pieces == ["(", "(", name, ")", "0", ")"] || pieces == ["(", "(", name, ")", "-", "1", ")"];
    }
    if name :| name in pieces && IsIdentifier(name)
               && (pieces == ["(", "(", name, ")", "0", ")"] || pieces == ["(", "(", name, ")", "-", "1", ")"]) {
      var cast := if |pieces| == 6 then ["0"] else ["-", "1"];
      assert pieces == ["(", "(", name, ")"] + cast + [")"];
      CastPieces(name, cast);
    }
  }
}
