/** Evaluation of macro expressions and the textual substitution of known constants
    (src/purego_gen/macro_constants.py). */
module MacroEval {
  import opened IntBits
  import opened MacroParser
  import opened Options

  /** A value, `None`, or the exception that Python raises for a negative shift count. */
  datatype Outcome = Value(value: int) | Unsupported | Raises

  function UnaryValue(op: Operator, v: int): Outcome {
    match op
    case Plus => Value(v)
    case Minus => Value(-v)
    case Tilde => Value(-v - 1)
    case _ => Unsupported
  }

  function BinaryValue(op: Operator, a: int, b: int): Outcome {
    match op
    case Slash => if b == 0 then Unsupported else Value(TruncatedDiv(a, b))
    case Percent => if b == 0 then Unsupported else Value(FloorMod(a, b))
    case Plus => Value(a + b)
    case Minus => Value(a - b)
    case Times => Value(a * b)
    case ShiftLeft => if b < 0 then Raises else Value(a * Pow2(b))
    case ShiftRight => if b < 0 then Raises else Value(a / Pow2(b))
    case Or => Value(Bitwise(BitOr, a, b))
    case And => Value(Bitwise(BitAnd, a, b))
    case Xor => Value(Bitwise(BitXor, a, b))
    case Tilde => Unsupported
  }

  /** The value of a parse tree when the identifiers have the values of `env`;
      `_evaluate_integer_expression_ast` is the case of the empty environment. A call or a tuple has
      none, and its parts are not looked at. */
  function Eval(t: Tree, env: map<string, int>): Outcome {
    match t
    case Literal(v) => Value(v)
    case Reference(x) => if x in env then Value(env[x]) else Unsupported
    case Group(inner) => Eval(inner, env)
    case Unary(op, operand) =>
      (match Eval(operand, env)
       case Value(v) => UnaryValue(op, v)
       case other => other)
    case Binary(op, left, right) =>
      (match (Eval(left, env), Eval(right, env))
       case (Raises, _) => Raises
       case (_, Raises) => Raises
       case (Value(a), Value(b)) => BinaryValue(op, a, b)
       case _ => Unsupported)
    case Unit => Unsupported
    case CallEmpty(_) => Unsupported
    case Call(_, _, _) => Unsupported
  }

  /** Some shift has a negative count; both of its operands have values. */
  predicate NegativeShift(t: Tree, env: map<string, int>) {
    match t
    case Literal(_) => false
    case Reference(_) => false
    case Group(inner) => NegativeShift(inner, env)
    case Unary(_, operand) => NegativeShift(operand, env)
    case Binary(op, left, right) =>
      || NegativeShift(left, env)
      || NegativeShift(right, env)
      || ((op.ShiftLeft? || op.ShiftRight?)
          && Eval(left, env).Value? && Eval(right, env).Value? && Eval(right, env).value < 0)
    case _ => false
  }

  /** Python raises exactly for a negative shift count anywhere, even beside an unsupported operand. */
  lemma {:induction false} RaisesExact(t: Tree, env: map<string, int>)
    ensures Eval(t, env) == Raises <==> NegativeShift(t, env)
  {
    match t {
      case Literal(_) =>
      case Reference(_) =>
      case Group(inner) => RaisesExact(inner, env);
      case Unary(_, operand) => RaisesExact(operand, env);
      case Binary(_, left, right) =>
        RaisesExact(left, env);
        RaisesExact(right, env);
      case _ =>
    }
  }

  // ---- what the operators mean ----

  /** The result of a binary operator, by what C says of it; bits are those of two's complement. */
  ghost predicate IsResult(op: Operator, a: int, b: int, v: int) {
    match op
    case Plus => v - a == b
    case Minus => v + b == a
    case Times => v == b * a
    case Slash => b != 0 && exists r :: a == v * b + r && Abs(r) < Abs(b) && (r > 0 ==> a > 0) && (r < 0 ==> a < 0)
    case Percent => b != 0 && exists q :: a == q * b + v && (if b > 0 then 0 <= v < b else b < v <= 0)
    case ShiftLeft => b >= 0 && forall k: nat :: Bit(v, k) == if k < b then 0 else Bit(a, k - b)
    case ShiftRight => b >= 0 && forall k: nat :: Bit(v, k) == Bit(a, k + b)
    case Or => forall k: nat :: Bit(v, k) == 1 <==> Bit(a, k) == 1 || Bit(b, k) == 1
    case And => forall k: nat :: Bit(v, k) == 1 <==> Bit(a, k) == 1 && Bit(b, k) == 1
    case Xor => forall k: nat :: Bit(v, k) == 1 <==> Bit(a, k) != Bit(b, k)
    case Tilde => false
  }

  /** A binary operator on operands with values has its result; None for a zero divisor and for `~`,
      an exception for a negative shift count. `%` is Python's modulo. */
  lemma {:induction false} BinaryExact(op: Operator, left: Tree, right: Tree, env: map<string, int>)
    requires Eval(left, env).Value? && Eval(right, env).Value?
    ensures var a, b := Eval(left, env).value, Eval(right, env).value;
      match Eval(Binary(op, left, right), env)
      case Value(v) => IsResult(op, a, b, v)
      case Unsupported => op.Tilde? || ((op.Slash? || op.Percent?) && b == 0)
      case Raises => (op.ShiftLeft? || op.ShiftRight?) && b < 0
  {
    var a, b := Eval(left, env).value, Eval(right, env).value;
    if BinaryValue(op, a, b).Value? {
      ResultExact(op, a, b);
    }
  }

  lemma {:induction false} ResultExact(op: Operator, a: int, b: int)
    requires BinaryValue(op, a, b).Value?
    ensures IsResult(op, a, b, BinaryValue(op, a, b).value)
  {
    match op {
      case Slash =>
        TruncatedExact(a, b);
        assert a == TruncatedDiv(a, b) * b + CRemainder(a, b);
      case Percent =>
        var q := FloorModExact(a, b);
      case ShiftLeft =>
        forall k: nat ensures Bit(a * Pow2(b), k) == if k < b then 0 else Bit(a, k - b) {
          ShiftLeftBits(a, b, k);
        }
      case ShiftRight =>
        forall k: nat ensures Bit(a / Pow2(b), k) == Bit(a, k + b) {
          ShiftRightBits(a, b, k);
        }
      case Or | And | Xor => BitsExact(op, a, b);
      case _ =>
    }
  }

  lemma {:induction false} BitsExact(op: Operator, a: int, b: int)
    requires op.Or? || op.And? || op.Xor?
    ensures BinaryValue(op, a, b).Value? && IsResult(op, a, b, BinaryValue(op, a, b).value)
  {
    var bitOp := if op.Or? then BitOr else if op.And? then BitAnd else BitXor;
    forall k: nat ensures Combines(bitOp, Bit(a, k), Bit(b, k), Bit(Bitwise(bitOp, a, b), k)) {
      BitwiseExact(bitOp, a, b, k);
    }
  }

  /** The signs and the complement. */
  lemma {:induction false} UnaryExact(op: Operator, operand: Tree, env: map<string, int>)
    requires Eval(operand, env).Value?
    ensures var a := Eval(operand, env).value;
      match Eval(Unary(op, operand), env)
      case Value(v) =>
        (match op
         case Plus => v == a
         case Minus => v + a == 0
         case Tilde => forall k: nat :: Bit(v, k) != Bit(a, k)
         case _ => false)
      case Unsupported => !IsPrefix(op)
      case Raises => false
  {
    var a := Eval(operand, env).value;
    forall k: nat ensures Bit(-a - 1, k) != Bit(a, k) {
      ComplementBits(a, k);
    }
  }

  // ---- substitution ----

  /** The tokens of `str(v)`: a negative value brings its own minus sign and no parentheses. */
  function ValueTokens(v: int): seq<Token> {
    if v < 0 then [Symbol(Minus), Number(-v)] else [Number(v)]
  }

  predicate Known(tokens: seq<Token>, env: map<string, int>) {
    forall i :: 0 <= i < |tokens| && tokens[i].Name? ==> tokens[i].id in env
  }

  function SpliceOne(token: Token, env: map<string, int>): (r: seq<Token>)
    ensures r != []
  {
    if token.Name? && token.id in env then ValueTokens(env[token.id]) else [token]
  }

  function Splice(tokens: seq<Token>, env: map<string, int>): seq<Token> {
    if tokens == [] then [] else SpliceOne(tokens[0], env) + Splice(tokens[1..], env)
  }

  /** The tree of the spliced tokens; the minus sign of a negative value that is called stands outside
      the call. */
  function SubstituteTree(t: Tree, env: map<string, int>): Tree {
    match t
    case Literal(_) => t
    case Reference(x) =>
      if x !in env then t else if env[x] < 0 then Unary(Minus, Literal(-env[x])) else Literal(env[x])
    case Group(inner) => Group(SubstituteTree(inner, env))
    case Unary(op, operand) => Unary(op, SubstituteTree(operand, env))
    case Binary(op, left, right) => Binary(op, SubstituteTree(left, env), SubstituteTree(right, env))
    case Unit => t
    case CallEmpty(callee) => SignedEmptyCall(SubstituteTree(callee, env))
    case Call(callee, starred, argument) =>
      SignedCall(SubstituteTree(callee, env), starred, SubstituteTree(argument, env))
  }

  function SignedEmptyCall(callee: Tree): (t: Tree)
    ensures Flatten(t) == Flatten(callee) + [Open, Close]
  {
    if callee.Unary? then Unary(callee.op, CallEmpty(callee.operand)) else CallEmpty(callee)
  }

  function SignedCall(callee: Tree, starred: bool, argument: Tree): (t: Tree)
    ensures Flatten(t) == Flatten(callee) + Opening(starred) + Flatten(argument) + [Close]
  {
    if callee.Unary? then Unary(callee.op, Call(callee.operand, starred, argument)) else Call(callee, starred, argument)
  }

  lemma {:induction false} SpliceConcat(a: seq<Token>, b: seq<Token>, env: map<string, int>)
    ensures Splice(a + b, env) == Splice(a, env) + Splice(b, env)
  {
    if a == [] {
      assert a + b == b;
    } else {
      var one := SpliceOne(a[0], env);
      assert (a + b)[0] == a[0] && (a + b)[1..] == a[1..] + b;
      SpliceConcat(a[1..], b, env);
      assert Splice(a + b, env) == one + Splice(a[1..] + b, env);
      assert one + (Splice(a[1..], env) + Splice(b, env)) == (one + Splice(a[1..], env)) + Splice(b, env);
    }
  }

  /** A tree without its sign. */
  function Unsigned(t: Tree): Tree {
    if t.Unary? then t.operand else t
  }

  /** A minus sign from a negative value binds tighter than every operator around it. */
  lemma {:induction false} SubstituteTreeGrammatical(t: Tree, env: map<string, int>)
    requires Grammatical(t)
    ensures Grammatical(SubstituteTree(t, env))
    ensures Level(SubstituteTree(t, env)) >= if Level(t) < PREFIX then Level(t) else PREFIX
    ensures Level(t) >= POSTFIX ==> Level(Unsigned(SubstituteTree(t, env))) >= POSTFIX
  {
    match t {
      case Group(inner) => SubstituteTreeGrammatical(inner, env);
      case Unary(_, operand) => SubstituteTreeGrammatical(operand, env);
      case Binary(_, left, right) =>
        SubstituteTreeGrammatical(left, env);
        SubstituteTreeGrammatical(right, env);
      case CallEmpty(callee) => SubstituteTreeGrammatical(callee, env);
      case Call(callee, _, argument) =>
        SubstituteTreeGrammatical(callee, env);
        SubstituteTreeGrammatical(argument, env);
      case _ =>
    }
  }

  /** The substituted tree is what the spliced tokens flatten from. */
  lemma {:induction false} SubstituteTreeSplices(t: Tree, env: map<string, int>)
    ensures Flatten(SubstituteTree(t, env)) == Splice(Flatten(t), env)
  {
    match t {
      case Literal(v) => SpliceSymbols([Number(v)], env);
      case Reference(x) => assert [Name(x)][1..] == [];
      case Unit => SpliceSymbols([Open, Close], env);
      case Group(inner) =>
        SubstituteTreeSplices(inner, env);
        SpliceAround([Open], Flatten(inner), [Close], env);
      case Unary(op, operand) =>
        SubstituteTreeSplices(operand, env);
        SpliceConcat([Symbol(op)], Flatten(operand), env);
        SpliceSymbols([Symbol(op)], env);
      case Binary(op, left, right) =>
        SubstituteTreeSplices(left, env);
        SubstituteTreeSplices(right, env);
        SpliceBetween(Flatten(left), [Symbol(op)], Flatten(right), env);
      case CallEmpty(callee) =>
        SubstituteTreeSplices(callee, env);
        SpliceConcat(Flatten(callee), [Open, Close], env);
        SpliceSymbols([Open, Close], env);
      case Call(callee, starred, argument) =>
        SubstituteTreeSplices(callee, env);
        SubstituteTreeSplices(argument, env);
        SpliceCall(Flatten(callee), Opening(starred), Flatten(argument), env);
    }
  }

  lemma {:induction false} SpliceCall(a: seq<Token>, b: seq<Token>, c: seq<Token>, env: map<string, int>)
    requires forall i :: 0 <= i < |b| ==> !b[i].Name?
    ensures Splice(a + b + c + [Close], env) == Splice(a, env) + b + Splice(c, env) + [Close]
  {
    SpliceBetween(a, b, c, env);
    SpliceConcat(a + b + c, [Close], env);
    SpliceSymbols([Close], env);
  }

  lemma {:induction false} SpliceAround(a: seq<Token>, b: seq<Token>, c: seq<Token>, env: map<string, int>)
    requires (forall i :: 0 <= i < |a| ==> !a[i].Name?) && forall i :: 0 <= i < |c| ==> !c[i].Name?
    ensures Splice(a + b + c, env) == a + Splice(b, env) + c
  {
    SpliceConcat(a + b, c, env);
    SpliceConcat(a, b, env);
    SpliceSymbols(a, env);
    SpliceSymbols(c, env);
  }

  lemma {:induction false} SpliceBetween(a: seq<Token>, b: seq<Token>, c: seq<Token>, env: map<string, int>)
    requires forall i :: 0 <= i < |b| ==> !b[i].Name?
    ensures Splice(a + b + c, env) == Splice(a, env) + b + Splice(c, env)
  {
    SpliceConcat(a + b, c, env);
    SpliceConcat(a, b, env);
    SpliceSymbols(b, env);
  }

  lemma {:induction false} SpliceSymbols(tokens: seq<Token>, env: map<string, int>)
    requires forall i :: 0 <= i < |tokens| ==> !tokens[i].Name?
    ensures Splice(tokens, env) == tokens
  {
    if tokens != [] {
      SpliceSymbols(tokens[1..], env);
    }
  }

  lemma {:induction false} SubstituteTreeEval(t: Tree, env: map<string, int>)
    ensures Eval(SubstituteTree(t, env), map[]) == Eval(t, env)
  {
    match t {
      case Literal(_) =>
      case Reference(x) =>
        if x in env && env[x] < 0 {
          assert Eval(Literal(-env[x]), map[]) == Value(-env[x]);
        }
      case Group(inner) => SubstituteTreeEval(inner, env);
      case Unary(_, operand) => SubstituteTreeEval(operand, env);
      case Binary(_, left, right) =>
        SubstituteTreeEval(left, env);
        SubstituteTreeEval(right, env);
      case _ =>
    }
  }

  /** Textual substitution into a well-formed expression keeps its meaning: the spliced tokens
      parse, and their value is that of the original tree under the environment. */
  lemma {:induction false} SubstitutionPreservesMeaning(tokens: seq<Token>, t: Tree, env: map<string, int>)
    requires Parse(tokens) == Some(t)
    ensures Parse(Splice(tokens, env)) == Some(SubstituteTree(t, env))
    ensures Eval(SubstituteTree(t, env), map[]) == Eval(t, env)
  {
    ParseExact(tokens, t);
    SubstituteTreeGrammatical(t, env);
    SubstituteTreeSplices(t, env);
    ParseExact(Splice(tokens, env), SubstituteTree(t, env));
    SubstituteTreeEval(t, env);
  }

  // ---- malformed expressions ----

  predicate EndsOperand(token: Token) {
    token.Number? || token.Name? || token.Close?
  }

  /** An operand directly followed by an identifier with a negative value. */
  ghost predicate JuxtaposedNegative(tokens: seq<Token>, env: map<string, int>) {
    exists i :: 0 < i < |tokens| && EndsOperand(tokens[i - 1])
             && tokens[i].Name? && tokens[i].id in env && env[tokens[i].id] < 0
  }

  /** No operand starts with a name or number directly behind an operand. */
  predicate NothingJuxtaposed(tokens: seq<Token>) {
    forall i {:trigger tokens[i]} :: 0 < i < |tokens| && EndsOperand(tokens[i - 1]) ==>
      !tokens[i].Name? && !tokens[i].Number?
  }

  lemma {:induction false} JuxtaposedConcat(a: seq<Token>, b: seq<Token>)
    requires NothingJuxtaposed(a) && NothingJuxtaposed(b)
    requires a == [] || b == [] || !EndsOperand(a[|a| - 1]) || (!b[0].Name? && !b[0].Number?)
    ensures NothingJuxtaposed(a + b)
  {
    var all := a + b;
    forall i | 0 < i < |all| && EndsOperand(all[i - 1])
      ensures !all[i].Name? && !all[i].Number?
    {
      if i < |a| {
        assert all[i - 1] == a[i - 1] && all[i] == a[i];
      } else if i > |a| {
        assert all[i - 1] == b[i - |a| - 1] && all[i] == b[i - |a|];
      }
    }
  }

  lemma {:induction false} FlattenShape(t: Tree)
    ensures EndsOperand(Flatten(t)[|Flatten(t)| - 1])
    ensures NothingJuxtaposed(Flatten(t))
  {
    match t {
      case Literal(_) =>
      case Reference(_) =>
      case Group(inner) =>
        FlattenShape(inner);
        JuxtaposedConcat([Open], Flatten(inner));
        JuxtaposedConcat([Open] + Flatten(inner), [Close]);
      case Unary(op, operand) =>
        FlattenShape(operand);
        JuxtaposedConcat([Symbol(op)], Flatten(operand));
      case Binary(op, left, right) =>
        FlattenShape(left);
        FlattenShape(right);
        JuxtaposedConcat(Flatten(left), [Symbol(op)]);
        JuxtaposedConcat(Flatten(left) + [Symbol(op)], Flatten(right));
      case Unit =>
      case CallEmpty(callee) =>
        FlattenShape(callee);
        JuxtaposedConcat(Flatten(callee), [Open, Close]);
      case Call(callee, starred, argument) =>
        FlattenShape(callee);
        FlattenShape(argument);
        JuxtaposedConcat(Flatten(callee), Opening(starred));
        JuxtaposedConcat(Flatten(callee) + Opening(starred), Flatten(argument));
        JuxtaposedConcat(Flatten(callee) + Opening(starred) + Flatten(argument), [Close]);
    }
  }

  /** A juxtaposed negative never occurs in a well-formed expression. */
  lemma {:induction false} JuxtaposedIsMalformed(tokens: seq<Token>, env: map<string, int>)
    requires JuxtaposedNegative(tokens, env)
    ensures Parse(tokens) == None
  {
    if Parse(tokens).Some? {
      ParseExact(tokens, Parse(tokens).value);
      FlattenShape(Parse(tokens).value);
    }
  }

  lemma {:induction false} SpliceLast(tokens: seq<Token>, env: map<string, int>)
    requires tokens != []
    ensures Splice(tokens, env) != []
    ensures EndsOperand(Splice(tokens, env)[|Splice(tokens, env)| - 1]) <==> EndsOperand(tokens[|tokens| - 1])
  {
    var n := |tokens| - 1;
    SpliceConcat(tokens[..n], [tokens[n]], env);
    assert tokens == tokens[..n] + [tokens[n]] && [tokens[n]][1..] == [];
  }

  lemma {:induction false} SamePrefix(x: seq<Token>, y: seq<Token>, a: seq<Token>, b: seq<Token>)
    requires x + y == a + b && |x| <= |a|
    ensures a == x + a[|x|..] && y == a[|x|..] + b
  {
    assert a == (a + b)[..|a|] && x == (x + y)[..|x|];
    assert y == (x + y)[|x|..] && a[|x|..] + b == (a + b)[|x|..];
  }

  /** A spliced token that is no number starts the splice of some token. */
  lemma {:induction false} SplitSplice(tokens: seq<Token>, env: map<string, int>, a: seq<Token>, b: seq<Token>)
    returns (x: seq<Token>, y: seq<Token>)
    requires Splice(tokens, env) == a + b && b != [] && !b[0].Number?
    ensures tokens == x + y && Splice(x, env) == a && Splice(y, env) == b
    decreases |tokens|
  {
    if a == [] {
      x, y := [], tokens;
      assert a + b == b;
    } else {
      var one, rest := SpliceOne(tokens[0], env), Splice(tokens[1..], env);
      assert a + b == one + rest;
      assert |one| <= |a| by {
        assert |one| == 2 ==> one[1].Number? && (one + rest)[1] == one[1];
        assert |a| == 1 ==> (a + b)[1] == b[0];
      }
      var a' := a[|one|..];
      SamePrefix(one, rest, a, b);
      var x', y' := SplitSplice(tokens[1..], env, a', b);
      x, y := [tokens[0]] + x', y';
      assert x[1..] == x';
    }
  }

  /** A symbol behind an operand stands for itself, unless a negative value was juxtaposed. */
  lemma {:induction false} SymbolStands(
    x: seq<Token>, token: Token, y: seq<Token>, env: map<string, int>, symbol: Token)
    requires x != [] && EndsOperand(x[|x| - 1]) && (symbol.Symbol? || symbol.Close?)
    requires Known([token], env) && SpliceOne(token, env)[0] == symbol
    ensures token == symbol || JuxtaposedNegative(x + [token] + y, env)
  {
    var all := x + [token] + y;
    assert all[|x| - 1] == x[|x| - 1] && all[|x|] == token;
    assert [token][0] == token;
  }

  /** The part of the tokens before a symbol, the symbol, and the part after it. */
  lemma {:induction false} SplitAtSymbol(
    tokens: seq<Token>, env: map<string, int>, a: seq<Token>, symbol: Token, b: seq<Token>)
    returns (x: seq<Token>, y: seq<Token>)
    requires Splice(tokens, env) == a + [symbol] + b && (symbol.Symbol? || symbol.Close?)
    requires !JuxtaposedNegative(tokens, env) && a != [] && EndsOperand(a[|a| - 1])
    ensures tokens == x + [symbol] + y && Splice(x, env) == a && Splice(y, env) == b
  {
    assert Splice(tokens, env) == a + ([symbol] + b);
    var v;
    x, v := SplitSplice(tokens, env, a, [symbol] + b);
    var token := v[0];
    y := v[1..];
    assert Splice(v, env) == SpliceOne(token, env) + Splice(y, env);
    assert SpliceOne(token, env)[0] == symbol;
    SpliceLast(x, env);
    SymbolStands(x, token, y, env, symbol);
    assert tokens == x + [token] + y;
    assert ([symbol] + b)[1..] == b && ([symbol] + Splice(y, env))[1..] == Splice(y, env);
    assert tokens == x + [symbol] + y;
  }

  predicate Clean(tokens: seq<Token>, env: map<string, int>) {
    && Known(tokens, env)
    && forall i {:trigger tokens[i]} :: 0 < i < |tokens| && EndsOperand(tokens[i - 1]) && tokens[i].Name? ==>
         env[tokens[i].id] >= 0
  }

  lemma {:induction false} CleanIff(tokens: seq<Token>, env: map<string, int>)
    requires Known(tokens, env)
    ensures Clean(tokens, env) <==> !JuxtaposedNegative(tokens, env)
  {
  }

  lemma {:induction false} CleanParts(x: seq<Token>, y: seq<Token>, z: seq<Token>, env: map<string, int>)
    requires Clean(x + y + z, env)
    ensures Clean(x, env) && Clean(y, env) && Clean(z, env)
  {
    var all := x + y + z;
    forall i | 0 <= i < |x| ensures x[i] == all[i] {}
    forall i | 0 <= i < |y| ensures y[i] == all[|x| + i] {}
    forall i | 0 <= i < |z| ensures z[i] == all[|x| + |y| + i] {}
  }

  /** Reading the substitution backwards from a parse of the spliced tokens. */
  lemma {:induction false} Unsplice(s: Tree, tokens: seq<Token>, env: map<string, int>) returns (t: Tree)
    requires Grammatical(s) && Flatten(s) == Splice(tokens, env) && Clean(tokens, env)
    ensures Grammatical(t) && Flatten(t) == tokens && Level(t) >= Level(s)
    decreases s, 1
  {
    CleanIff(tokens, env);
    match s {
      case Binary(op, left, right) =>
        FlattenShape(left);
        var x, y := SplitAtSymbol(tokens, env, Flatten(left), Symbol(op), Flatten(right));
        CleanParts(x, [Symbol(op)], y, env);
        var l := Unsplice(left, x, env);
        var r := Unsplice(right, y, env);
        t := Binary(op, l, r);
      case CallEmpty(callee) =>
        var x, y := UnspliceCallee(tokens, env, Flatten(callee), [Open, Close]);
        var c := Unsplice(callee, x, env);
        SymbolsOnly(y, env, [Open, Close]);
        t := CallEmpty(c);
      case Call(callee, starred, argument) =>
        var closing := Flatten(argument) + [Close];
        Associate(Flatten(callee), Opening(starred), Flatten(argument), [Close]);
        var x, y := UnspliceCallee(tokens, env, Flatten(callee), Opening(starred) + closing);
        var c := Unsplice(callee, x, env);
        var z := UnspliceOpening(y, env, starred, closing);
        var u := UnspliceClosed(argument, z, env);
        t := Call(c, starred, u);
        Associate(Flatten(c), Opening(starred), Flatten(u), [Close]);
      case _ => t := UnspliceTight(s, tokens, env);
    }
  }

  lemma {:induction false} SpliceFirst(tokens: seq<Token>, env: map<string, int>)
    requires tokens != [] && Clean(tokens, env)
    ensures Splice(tokens, env) == SpliceOne(tokens[0], env) + Splice(tokens[1..], env)
    ensures Splice(tokens[1..], env) == [] ==> tokens == [tokens[0]]
    ensures Clean(tokens[1..], env)
    ensures tokens[0].Name? ==> tokens[0].id in env
  {
    assert tokens == [tokens[0]] + tokens[1..] + [];
    CleanParts([tokens[0]], tokens[1..], [], env);
  }

  /** The tokens of the callee and those behind it. */
  lemma {:induction false} UnspliceCallee(
    tokens: seq<Token>, env: map<string, int>, callee: seq<Token>, behind: seq<Token>)
    returns (x: seq<Token>, y: seq<Token>)
    requires Clean(tokens, env) && Splice(tokens, env) == callee + behind && behind != [] && behind[0].Open?
    ensures tokens == x + y && Splice(x, env) == callee && Splice(y, env) == behind && Clean(x, env) && Clean(y, env)
  {
    x, y := SplitSplice(tokens, env, callee, behind);
    assert x + y + [] == x + y;
    CleanParts(x, y, [], env);
  }

  /** A parenthesis, or a star behind one, stands for itself. */
  lemma {:induction false} SymbolFirst(tokens: seq<Token>, env: map<string, int>, symbol: Token, rest: seq<Token>)
    requires Clean(tokens, env) && Splice(tokens, env) == [symbol] + rest
    requires symbol.Open? || symbol.Close? || symbol == Symbol(Times)
    ensures tokens != [] && tokens[0] == symbol && Splice(tokens[1..], env) == rest && Clean(tokens[1..], env)
  {
    SpliceFirst(tokens, env);
    var one, others := SpliceOne(tokens[0], env), Splice(tokens[1..], env);
    assert (one + others)[0] == one[0] == symbol;
    assert one == [symbol] && (one + others)[1..] == others && ([symbol] + rest)[1..] == rest;
  }

  lemma {:induction false} SymbolsOnly(tokens: seq<Token>, env: map<string, int>, symbols: seq<Token>)
    requires Clean(tokens, env) && Splice(tokens, env) == symbols
    requires forall i :: 0 <= i < |symbols| ==> symbols[i].Open? || symbols[i].Close?
    ensures tokens == symbols
  {
    if symbols != [] {
      assert symbols == [symbols[0]] + symbols[1..];
      SymbolFirst(tokens, env, symbols[0], symbols[1..]);
      SymbolsOnly(tokens[1..], env, symbols[1..]);
      assert tokens == [tokens[0]] + tokens[1..];
    }
  }

  lemma {:induction false} UnspliceOpening(tokens: seq<Token>, env: map<string, int>, starred: bool, rest: seq<Token>)
    returns (z: seq<Token>)
    requires Clean(tokens, env) && Splice(tokens, env) == Opening(starred) + rest
    ensures tokens == Opening(starred) + z && Splice(z, env) == rest && Clean(z, env)
  {
    if starred {
      assert Opening(starred) + rest == [Open] + ([Symbol(Times)] + rest);
      SymbolFirst(tokens, env, Open, [Symbol(Times)] + rest);
      SymbolFirst(tokens[1..], env, Symbol(Times), rest);
      z := tokens[2..];
    } else {
      SymbolFirst(tokens, env, Open, rest);
      z := tokens[1..];
    }
  }

  lemma {:induction false} UnspliceTight(s: Tree, tokens: seq<Token>, env: map<string, int>) returns (t: Tree)
    requires Grammatical(s) && Flatten(s) == Splice(tokens, env) && Clean(tokens, env)
    requires !s.Binary? && !s.CallEmpty? && !s.Call?
    ensures Grammatical(t) && Flatten(t) == tokens && Level(t) >= Level(s)
    decreases s, 0
  {
    SpliceFirst(tokens, env);
    var first, rest := tokens[0], tokens[1..];
    var one, others := SpliceOne(first, env), Splice(rest, env);
    assert Flatten(s)[0] == one[0];
    match s {
      case Literal(v) =>
        assert one == [Number(v)];
        t := if first.Name? then Reference(first.id) else Literal(v);
      case Reference(x) =>
        assert false;
      case Unit =>
        SymbolsOnly(tokens, env, [Open, Close]);
        t := Unit;
      case Group(inner) =>
        SymbolFirst(tokens, env, Open, Flatten(inner) + [Close]);
        var u := UnspliceClosed(inner, rest, env);
        t := Group(u);
        assert tokens == [Open] + rest;
      case Unary(op, operand) => t := UnspliceUnary(op, operand, tokens, env);
    }
  }

  lemma {:induction false} UnspliceUnary(op: Operator, operand: Tree, tokens: seq<Token>, env: map<string, int>)
    returns (t: Tree)
    requires IsPrefix(op) && Grammatical(operand) && Level(operand) >= PREFIX
    requires [Symbol(op)] + Flatten(operand) == Splice(tokens, env) && Clean(tokens, env)
    ensures Grammatical(t) && Flatten(t) == tokens && Level(t) >= PREFIX
    decreases operand, 2
  {
    SpliceFirst(tokens, env);
    var first, rest := tokens[0], tokens[1..];
    var one, others := SpliceOne(first, env), Splice(rest, env);
    assert one[0] == (one + others)[0] == Symbol(op) && tokens == [first] + rest;
    if first.Symbol? {
      assert (one + others)[1..] == others && ([Symbol(op)] + Flatten(operand))[1..] == Flatten(operand);
      var u := Unsplice(operand, rest, env);
      t := Unary(op, u);
    } else {
      NumberForName(first, rest, env, Flatten(operand));
      var u := Unsplice(operand, [Number(-env[first.id])] + rest, env);
      t := RenameHead(u, first.id);
    }
  }

  /** The tokens in front of a closing parenthesis. */
  lemma {:induction false} UnspliceClosed(inner: Tree, rest: seq<Token>, env: map<string, int>) returns (u: Tree)
    requires Grammatical(inner) && Flatten(inner) + [Close] == Splice(rest, env) && Clean(rest, env)
    ensures Grammatical(u) && Flatten(u) + [Close] == rest
    decreases inner, 2
  {
    FlattenShape(inner);
    CleanIff(rest, env);
    assert Flatten(inner) + [Close] + [] == Flatten(inner) + [Close];
    var x, y := SplitAtSymbol(rest, env, Flatten(inner), Close, []);
    CleanParts(x, [Close], y, env);
    u := Unsplice(inner, x, env);
    assert y == [];
    assert rest == x + [Close];
  }

  /** Behind the sign of a negative constant its absolute value stands in place of the name. */
  lemma {:induction false} NumberForName(first: Token, rest: seq<Token>, env: map<string, int>, operand: seq<Token>)
    requires first.Name? && first.id in env && env[first.id] < 0 && Clean([first] + rest, env)
    requires [Symbol(Minus)] + operand == SpliceOne(first, env) + Splice(rest, env)
    ensures var number := Number(-env[first.id]);
      Clean([number] + rest, env) && Splice([number] + rest, env) == operand && operand[0] == number
  {
    var number := Number(-env[first.id]);
    var tokens := [number] + rest;
    assert forall i {:trigger tokens[i]} :: 1 <= i < |tokens| ==> tokens[i] == ([first] + rest)[i];
    assert EndsOperand(([first] + rest)[0]);
    assert tokens[0] == number && tokens[1..] == rest;
    assert SpliceOne(first, env) == [Symbol(Minus)] + [number];
    assert ([Symbol(Minus)] + operand)[1..] == operand;
    assert (SpliceOne(first, env) + Splice(rest, env))[1..] == [number] + Splice(rest, env);
  }

  /** The tree with a name in place of the number it starts with. */
  lemma {:induction false} RenameHead(u: Tree, id: string) returns (t: Tree)
    requires Grammatical(u) && Level(u) >= PREFIX && Flatten(u)[0].Number?
    ensures Grammatical(t) && Level(t) >= POSTFIX && Flatten(t) == [Name(id)] + Flatten(u)[1..]
  {
    match u {
      case Literal(_) => t := Reference(id);
      case CallEmpty(callee) =>
        var c := RenameHead(callee, id);
        t := CallEmpty(c);
        HeadReplaced(Flatten(c), Flatten(callee), Name(id), [Open, Close]);
      case Call(callee, starred, argument) =>
        var c := RenameHead(callee, id);
        t := Call(c, starred, argument);
        CallTokens(c, starred, argument, []);
        CallTokens(callee, starred, argument, []);
        HeadReplaced(Flatten(c), Flatten(callee), Name(id), Opening(starred) + (Flatten(argument) + ([Close] + [])));
        assert Flatten(t) + [] == Flatten(t) && Flatten(u) + [] == Flatten(u);
      case _ => assert false;
    }
  }

  lemma {:induction false} HeadReplaced(a: seq<Token>, b: seq<Token>, name: Token, behind: seq<Token>)
    requires b != [] && a == [name] + b[1..]
    ensures a + behind == [name] + (b + behind)[1..]
  {
  }

  /** Without a juxtaposed negative, exactly the well-formed expressions still parse. */
  lemma {:induction false} SubstitutionKeepsErrors(tokens: seq<Token>, env: map<string, int>)
    requires Known(tokens, env) && !JuxtaposedNegative(tokens, env)
    ensures Parse(Splice(tokens, env)).Some? <==> Parse(tokens).Some?
  {
    if Parse(Splice(tokens, env)).Some? {
      var s := Parse(Splice(tokens, env)).value;
      ParseExact(Splice(tokens, env), s);
      CleanIff(tokens, env);
      var t := Unsplice(s, tokens, env);
      ParseExact(tokens, t);
    }
    if Parse(tokens).Some? {
      SubstitutionPreservesMeaning(tokens, Parse(tokens).value, env);
    }
  }

  /** The tokens with an explicit minus sign in front of each juxtaposed negative. */
  function WithMinus(tokens: seq<Token>, env: map<string, int>): seq<Token> {
    if tokens == [] then []
    else
      var n := |tokens| - 1;
      WithMinus(tokens[..n], env) +
      if n > 0 && EndsOperand(tokens[n - 1]) && tokens[n].Name? && tokens[n].id in env && env[tokens[n].id] < 0
      then ValueTokens(env[tokens[n].id]) else [tokens[n]]
  }

  /** Appending to tokens without a juxtaposed negative. */
  lemma {:induction false} CleanSnoc(tokens: seq<Token>, more: seq<Token>, env: map<string, int>)
    requires Known(tokens, env) && !JuxtaposedNegative(tokens, env)
    requires |more| == 1 || (|more| == 2 && !more[1].Name?)
    requires more[0].Name? ==> more[0].id in env
    requires tokens != [] && EndsOperand(tokens[|tokens| - 1]) && more[0].Name? ==> env[more[0].id] >= 0
    ensures Known(tokens + more, env) && !JuxtaposedNegative(tokens + more, env)
  {
    var all := tokens + more;
    forall i | 0 < i < |all| && EndsOperand(all[i - 1]) && all[i].Name? && all[i].id in env
      ensures env[all[i].id] >= 0
    {
      if i < |tokens| {
        assert tokens[i - 1] == all[i - 1] && tokens[i] == all[i];
      } else if i == |tokens| {
        assert tokens[|tokens| - 1] == all[i - 1] && more[0] == all[i];
      }
    }
  }

  /** The explicit signs change nothing in the spliced text and leave no juxtaposed negative. */
  lemma {:induction false} WithMinusSplices(tokens: seq<Token>, env: map<string, int>)
    requires Known(tokens, env)
    ensures Splice(WithMinus(tokens, env), env) == Splice(tokens, env)
    ensures Known(WithMinus(tokens, env), env) && !JuxtaposedNegative(WithMinus(tokens, env), env)
    ensures tokens != [] ==>
      && WithMinus(tokens, env) != []
      && (EndsOperand(WithMinus(tokens, env)[|WithMinus(tokens, env)| - 1]) <==> EndsOperand(tokens[|tokens| - 1]))
  {
    if tokens != [] {
      var n := |tokens| - 1;
      var init, last := tokens[..n], tokens[n];
      assert tokens == init + [last];
      WithMinusSplices(init, env);
      var before := WithMinus(init, env);
      var more := WithMinus(tokens, env)[|before|..];
      assert WithMinus(tokens, env) == before + more;
      CleanSnoc(before, more, env);
      SpliceConcat(init, [last], env);
      SpliceConcat(before, more, env);
      SpliceMore(last, more, env);
    }
  }

  lemma {:induction false} SpliceMore(last: Token, more: seq<Token>, env: map<string, int>)
    requires more == [last] || (last.Name? && last.id in env && more == ValueTokens(env[last.id]))
    ensures Splice(more, env) == Splice([last], env)
  {
    assert [last][1..] == [];
    if more != [last] {
      if env[last.id] < 0 {
        assert more == [more[0]] + [more[1]];
        SpliceConcat([more[0]], [more[1]], env);
        SpliceSymbols([more[1]], env);
      }
      SpliceSymbols([more[0]], env);
    }
  }

  /** Exactly these bodies are accepted: the ones that are well-formed once each juxtaposed negative
      has its minus sign. Malformed ones are among them exactly when that makes them well-formed. */
  lemma {:induction false} AcceptedExactly(tokens: seq<Token>, env: map<string, int>)
    requires Known(tokens, env)
    ensures Parse(Splice(tokens, env)).Some? <==> Parse(WithMinus(tokens, env)).Some?
    ensures Parse(Splice(tokens, env)).Some? ==>
      Eval(Parse(Splice(tokens, env)).value, map[]) == Eval(Parse(WithMinus(tokens, env)).value, env)
    ensures !JuxtaposedNegative(tokens, env) ==> WithMinus(tokens, env) == tokens
  {
    WithMinusSplices(tokens, env);
    SubstitutionKeepsErrors(WithMinus(tokens, env), env);
    if Parse(WithMinus(tokens, env)).Some? {
      SubstitutionPreservesMeaning(WithMinus(tokens, env), Parse(WithMinus(tokens, env)).value, env);
    }
    if !JuxtaposedNegative(tokens, env) {
      WithoutMinus(tokens, env);
    }
  }

  lemma {:induction false} WithoutMinus(tokens: seq<Token>, env: map<string, int>)
    requires !JuxtaposedNegative(tokens, env)
    ensures WithMinus(tokens, env) == tokens
  {
    if tokens != [] {
      var n := |tokens| - 1;
      forall i | 0 <= i < n ensures tokens[..n][i] == tokens[i] {}
      WithoutMinus(tokens[..n], env);
      assert tokens == tokens[..n] + [tokens[n]];
    }
  }

  /** For X with a negative value the malformed `v X` becomes a well-formed subtraction. */
  lemma {:induction false} JuxtapositionIsAccepted(v: nat, x: string, value: int)
    requires value < 0
    ensures var tokens, env := [Number(v), Name(x)], map[x := value];
      && Parse(tokens) == None
      && Parse(Splice(tokens, env)) == Some(Binary(Minus, Literal(v), Literal(-value)))
      && Eval(Binary(Minus, Literal(v), Literal(-value)), map[]) == Value(v + value)
  {
    var tokens, env := [Number(v), Name(x)], map[x := value];
    assert EndsOperand(tokens[1 - 1]) && tokens[1].Name?;
    JuxtaposedIsMalformed(tokens, env);
    assert tokens == [Number(v)] + [Name(x)] && [Name(x)][1..] == [];
    SpliceConcat([Number(v)], [Name(x)], env);
    SpliceSymbols([Number(v)], env);
    assert Splice([Name(x)], env) == [Symbol(Minus), Number(-value)];
    var t := Binary(Minus, Literal(v), Literal(-value));
    assert Flatten(t) == [Number(v)] + [Symbol(Minus)] + [Number(-value)];
    assert Splice(tokens, env) == Flatten(t);
    ParseExact(Splice(tokens, env), t);
  }

  // ---- unsigned arithmetic ----

  /** Built from operators that respect congruence modulo 2^64. A shift count is itself evaluated
      with wrap-around, so counts of 2^64 and more are another matter: see `ShiftAgreesExactly`. */
  predicate WordExpression(t: Tree, env: map<string, int>) {
    match t
    case Literal(_) => true
    case Reference(x) => x in env
    case Group(inner) => WordExpression(inner, env)
    case Unary(op, operand) => IsPrefix(op) && WordExpression(operand, env)
    case Binary(op, left, right) =>
      && WordExpression(left, env) && WordExpression(right, env)
      && (op in {Plus, Minus, Times, Or, And, Xor}
          || (op.ShiftLeft? && Eval(right, env).Value? && 0 <= Eval(right, env).value < Pow2(64)))
    case _ => false
  }

  function Word(v: int): (w: nat) {
    v % Pow2(64)
  }

  /** C's `unsigned long long` evaluation: wrap-around at every node. */
  function WordValue(t: Tree, env: map<string, int>): nat
    requires WordExpression(t, env)
  {
    match t
    case Literal(v) => Word(v)
    case Reference(x) => Word(env[x])
    case Group(inner) => WordValue(inner, env)
    case Unary(op, operand) =>
      var v: int := WordValue(operand, env);
      (match op case Plus => Word(v) case Minus => Word(-v) case _ => Word(-v - 1))
    case Binary(op, left, right) =>
      var a, b := WordValue(left, env), WordValue(right, env);
      match op
      case Plus => Word(a + b)
      case Minus => Word(a - b)
      case Times => Word(a * b)
      case Or => Word(Bitwise(BitOr, a, b))
      case And => Word(Bitwise(BitAnd, a, b))
      case Xor => Word(Bitwise(BitXor, a, b))
      case _ => Word(a * Pow2(b))
  }

  lemma {:induction false} WordBinary(op: Operator, a: int, b: int, a': nat, b': nat)
    requires Congruent(a, a', Pow2(64)) && Congruent(b, b', Pow2(64))
    requires op in {Plus, Minus, Times, Or, And, Xor}
    ensures BinaryValue(op, a, b).Value? && BinaryValue(op, a', b').Value?
    ensures Congruent(BinaryValue(op, a, b).value, BinaryValue(op, a', b').value, Pow2(64))
  {
    match op {
      case Plus | Minus => CongruentSum(a, a', b, b', Pow2(64));
      case Times => CongruentProduct(a, a', b, b', Pow2(64));
      case Or => BitwiseCongruent(BitOr, a, a', b, b', 64);
      case And => BitwiseCongruent(BitAnd, a, a', b, b', 64);
      case Xor => BitwiseCongruent(BitXor, a, a', b, b', 64);
    }
  }

  lemma {:induction false} WordUnary(op: Operator, v: int, v': nat)
    requires Congruent(v, v', Pow2(64)) && IsPrefix(op)
    ensures UnaryValue(op, v).Value? && UnaryValue(op, v').Value?
    ensures Congruent(UnaryValue(op, v).value, UnaryValue(op, v').value, Pow2(64))
  {
    CongruentSum(0, 0, v, v', Pow2(64));
    CongruentSum(0 - v, 0 - v', 1, 1, Pow2(64));
  }

  lemma {:induction false} WordReduces(v: int, w: int)
    requires Congruent(v, w, Pow2(64))
    ensures Congruent(v, Word(w), Pow2(64)) && 0 <= Word(w) < Pow2(64)
  {
    ModCongruent(w, Pow2(64));
  }

  lemma {:induction false} WordOf(v: int)
    requires 0 <= v < Pow2(64)
    ensures Word(v) == v
  {
    QuotientUnique(v, Pow2(64), 0, v);
  }

  lemma {:induction false} WordShift(a: int, a': nat, b: int, b': nat)
    requires Congruent(a, a', Pow2(64)) && Congruent(b, b', Pow2(64)) && 0 <= b < Pow2(64) && b' < Pow2(64)
    ensures b == b' && Congruent(a * Pow2(b), Word(a' * Pow2(b')), Pow2(64))
    ensures Word(a' * Pow2(b')) < Pow2(64)
  {
    WordOf(b);
    WordOf(b');
    CongruentScaled(a, a', Pow2(b), Pow2(64));
    WordReduces(a * Pow2(b), a' * Pow2(b'));
  }

  lemma {:induction false} Pow2Vanishes(a: int, b: nat)
    requires b >= 64
    ensures Congruent(a * Pow2(b), 0, Pow2(64))
    decreases b
  {
    if b == 64 {
      CongruentBy(a * Pow2(64), 0, Pow2(64), a);
    } else {
      Pow2Vanishes(a, b - 1);
      CongruentScaled(a * Pow2(b - 1), 0, 2, Pow2(64));
      assert a * Pow2(b) == (a * Pow2(b - 1)) * 2;
    }
  }

  /** A non-negative left shift agrees with the word shift exactly when its count is below 2^64 or the
      word shift, by the count modulo 2^64, shifts everything out. */
  lemma {:induction false} ShiftAgreesExactly(a: int, a': nat, b: nat, b': nat)
    requires Congruent(a, a', Pow2(64)) && Congruent(b, b', Pow2(64)) && b' < Pow2(64)
    ensures Congruent(a * Pow2(b), Word(a' * Pow2(b')), Pow2(64)) <==> b < Pow2(64) || Word(a' * Pow2(b')) == 0
  {
    if b < Pow2(64) {
      WordShift(a, a', b, b');
    } else {
      Pow2Vanishes(a, b);
      WordReduces(a' * Pow2(b'), a' * Pow2(b'));
      WordOf(Word(a' * Pow2(b')));
      WordOf(0);
    }
  }

  /** `1 << 2^64` is 0 modulo 2^64, while the word shift by 0 gives 1. These are numbers only: Python
      has no memory for the exact one; for `0 << 2^64` both are 0. */
  lemma {:induction false} HugeShiftDiffers()
    ensures !Congruent(1 * Pow2(Pow2(64)), Word(1 * Pow2(0)), Pow2(64))
  {
    WordOf(0);
    WordOf(1);
    ModCongruent(Pow2(64), Pow2(64));
    CongruentBy(Pow2(64), 0, Pow2(64), 1);
    ShiftAgreesExactly(1, 1, Pow2(64), 0);
  }

  /** The exact value exists and is the word value modulo 2^64. */
  ghost predicate WordAgrees(t: Tree, env: map<string, int>)
    requires WordExpression(t, env)
  {
    && Eval(t, env).Value? && Congruent(Eval(t, env).value, WordValue(t, env), Pow2(64))
    && WordValue(t, env) < Pow2(64)
  }

  lemma {:induction false} UnaryAgrees(t: Tree, env: map<string, int>)
    requires t.Unary? && WordExpression(t, env) && WordAgrees(t.operand, env)
    ensures WordAgrees(t, env)
  {
    var v, w := Eval(t.operand, env).value, WordValue(t.operand, env);
    WordUnary(t.op, v, w);
    WordReduces(UnaryValue(t.op, v).value, UnaryValue(t.op, w).value);
    assert WordValue(t, env) == Word(UnaryValue(t.op, w).value);
  }

  lemma {:induction false} BinaryAgrees(t: Tree, env: map<string, int>)
    requires t.Binary? && WordExpression(t, env) && WordAgrees(t.left, env) && WordAgrees(t.right, env)
    ensures WordAgrees(t, env)
  {
    var a, b := Eval(t.left, env).value, Eval(t.right, env).value;
    var a', b' := WordValue(t.left, env), WordValue(t.right, env);
    if t.op.ShiftLeft? {
      WordShift(a, a', b, b');
    } else {
      WordBinary(t.op, a, b, a', b');
      WordReduces(BinaryValue(t.op, a, b).value, BinaryValue(t.op, a', b').value);
      assert WordValue(t, env) == Word(BinaryValue(t.op, a', b').value);
    }
  }

  /** Exact evaluation and word evaluation agree modulo 2^64. */
  lemma {:induction false} WordHomomorphism(t: Tree, env: map<string, int>)
    requires WordExpression(t, env)
    ensures Eval(t, env).Value? && Congruent(Eval(t, env).value, WordValue(t, env), Pow2(64))
    ensures WordValue(t, env) < Pow2(64)
  {
    match t {
      case Literal(v) => WordReduces(v, v);
      case Reference(x) => WordReduces(env[x], env[x]);
      case Group(inner) => WordHomomorphism(inner, env);
      case Unary(_, operand) =>
        WordHomomorphism(operand, env);
        UnaryAgrees(t, env);
      case Binary(_, left, right) =>
        WordHomomorphism(left, env);
        WordHomomorphism(right, env);
        BinaryAgrees(t, env);
    }
  }

  /** The last step of the evaluation: a negative result with an unsigned literal is wrapped. */
  function Finish(v: int, unsigned: bool): int {
    if unsigned && v < 0 then v % Pow2(64) else v
  }

  /** With an unsigned literal the result is non-negative, congruent to C's word value, and equal to
      it exactly when the exact value stays below 2^64. */
  lemma {:induction false} UnsignedResult(t: Tree, env: map<string, int>)
    requires WordExpression(t, env)
    ensures Eval(t, env).Value?
    ensures var v := Eval(t, env).value;
      && Finish(v, true) >= 0
      && Congruent(Finish(v, true), WordValue(t, env), Pow2(64))
      && (Finish(v, true) == WordValue(t, env) <==> v < Pow2(64))
  {
    WordHomomorphism(t, env);
    var v, w := Eval(t, env).value, WordValue(t, env);
    ModCongruent(v, Pow2(64));
    WordOf(w);
    if 0 <= v < Pow2(64) {
      WordOf(v);
    }
  }
}
