/** The expression grammar of Python for the tokens that macro bodies may use, as token lists, parse
    trees and a precedence parser. It is the grammar of C (section 6.5 of ISO/IEC 9899:2011) for these
    operators, and C has calls with at most one argument too; `( )` and a starred argument are
    expressions in Python only. */
module MacroParser {
  import opened Options

  datatype Operator =
    | Or | Xor | And | ShiftLeft | ShiftRight | Plus | Minus | Times | Slash | Percent | Tilde

  datatype Token =
    | Symbol(op: Operator)
    | Open
    | Close
    | Number(value: nat)
    | Name(id: string)

  datatype Tree =
    | Literal(value: nat)
    | Reference(id: string)
    | Unary(op: Operator, operand: Tree)
    | Binary(op: Operator, left: Tree, right: Tree)
    | Group(inner: Tree)
    | Unit
    | CallEmpty(callee: Tree)
    | Call(callee: Tree, starred: bool, argument: Tree)

  const LOOSEST := 1
  const PREFIX := 7
  const POSTFIX := 8
  const ATOM := 9

  /** The binding strength of a binary operator; 0 for `~`, which is never binary. */
  function Strength(op: Operator): (k: nat)
    ensures k < PREFIX
  {
    match op
    case Or => 1
    case Xor => 2
    case And => 3
    case ShiftLeft | ShiftRight => 4
    case Plus | Minus => 5
    case Times | Slash | Percent => 6
    case Tilde => 0
  }

  predicate IsPrefix(op: Operator) {
    op.Plus? || op.Minus? || op.Tilde?
  }

  function Level(t: Tree): nat {
    match t
    case Binary(op, _, _) => Strength(op)
    case Unary(_, _) => PREFIX
    case CallEmpty(_) => POSTFIX
    case Call(_, _, _) => POSTFIX
    case _ => ATOM
  }

  /** The trees of the grammar: binary operators associate to the left, looser ones need a group. */
  predicate Grammatical(t: Tree) {
    match t
    case Literal(_) => true
    case Reference(_) => true
    case Unit => true
    case Group(inner) => Grammatical(inner)
    case CallEmpty(callee) => Grammatical(callee) && Level(callee) >= POSTFIX
    case Call(callee, _, argument) => Grammatical(callee) && Level(callee) >= POSTFIX && Grammatical(argument)
    case Unary(op, operand) => IsPrefix(op) && Grammatical(operand) && Level(operand) >= PREFIX
    case Binary(op, left, right) =>
      && Strength(op) >= LOOSEST
      && Grammatical(left) && Level(left) >= Strength(op)
      && Grammatical(right) && Level(right) > Strength(op)
  }

  function Flatten(t: Tree): (tokens: seq<Token>)
    ensures tokens != []
  {
    match t
    case Literal(v) => [Number(v)]
    case Reference(x) => [Name(x)]
    case Unit => [Open, Close]
    case Group(inner) => [Open] + Flatten(inner) + [Close]
    case CallEmpty(callee) => Flatten(callee) + [Open, Close]
    case Call(callee, starred, argument) => Flatten(callee) + Opening(starred) + Flatten(argument) + [Close]
    case Unary(op, operand) => [Symbol(op)] + Flatten(operand)
    case Binary(op, left, right) => Flatten(left) + [Symbol(op)] + Flatten(right)
  }

  function Opening(starred: bool): seq<Token> {
    if starred then [Open, Symbol(Times)] else [Open]
  }

  // ---- the parser ----

  datatype Parsed = NoParse | Parsed(tree: Tree, rest: seq<Token>)

  /** Reads the longest expression whose operators bind at least as strongly as `k`. */
  function ParseLevel(k: nat, tokens: seq<Token>): (r: Parsed)
    requires LOOSEST <= k <= ATOM
    ensures r.Parsed? ==> |r.rest| < |tokens|
    decreases |tokens|, ATOM - k, 1
  {
    if k < PREFIX then
      match ParseLevel(k + 1, tokens)
      case NoParse => NoParse
      case Parsed(left, rest) => ParseTail(k, left, rest)
    else if tokens == [] then NoParse
    else if k == PREFIX && tokens[0].Symbol? && IsPrefix(tokens[0].op) then
      match ParseLevel(PREFIX, tokens[1..])
      case NoParse => NoParse
      case Parsed(operand, rest) => Parsed(Unary(tokens[0].op, operand), rest)
    else if k == PREFIX then ParseLevel(POSTFIX, tokens)
    else if k == POSTFIX then
      match ParseLevel(ATOM, tokens)
      case NoParse => NoParse
      case Parsed(callee, rest) => ParseCalls(callee, rest)
    else
      match tokens[0]
      case Number(v) => Parsed(Literal(v), tokens[1..])
      case Name(x) => Parsed(Reference(x), tokens[1..])
      case Open =>
        if ClosesAt(tokens, 1) then Parsed(Unit, tokens[2..])
        else
          (match ParseLevel(LOOSEST, tokens[1..])
           case NoParse => NoParse
           case Parsed(inner, rest) => if ClosesAt(rest, 0) then Parsed(Group(inner), rest[1..]) else NoParse)
      case _ => NoParse
  }

  /** Extends `left` by further operators of strength `k`. */
  function ParseTail(k: nat, left: Tree, tokens: seq<Token>): (r: Parsed)
    requires LOOSEST <= k < PREFIX
    ensures r.Parsed? ==> |r.rest| <= |tokens|
    decreases |tokens|, ATOM - k, 0
  {
    if tokens != [] && tokens[0].Symbol? && Strength(tokens[0].op) == k then
      match ParseLevel(k + 1, tokens[1..])
      case NoParse => NoParse
      case Parsed(right, rest) => ParseTail(k, Binary(tokens[0].op, left, right), rest)
    else Parsed(left, tokens)
  }

  predicate ClosesAt(tokens: seq<Token>, i: nat) {
    i < |tokens| && tokens[i].Close?
  }

  predicate IsStarred(tokens: seq<Token>) {
    |tokens| > 1 && tokens[1] == Symbol(Times)
  }

  /** Extends `callee` by further calls. */
  function ParseCalls(callee: Tree, tokens: seq<Token>): (r: Parsed)
    ensures r.Parsed? ==> |r.rest| <= |tokens|
    decreases |tokens|, 0, 0
  {
    if tokens == [] || !tokens[0].Open? then Parsed(callee, tokens)
    else if ClosesAt(tokens, 1) then ParseCalls(CallEmpty(callee), tokens[2..])
    else
      match ParseLevel(LOOSEST, tokens[|Opening(IsStarred(tokens))|..])
      case NoParse => NoParse
      case Parsed(argument, rest) =>
        if ClosesAt(rest, 0) then ParseCalls(Call(callee, IsStarred(tokens), argument), rest[1..]) else NoParse
  }

  function Parse(tokens: seq<Token>): Option<Tree> {
    var r := ParseLevel(LOOSEST, tokens);
    if r.Parsed? && r.rest == [] then Some(r.tree) else None
  }

  // ---- exactness ----

  lemma {:induction false} Associate(a: seq<Token>, b: seq<Token>, c: seq<Token>, d: seq<Token>)
    ensures a + b + c + d == a + b + (c + d) == a + (b + (c + d))
  {
  }

  lemma {:induction false} TailOf(x: Token, a: seq<Token>, b: seq<Token>)
    ensures ([x] + a + b)[0] == x && ([x] + a + b)[1..] == a + b
  {
  }

  lemma {:induction false} LevelSound(k: nat, tokens: seq<Token>)
    requires LOOSEST <= k <= ATOM && ParseLevel(k, tokens).Parsed?
    ensures var r := ParseLevel(k, tokens);
      Grammatical(r.tree) && Level(r.tree) >= k && tokens == Flatten(r.tree) + r.rest
    decreases |tokens|, ATOM - k, 1
  {
    var r := ParseLevel(k, tokens);
    if k < PREFIX {
      LevelSound(k + 1, tokens);
      var p := ParseLevel(k + 1, tokens);
      TailSound(k, p.tree, p.rest);
    } else if k == PREFIX && tokens[0].Symbol? && IsPrefix(tokens[0].op) {
      LevelSound(PREFIX, tokens[1..]);
    } else if k == PREFIX {
      LevelSound(POSTFIX, tokens);
    } else if k == POSTFIX {
      LevelSound(ATOM, tokens);
      var p := ParseLevel(ATOM, tokens);
      CallsSound(p.tree, p.rest);
    } else if tokens[0].Open? && !ClosesAt(tokens, 1) {
      LevelSound(LOOSEST, tokens[1..]);
      var p := ParseLevel(LOOSEST, tokens[1..]);
      assert tokens == [Open] + (Flatten(p.tree) + ([Close] + p.rest[1..]));
    }
  }

  lemma {:induction false} CallsSound(callee: Tree, tokens: seq<Token>)
    requires Grammatical(callee) && Level(callee) >= POSTFIX && ParseCalls(callee, tokens).Parsed?
    ensures var r := ParseCalls(callee, tokens);
      Grammatical(r.tree) && Level(r.tree) >= POSTFIX && Flatten(callee) + tokens == Flatten(r.tree) + r.rest
    decreases |tokens|, 0, 0
  {
    if tokens != [] && tokens[0].Open? {
      if ClosesAt(tokens, 1) {
        CallEmptySound(callee, tokens);
        CallsSound(CallEmpty(callee), tokens[2..]);
      } else {
        var inner := tokens[|Opening(IsStarred(tokens))|..];
        LevelSound(LOOSEST, inner);
        var p := ParseLevel(LOOSEST, inner);
        CallSound(callee, tokens, p.tree, p.rest);
        CallsSound(Call(callee, IsStarred(tokens), p.tree), p.rest[1..]);
      }
    }
  }

  lemma {:induction false} CallEmptySound(callee: Tree, tokens: seq<Token>)
    requires tokens != [] && tokens[0].Open? && ClosesAt(tokens, 1)
    ensures Flatten(callee) + tokens == Flatten(CallEmpty(callee)) + tokens[2..]
  {
    assert tokens == [Open, Close] + tokens[2..];
  }

  lemma {:induction false} CallSound(callee: Tree, tokens: seq<Token>, argument: Tree, rest: seq<Token>)
    requires tokens != [] && tokens[0].Open? && ClosesAt(rest, 0)
    requires tokens[|Opening(IsStarred(tokens))|..] == Flatten(argument) + rest
    ensures Flatten(callee) + tokens == Flatten(Call(callee, IsStarred(tokens), argument)) + rest[1..]
  {
    CallTokens(callee, IsStarred(tokens), argument, rest[1..]);
    assert rest == [Close] + rest[1..];
    assert tokens == Opening(IsStarred(tokens)) + tokens[|Opening(IsStarred(tokens))|..];
  }

  lemma {:induction false} TailSound(k: nat, left: Tree, tokens: seq<Token>)
    requires LOOSEST <= k < PREFIX && ParseTail(k, left, tokens).Parsed?
    requires Grammatical(left) && Level(left) >= k
    ensures var r := ParseTail(k, left, tokens);
      Grammatical(r.tree) && Level(r.tree) >= k && Flatten(left) + tokens == Flatten(r.tree) + r.rest
    decreases |tokens|, ATOM - k, 0
  {
    if tokens != [] && tokens[0].Symbol? && Strength(tokens[0].op) == k {
      LevelSound(k + 1, tokens[1..]);
      var p := ParseLevel(k + 1, tokens[1..]);
      var next := Binary(tokens[0].op, left, p.tree);
      BinarySound(left, tokens, p.tree, p.rest);
      TailSound(k, next, p.rest);
    }
  }

  lemma {:induction false} BinarySound(left: Tree, tokens: seq<Token>, right: Tree, rest: seq<Token>)
    requires tokens != [] && tokens[0].Symbol? && tokens[1..] == Flatten(right) + rest
    ensures Flatten(left) + tokens == Flatten(Binary(tokens[0].op, left, right)) + rest
  {
    assert tokens == [tokens[0]] + tokens[1..];
    Associate(Flatten(left), [tokens[0]], Flatten(right), rest);
  }

  /** What follows is no operator of strength `k` or more, and no call unless `k` is that of atoms. */
  predicate Stops(k: nat, tokens: seq<Token>) {
    tokens != [] ==> (tokens[0].Symbol? ==> Strength(tokens[0].op) < k) && (tokens[0].Open? ==> k == ATOM)
  }

  /** No expression starts with a closing parenthesis or an operator that is never a sign. */
  lemma {:induction false} StartsAnExpression(t: Tree)
    requires Grammatical(t)
    ensures !Flatten(t)[0].Close? && (Flatten(t)[0].Symbol? ==> IsPrefix(Flatten(t)[0].op))
  {
    match t {
      case Binary(_, left, _) => StartsAnExpression(left);
      case CallEmpty(callee) => StartsAnExpression(callee);
      case Call(callee, _, _) => StartsAnExpression(callee);
      case _ =>
    }
  }

  lemma {:induction false} LevelComplete(k: nat, t: Tree, rest: seq<Token>)
    requires LOOSEST <= k <= ATOM && Grammatical(t) && Level(t) >= k && Stops(k, rest)
    ensures ParseLevel(k, Flatten(t) + rest) == Parsed(t, rest)
    decreases t, ATOM - k, 1
  {
    var tokens := Flatten(t) + rest;
    if k < PREFIX {
      TailComplete(k, t, rest);
    } else if t.Unary? {
      LevelComplete(PREFIX, t.operand, rest);
      assert tokens[1..] == Flatten(t.operand) + rest;
    } else if k == PREFIX {
      StartsAnExpression(t);
      AtomStart(t);
      LevelComplete(POSTFIX, t, rest);
      assert tokens[0] == Flatten(t)[0];
    } else if k == POSTFIX {
      CallsComplete(t, rest);
    } else if t.Group? {
      LevelComplete(LOOSEST, t.inner, [Close] + rest);
      GroupStep(t.inner, rest);
    } else if t.Unit? {
      assert tokens[2..] == rest;
    } else {
      assert tokens[1..] == rest;
    }
  }

  lemma {:induction false} GroupStep(inner: Tree, rest: seq<Token>)
    requires Grammatical(inner)
    requires ParseLevel(LOOSEST, Flatten(inner) + ([Close] + rest)) == Parsed(inner, [Close] + rest)
    ensures ParseLevel(ATOM, Flatten(Group(inner)) + rest) == Parsed(Group(inner), rest)
  {
    var tokens := Flatten(Group(inner)) + rest;
    StartsAnExpression(inner);
    assert tokens[0] == Open && tokens[1] == Flatten(inner)[0];
    assert tokens[1..] == Flatten(inner) + ([Close] + rest);
    assert ([Close] + rest)[1..] == rest;
  }

  lemma {:induction false} AtomStart(t: Tree)
    requires Grammatical(t) && Level(t) >= POSTFIX
    ensures !Flatten(t)[0].Symbol?
  {
    match t {
      case CallEmpty(callee) => AtomStart(callee);
      case Call(callee, _, _) => AtomStart(callee);
      case _ =>
    }
  }

  lemma {:induction false} CallsComplete(t: Tree, rest: seq<Token>)
    requires Grammatical(t) && Level(t) >= POSTFIX
    ensures ParseLevel(POSTFIX, Flatten(t) + rest) == ParseCalls(t, rest)
    decreases t, 0, 2
  {
    if t.CallEmpty? {
      CallsComplete(t.callee, [Open, Close] + rest);
      EmptyCallStep(t.callee, rest);
    } else if t.Call? {
      CallsComplete(t.callee, Opening(t.starred) + (Flatten(t.argument) + ([Close] + rest)));
      LevelComplete(LOOSEST, t.argument, [Close] + rest);
      CallTokens(t.callee, t.starred, t.argument, rest);
      CallStep(t.callee, t.starred, t.argument, rest);
    } else {
      LevelComplete(ATOM, t, rest);
    }
  }

  /** One turn: a call without an argument. */
  lemma {:induction false} EmptyCallStep(callee: Tree, rest: seq<Token>)
    ensures Flatten(CallEmpty(callee)) + rest == Flatten(callee) + ([Open, Close] + rest)
    ensures ParseCalls(callee, [Open, Close] + rest) == ParseCalls(CallEmpty(callee), rest)
  {
    assert ([Open, Close] + rest)[2..] == rest;
  }

  lemma {:induction false} CallTokens(callee: Tree, starred: bool, argument: Tree, rest: seq<Token>)
    ensures Flatten(Call(callee, starred, argument)) + rest
         == Flatten(callee) + (Opening(starred) + (Flatten(argument) + ([Close] + rest)))
  {
    var head := Flatten(callee) + Opening(starred);
    Associate(head, Flatten(argument), [Close], rest);
    Associate(Flatten(callee), Opening(starred), Flatten(argument), [Close] + rest);
  }

  /** What is behind the opening of a call. */
  lemma {:induction false} OpeningTaken(starred: bool, inner: seq<Token>)
    requires inner != [] && !inner[0].Close? && inner[0] != Symbol(Times)
    ensures var more := Opening(starred) + inner;
      && more[0].Open? && !ClosesAt(more, 1) && IsStarred(more) == starred
      && more[|Opening(IsStarred(more))|..] == inner
  {
    var more := Opening(starred) + inner;
    assert more[1] == if starred then Symbol(Times) else inner[0];
  }

  /** One turn: a call with an argument. */
  lemma {:induction false} CallStep(callee: Tree, starred: bool, argument: Tree, rest: seq<Token>)
    requires Grammatical(argument)
    requires ParseLevel(LOOSEST, Flatten(argument) + ([Close] + rest)) == Parsed(argument, [Close] + rest)
    ensures ParseCalls(callee, Opening(starred) + (Flatten(argument) + ([Close] + rest)))
         == ParseCalls(Call(callee, starred, argument), rest)
  {
    var inner := Flatten(argument) + ([Close] + rest);
    StartsAnExpression(argument);
    assert inner[0] == Flatten(argument)[0];
    OpeningTaken(starred, inner);
    assert ([Close] + rest)[1..] == rest;
  }

  lemma {:induction false} TailComplete(k: nat, t: Tree, rest: seq<Token>)
    requires LOOSEST <= k < PREFIX && Grammatical(t) && Level(t) >= k && Stops(k + 1, rest)
    ensures ParseLevel(k, Flatten(t) + rest) == ParseTail(k, t, rest)
    decreases t, ATOM - k, 0
  {
    if Level(t) > k {
      LevelComplete(k + 1, t, rest);
    } else {
      var more := [Symbol(t.op)] + Flatten(t.right) + rest;
      assert Flatten(t) + rest == Flatten(t.left) + more;
      TailComplete(k, t.left, more);
      LevelComplete(k + 1, t.right, rest);
      TailStep(k, t.left, t.op, t.right, rest);
    }
  }

  /** One turn of the tail: an operator and its right operand. */
  lemma {:induction false} TailStep(k: nat, left: Tree, op: Operator, right: Tree, rest: seq<Token>)
    requires LOOSEST <= k < PREFIX && Strength(op) == k
    requires ParseLevel(k + 1, Flatten(right) + rest) == Parsed(right, rest)
    ensures ParseTail(k, left, [Symbol(op)] + Flatten(right) + rest) == ParseTail(k, Binary(op, left, right), rest)
  {
    TailOf(Symbol(op), Flatten(right), rest);
  }

  /** The parser accepts exactly the token lists of grammatical trees, each with its one tree. */
  lemma {:induction false} ParseExact(tokens: seq<Token>, t: Tree)
    ensures Parse(tokens) == Some(t) <==> Grammatical(t) && Flatten(t) == tokens
  {
    if Parse(tokens) == Some(t) {
      LevelSound(LOOSEST, tokens);
      assert Flatten(t) + [] == Flatten(t);
    }
    if Grammatical(t) && Flatten(t) == tokens {
      assert Level(t) >= LOOSEST;
      LevelComplete(LOOSEST, t, []);
      assert Flatten(t) + [] == tokens;
    }
  }

  // ---- precedence ----

  /** The binary operators from the loosest row to the tightest (sections 6.5.5 to 6.5.12 of
      ISO/IEC 9899:2011). */
  const ROWS: seq<set<Operator>> :=
    [{Or}, {Xor}, {And}, {ShiftLeft, ShiftRight}, {Plus, Minus}, {Times, Slash, Percent}]

  lemma {:induction false} RowIsStrength(op: Operator, i: nat)
    requires i < |ROWS|
    ensures op in ROWS[i] <==> Strength(op) == i + 1
  {
  }

  lemma {:induction false} NumberIsAtom(n: nat)
    ensures Grammatical(Literal(n)) && Level(Literal(n)) == ATOM && Flatten(Literal(n)) == [Number(n)]
  {
  }

  /** Two operands and an operator. */
  lemma {:induction false} PairGrammatical(op: Operator, left: Tree, right: Tree)
    requires Strength(op) >= LOOSEST && Grammatical(left) && Grammatical(right)
    requires Level(left) >= Strength(op) && Level(right) > Strength(op)
    ensures var t := Binary(op, left, right);
      && Grammatical(t) && Level(t) == Strength(op)
      && Flatten(t) == Flatten(left) + [Symbol(op)] + Flatten(right)
  {
  }

  /** Of two operators in a row of operands the one of the tighter row goes first, and the left one of
      the same row; a sign goes before every operator. */
  lemma {:induction false} PrecedenceExact(op: Operator, i: nat, op': Operator, j: nat, a: nat, b: nat, c: nat)
    requires i < |ROWS| && j < |ROWS| && op in ROWS[i] && op' in ROWS[j]
    ensures Parse([Number(a), Symbol(op), Number(b), Symbol(op'), Number(c)]) ==
      Some(if i < j then Binary(op, Literal(a), Binary(op', Literal(b), Literal(c)))
           else Binary(op', Binary(op, Literal(a), Literal(b)), Literal(c)))
    ensures forall sign | sign in {Plus, Minus, Tilde} ::
      Parse([Symbol(sign), Number(a), Symbol(op), Number(b)]) == Some(Binary(op, Unary(sign, Literal(a)), Literal(b)))
  {
    RowIsStrength(op, i);
    RowIsStrength(op', j);
    NumberIsAtom(a);
    NumberIsAtom(b);
    NumberIsAtom(c);
    var tokens := [Number(a), Symbol(op), Number(b), Symbol(op'), Number(c)];
    if i < j {
      var right := Binary(op', Literal(b), Literal(c));
      PairGrammatical(op', Literal(b), Literal(c));
      PairGrammatical(op, Literal(a), right);
      ParseExact(tokens, Binary(op, Literal(a), right));
    } else {
      var left := Binary(op, Literal(a), Literal(b));
      PairGrammatical(op, Literal(a), Literal(b));
      PairGrammatical(op', left, Literal(c));
      ParseExact(tokens, Binary(op', left, Literal(c)));
    }
    forall sign | sign in {Plus, Minus, Tilde}
      ensures Parse([Symbol(sign), Number(a), Symbol(op), Number(b)])
           == Some(Binary(op, Unary(sign, Literal(a)), Literal(b)))
    {
      SignFirst(sign, op, a, b);
    }
  }

  lemma {:induction false} SignFirst(sign: Operator, op: Operator, a: nat, b: nat)
    requires sign in {Plus, Minus, Tilde} && Strength(op) >= LOOSEST
    ensures Parse([Symbol(sign), Number(a), Symbol(op), Number(b)])
         == Some(Binary(op, Unary(sign, Literal(a)), Literal(b)))
  {
    var left := Unary(sign, Literal(a));
    NumberIsAtom(a);
    NumberIsAtom(b);
    assert Level(left) == PREFIX && Grammatical(left) && Flatten(left) == [Symbol(sign), Number(a)];
    PairGrammatical(op, left, Literal(b));
    ParseExact([Symbol(sign), Number(a), Symbol(op), Number(b)], Binary(op, left, Literal(b)));
  }
}
