/** Finding and validating the (pointer, length) parameter pairs that a byte slice can replace
    (src/purego_gen/helper_rendering.py). */
module BufferPairs {
  import opened Text
  import opened Options
  import Decimal
  import Identifiers

  /** One C parameter; `ty` is the Go type the resolver gives it, `goType` the mapped basic type. */
  datatype Param = Param(name: string, cType: string, goType: string, ty: string)

  datatype Resolved = Resolved(rawName: string, name: string, ty: string, goType: string, cType: string)

  const QUALIFIERS := {"const", "volatile", "restrict"}
  const LENGTH_TYPES := {"int32", "uint32", "int64", "uint64", "uintptr"}

  function WithoutQualifiers(words: seq<string>): seq<string> {
    if words == [] then []
    else (if words[0] in QUALIFIERS then [] else [words[0]]) + WithoutQualifiers(words[1..])
  }

  predicate IsPointerType(cType: string) {
    Join(WithoutQualifiers(Words(cType)), " ") == "void *"
  }

  predicate AllQualifiers(words: seq<string>) {
    forall k :: 0 <= k < |words| ==> words[k] == "const" || words[k] == "volatile" || words[k] == "restrict"
  }

  /** `void` and then a star, with qualifiers before, between and behind. */
  ghost predicate IsVoidStar(words: seq<string>) {
    exists a, b, c :: AllQualifiers(a) && AllQualifiers(b) && AllQualifiers(c)
                   && words == a + ["void"] + b + ["*"] + c
  }

  lemma {:induction false} WithoutConcat(v: seq<string>, w: seq<string>)
    ensures WithoutQualifiers(v + w) == WithoutQualifiers(v) + WithoutQualifiers(w)
  {
    if v == [] {
      assert v + w == w;
    } else {
      assert (v + w)[0] == v[0] && (v + w)[1..] == v[1..] + w;
      WithoutConcat(v[1..], w);
    }
  }

  lemma {:induction false} NoneLeft(words: seq<string>)
    ensures WithoutQualifiers(words) == [] <==> AllQualifiers(words)
  {
    if words != [] {
      NoneLeft(words[1..]);
      assert forall k :: 1 <= k < |words| ==> words[k] == words[1..][k - 1];
    }
  }

  lemma {:induction false} FirstLeft(words: seq<string>) returns (a: seq<string>, rest: seq<string>)
    requires WithoutQualifiers(words) != []
    ensures AllQualifiers(a) && words == a + [WithoutQualifiers(words)[0]] + rest
    ensures WithoutQualifiers(rest) == WithoutQualifiers(words)[1..]
  {
    if words[0] in QUALIFIERS {
      a, rest := FirstLeft(words[1..]);
      assert words == [words[0]] + words[1..];
      a := [words[0]] + a;
    } else {
      a, rest := [], words[1..];
    }
  }

  /** The buffer types are the pointers to void. */
  lemma {:induction false} PointerTypeExact(cType: string)
    ensures IsPointerType(cType) <==> IsVoidStar(Words(cType))
  {
    var words := Words(cType);
    if IsPointerType(cType) {
      WordsAreWords(cType);
      LeftAreWords(words);
      JoinedVoidStar(WithoutQualifiers(words));
      VoidStarFound(words);
    }
    if IsVoidStar(words) {
      var a, b, c :| AllQualifiers(a) && AllQualifiers(b) && AllQualifiers(c) && words == a + ["void"] + b + ["*"] + c;
      VoidStarLeft(a, b, c);
      assert Join(["void", "*"], " ") == "void" + " " + Join(["void", "*"][1..], " ") == "void *";
    }
  }

  lemma {:induction false} VoidStarFound(words: seq<string>)
    requires WithoutQualifiers(words) == ["void", "*"]
    ensures IsVoidStar(words)
  {
    var a, rest := FirstLeft(words);
    assert WithoutQualifiers(rest) == ["*"];
    var b, c := FirstLeft(rest);
    NoneLeft(c);
    assert words == a + ["void"] + (b + ["*"] + c) == a + ["void"] + b + ["*"] + c;
  }

  lemma {:induction false} VoidStarLeft(a: seq<string>, b: seq<string>, c: seq<string>)
    requires AllQualifiers(a) && AllQualifiers(b) && AllQualifiers(c)
    ensures WithoutQualifiers(a + ["void"] + b + ["*"] + c) == ["void", "*"]
  {
    NoneLeft(a);
    NoneLeft(b);
    NoneLeft(c);
    WithoutConcat(a + ["void"] + b + ["*"], c);
    WithoutConcat(a + ["void"] + b, ["*"]);
    WithoutConcat(a + ["void"], b);
    WithoutConcat(a, ["void"]);
    assert ["void"][1..] == [] && ["*"][1..] == [];
  }

  lemma {:induction false} LeftAreWords(words: seq<string>)
    requires forall k :: 0 <= k < |words| ==> IsWord(words[k])
    ensures forall k :: 0 <= k < |WithoutQualifiers(words)| ==> IsWord(WithoutQualifiers(words)[k])
  {
    if words != [] {
      LeftAreWords(words[1..]);
    }
  }

  lemma {:induction false} JoinedVoidStar(words: seq<string>)
    requires (forall k :: 0 <= k < |words| ==> IsWord(words[k])) && Join(words, " ") == "void *"
    ensures words == ["void", "*"]
  {
    var joined := "void *";
    assert joined[4] == ' ';
    assert |words| > 1 by {
      if |words| == 1 {
        assert false;
      }
    }
    var first, rest := words[0], Join(words[1..], " ");
    assert joined == first + " " + rest;
    assert joined[|first|] == ' ' && |first| == 4;
    assert first == joined[..4] == "void" && rest == joined[5..] == "*";
    assert |words[1..]| == 1 by {
      if |words[1..]| > 1 {
        assert false;
      }
    }
    assert words == [words[0], words[1]];
  }

  // ---- detection ----

  predicate Eligible(params: seq<Param>, i: nat) {
    && i + 1 < |params|
    && IsPointerType(params[i].cType) && params[i].goType == "uintptr"
    && params[i + 1].goType in LENGTH_TYPES
  }

  /** Which positions start an eligible pair. */
  function EligibleFlags(params: seq<Param>): (flags: seq<bool>)
    ensures |flags| == |params|
    ensures forall i :: 0 <= i < |flags| ==> (flags[i] <==> Eligible(params, i))
  {
    seq(|params|, i requires 0 <= i < |params| => Eligible(params, i))
  }

  /** The positions of the pointers of the greedily chosen pairs, from position i on. */
  function PairPositions(flags: seq<bool>, i: nat): seq<nat>
    decreases |flags| - i
  {
    if i >= |flags| then []
    else if flags[i] then [i] + PairPositions(flags, i + 2)
    else PairPositions(flags, i + 1)
  }

  /** Positions from `from` on, in order, of pairs that do not overlap. */
  ghost predicate AreDisjointPairs(flags: seq<bool>, ps: seq<nat>, from: nat) {
    && (forall k {:trigger ps[k]} :: 0 <= k < |ps| ==> from <= ps[k] < |flags| && flags[ps[k]])
    && forall k, l :: 0 <= k < l < |ps| ==> ps[k] + 2 <= ps[l]
  }

  lemma {:induction false} GreedyPairsDisjoint(flags: seq<bool>, i: nat)
    ensures AreDisjointPairs(flags, PairPositions(flags, i), i)
    decreases |flags| - i
  {
    if i < |flags| {
      if flags[i] {
        GreedyPairsDisjoint(flags, i + 2);
      } else {
        GreedyPairsDisjoint(flags, i + 1);
      }
    }
  }

  /** From the left: a pair starts exactly where one may and none started just before. */
  lemma {:induction false} GreedyExact(flags: seq<bool>, i: nat, k: nat)
    requires i <= k < |flags|
    ensures k in PairPositions(flags, i) <==> flags[k] && (k == i || k - 1 !in PairPositions(flags, i))
    decreases |flags| - i
  {
    GreedyPairsDisjoint(flags, i);
    if flags[i] {
      GreedyPairsDisjoint(flags, i + 2);
      if k >= i + 2 {
        GreedyExact(flags, i + 2, k);
      }
    } else {
      GreedyPairsDisjoint(flags, i + 1);
      if k > i {
        GreedyExact(flags, i + 1, k);
      }
    }
  }

  function PairNames(params: seq<Param>, positions: seq<nat>): seq<(string, string)>
    requires forall k {:trigger positions[k]} :: 0 <= k < |positions| ==> positions[k] + 1 < |params|
  {
    seq(|positions|, k requires 0 <= k < |positions| =>
      (params[positions[k]].name, params[positions[k] + 1].name))
  }

  function DetectedPositions(params: seq<Param>): (ps: seq<nat>)
    ensures AreDisjointPairs(EligibleFlags(params), ps, 0)
    ensures forall k {:trigger ps[k]} :: 0 <= k < |ps| ==> ps[k] + 1 < |params|
  {
    GreedyPairsDisjoint(EligibleFlags(params), 0);
    PairPositions(EligibleFlags(params), 0)
  }

  function DetectedPairs(params: seq<Param>): seq<(string, string)> {
    PairNames(params, DetectedPositions(params))
  }

  /** `_detect_buffer_pairs` */
  method DetectBufferPairs(params: seq<Param>) returns (pairs: seq<(string, string)>)
    ensures pairs == DetectedPairs(params)
  {
    pairs := [];
    var i := 0;
    ghost var flags := EligibleFlags(params);
    ghost var done: seq<nat> := [];
    while i < |params| - 1
      invariant 0 <= i <= |params|
      invariant PairPositions(flags, 0) == done + PairPositions(flags, i)
      invariant forall k {:trigger done[k]} :: 0 <= k < |done| ==> done[k] + 1 < |params|
      invariant pairs == PairNames(params, done)
    {
      assert flags[i] <==> Eligible(params, i);
      if IsPointerType(params[i].cType) && params[i].goType == "uintptr" && params[i + 1].goType in LENGTH_TYPES {
        pairs := pairs + [(params[i].name, params[i + 1].name)];
        done := done + [i];
        i := i + 2;
      } else {
        i := i + 1;
      }
    }
    assert i < |params| ==> !flags[i];
    assert done == PairPositions(flags, 0);
  }

  /** A choice of disjoint eligible adjacent pairs, by the positions of their pointers. */
  ghost predicate IsPairing(flags: seq<bool>, m: set<nat>) {
    forall i :: i in m ==> i < |flags| && flags[i] && i + 1 !in m
  }

  /** Of the first two positions at most one is chosen; the others start at i + 2. */
  lemma {:induction false} PairingStep(flags: seq<bool>, i: nat, m: set<nat>) returns (rest: set<nat>)
    requires IsPairing(flags, m) && forall j :: j in m ==> i <= j
    ensures IsPairing(flags, rest) && (forall j :: j in rest ==> i + 2 <= j) && |m| <= |rest| + 1
  {
    var start := if i + 1 in m then i + 1 else i;
    rest := m - {start};
    SubsetSize(m, rest + {start});
  }

  /** Greedy is optimal: no choice of disjoint eligible pairs has more pairs. */
  lemma {:induction false} GreedyIsMaximal(flags: seq<bool>, i: nat, m: set<nat>)
    requires IsPairing(flags, m) && forall j :: j in m ==> i <= j
    ensures |m| <= |PairPositions(flags, i)|
    decreases |flags| - i
  {
    if i >= |flags| {
      assert m == {};
    } else if flags[i] {
      var rest := PairingStep(flags, i, m);
      GreedyIsMaximal(flags, i + 2, rest);
    } else {
      GreedyIsMaximal(flags, i + 1, m);
    }
  }

  lemma {:induction false} SubsetSize(a: set<nat>, b: set<nat>)
    requires a <= b
    ensures |a| <= |b|
  {
    if a != {} {
      var x :| x in a;
      SubsetSize(a - {x}, b - {x});
    }
  }

  /** The detected pairs are adjacent, disjoint, in order, and as many as any such choice has. */
  lemma {:induction false} DetectionIsOptimal(params: seq<Param>, m: set<nat>)
    requires IsPairing(EligibleFlags(params), m)
    ensures |m| <= |DetectedPairs(params)|
    ensures var ps := DetectedPositions(params);
      IsPairing(EligibleFlags(params), set k | 0 <= k < |ps| :: ps[k]) && |ps| == |DetectedPairs(params)|
  {
    GreedyIsMaximal(EligibleFlags(params), 0, m);
    var ps := DetectedPositions(params);
    forall k, l | 0 <= k < |ps| && 0 <= l < |ps|
      ensures ps[k] + 1 != ps[l]
    {
      if k < l {
        assert ps[k] + 2 <= ps[l];
      } else if l < k {
        assert ps[l] + 2 <= ps[k];
      }
    }
  }

  /** A pair starts at a pointer to void that is an address in Go, before an integer of 32 or 64 bits or
      another address. */
  lemma {:induction false} EligibleExact(params: seq<Param>, i: nat)
    ensures i < |params| && EligibleFlags(params)[i] <==>
      && i + 1 < |params| && IsVoidStar(Words(params[i].cType)) && params[i].goType == "uintptr"
      && (params[i + 1].goType == "int32" || params[i + 1].goType == "uint32" || params[i + 1].goType == "int64"
          || params[i + 1].goType == "uint64" || params[i + 1].goType == "uintptr")
  {
    if i < |params| {
      PointerTypeExact(params[i].cType);
    }
  }

  // ---- resolved parameters ----

  /** `sanitize_function_parameter_name` */
  function SanitizeParameterName(raw: string, index: nat): string {
    var substituted := Identifiers.Substitute(raw);
    var name :=
      if substituted == "" || substituted == "_" || !IsIdentifier(substituted)
      then "arg" + Decimal.Format(index) else substituted;
    if Identifiers.IsGoKeyword(name) then name + "_" else name
  }

  function ParameterNames(params: seq<Param>): (names: seq<string>)
    ensures |names| == |params|
  {
    if params == [] then []
    else
      var n := |params| - 1;
      var earlier := ParameterNames(params[..n]);
      earlier + [Identifiers.Allocate(SanitizeParameterName(params[n].name, n + 1), Identifiers.NamesOf(earlier))]
  }

  function Resolve(params: seq<Param>): (resolved: seq<Resolved>)
    ensures |resolved| == |params|
    ensures forall i :: 0 <= i < |params| ==>
      && resolved[i].ty == params[i].ty && resolved[i].goType == params[i].goType
      && resolved[i].cType == params[i].cType
      && (params[i].name != "" ==> resolved[i].rawName == params[i].name)
  {
    var names := ParameterNames(params);
    seq(|params|, i requires 0 <= i < |params| =>
      Resolved(if params[i].name == "" then names[i] else params[i].name,
               names[i], params[i].ty, params[i].goType, params[i].cType))
  }

  lemma {:induction false} ParameterNamesDistinct(params: seq<Param>)
    ensures forall i, j :: 0 <= i < j < |params| ==> ParameterNames(params)[i] != ParameterNames(params)[j]
    ensures forall i :: 0 <= i < |params| ==> ParameterNames(params)[i] != ""
  {
    if params != [] {
      var n := |params| - 1;
      ParameterNamesDistinct(params[..n]);
      var earlier := ParameterNames(params[..n]);
      forall i | 0 <= i < n ensures ParameterNames(params)[n] != ParameterNames(params)[i] {
        assert earlier[i] in Identifiers.NamesOf(earlier);
      }
    }
  }

  lemma {:induction false} ParameterNamesPrefix(params: seq<Param>, n: nat)
    requires n <= |params|
    ensures ParameterNames(params)[..n] == ParameterNames(params[..n])
  {
    if n < |params| {
      var init := params[..|params| - 1];
      ParameterNamesPrefix(init, n);
      assert init[..n] == params[..n];
    } else {
      assert params[..n] == params;
    }
  }

  lemma {:induction false} ParameterNameAt(params: seq<Param>, i: nat)
    requires i < |params|
    ensures var names := ParameterNames(params);
      names[i] == Identifiers.Allocate(SanitizeParameterName(params[i].name, i + 1), Identifiers.NamesOf(names[..i]))
  {
    ParameterNamesPrefix(params, i);
    ParameterNamesPrefix(params, i + 1);
    assert params[..i + 1][..i] == params[..i];
    assert ParameterNames(params)[i] == ParameterNames(params)[..i + 1][i];
  }

  /** The base of a parameter's name: the squeezed raw name if that is an identifier other than the
      blank one, with an underscore behind a keyword, and otherwise `arg` with the position. */
  ghost predicate IsParameterBase(raw: string, index: nat, base: string) {
    var squeezed := Identifiers.Squeezed(raw, false);
    if IsIdentifier(squeezed) && squeezed != "_" then Identifiers.IsNameOf(squeezed, "", base)
    else base == "arg" + Decimal.Format(index)
  }

  lemma {:induction false} ParameterNamesExact(params: seq<Param>, i: nat)
    requires i < |params|
    ensures var names := ParameterNames(params);
      exists base :: IsParameterBase(params[i].name, i + 1, base)
                  && Identifiers.IsLeastUnused(names[i], base, Identifiers.NamesOf(names[..i]))
  {
    var base := SanitizeParameterName(params[i].name, i + 1);
    ParameterNameAt(params, i);
    Identifiers.SubstituteExact(params[i].name);
    UnnamedBase(i + 1);
    assert IsParameterBase(params[i].name, i + 1, base);
    Identifiers.AllocateExact(base, Identifiers.NamesOf(ParameterNames(params)[..i]));
  }

  /** An unnamed parameter is called `arg<i>`, which is a usable name. */
  lemma {:induction false} UnnamedBase(index: nat)
    ensures SanitizeParameterName("", index) == "arg" + Decimal.Format(index)
    ensures IsIdentifier("arg" + Decimal.Format(index)) && !Identifiers.IsGoKeyword("arg" + Decimal.Format(index))
  {
    var name := "arg" + Decimal.Format(index);
    Decimal.ParseFormat(index);
    assert Decimal.IsDigit(name[3]);
    if Identifiers.IsGoKeyword(name) {
      Identifiers.KeywordEndings(name);
    }
  }

  predicate UsableName(name: string) {
    IsIdentifier(name) && !Identifiers.IsGoKeyword(name) && name != "_"
  }

  lemma {:induction false} SanitizedFixed(name: string, index: nat)
    requires UsableName(name)
    ensures SanitizeParameterName(name, index) == name
  {
    Identifiers.SubstituteIdentity(name);
  }

  /** A raw name that needs no sanitising is taken from its parameter on. */
  lemma {:induction false} UsableNameTaken(params: seq<Param>, i: nat, j: nat)
    requires i < j <= |params|
    requires UsableName(params[i].name)
    ensures params[i].name in ParameterNames(params)[..j]
  {
    var names := ParameterNames(params);
    ParameterNameAt(params, i);
    SanitizedFixed(params[i].name, i + 1);
    assert names[..i] <= names[..j] && names[..j][i] == names[i];
    if names[i] != params[i].name {
      assert params[i].name in names[..i];
    }
  }

  /** The name rendered for an unnamed parameter is no raw name of a parameter before it. */
  lemma {:induction false} UnnamedIsNew(params: seq<Param>, i: nat, j: nat)
    requires i < j < |params| && params[j].name == ""
    ensures ParameterNames(params)[j] != params[i].name
  {
    var name, earlier := ParameterNames(params)[j], Identifiers.NamesOf(ParameterNames(params)[..j]);
    ParameterNameAt(params, j);
    UnnamedBase(j + 1);
    Identifiers.AllocateIdentifier("arg" + Decimal.Format(j + 1), earlier);
    assert name[0] == 'a' && name !in earlier;
    if name == params[i].name {
      UsableNameTaken(params, i, j);
    }
  }

  /** C names the named parameters of a function differently. */
  ghost predicate NamedDiffer(params: seq<Param>) {
    forall i, j :: 0 <= i < j < |params| && params[i].name != "" ==> params[i].name != params[j].name
  }

  /** Different usable names are rendered as they are. */
  lemma {:induction false} UsableNamesKept(params: seq<Param>, i: nat)
    requires NamedDiffer(params) && i < |params|
    requires forall k {:trigger params[k]} :: 0 <= k <= i ==> UsableName(params[k].name)
    ensures Resolve(params)[i].name == params[i].name
  {
    var names := ParameterNames(params);
    ParameterNameAt(params, i);
    SanitizedFixed(params[i].name, i + 1);
    if params[i].name in Identifiers.NamesOf(names[..i]) {
      var k :| 0 <= k < i && names[k] == params[i].name;
      UsableNamesKept(params, k);
      assert false;
    }
  }

  lemma {:induction false} ResolvedNames(params: seq<Param>)
    ensures forall i, j :: 0 <= i < j < |params| ==> Resolve(params)[i].name != Resolve(params)[j].name
    ensures forall i :: 0 <= i < |params| ==> Resolve(params)[i].rawName != ""
  {
    ParameterNamesDistinct(params);
  }

  /** `{parameter.raw_name: parameter ...}`: the last of equal keys wins. */
  function ByRawName(resolved: seq<Resolved>): map<string, Resolved> {
    if resolved == [] then map[]
    else
      var last := resolved[|resolved| - 1];
      ByRawName(resolved[..|resolved| - 1])[last.rawName := last]
  }

  lemma {:induction false} ByRawNameExact(resolved: seq<Resolved>, name: string)
    ensures name in ByRawName(resolved) <==> exists i :: 0 <= i < |resolved| && resolved[i].rawName == name
  {
    if resolved != [] {
      var init := resolved[..|resolved| - 1];
      ByRawNameExact(init, name);
      forall i | 0 <= i < |init| ensures init[i] == resolved[i] {}
    }
  }

  lemma {:induction false} ByRawNameLast(resolved: seq<Resolved>, i: nat)
    requires i < |resolved|
    requires forall j :: i < j < |resolved| ==> resolved[j].rawName != resolved[i].rawName
    ensures resolved[i].rawName in ByRawName(resolved) && ByRawName(resolved)[resolved[i].rawName] == resolved[i]
  {
    var n := |resolved| - 1;
    if i < n {
      forall j | i < j < n ensures resolved[..n][j].rawName != resolved[i].rawName {}
      ByRawNameLast(resolved[..n], i);
    }
  }

  /** A named parameter is found by its name, whatever the unnamed ones are called. */
  lemma {:induction false} NamedFound(params: seq<Param>, i: nat)
    requires NamedDiffer(params) && i < |params| && params[i].name != ""
    ensures params[i].name in ByRawName(Resolve(params))
    ensures ByRawName(Resolve(params))[params[i].name] == Resolve(params)[i]
  {
    var resolved := Resolve(params);
    forall j | i < j < |params|
      ensures resolved[j].rawName != resolved[i].rawName
    {
      if params[j].name == "" {
        UnnamedIsNew(params, i, j);
      }
    }
    ByRawNameLast(resolved, i);
  }

  // ---- validation ----

  datatype Validation =
    | Valid
    | ParameterNotFound(name: string)
    | PointerConfiguredTwice(name: string)
    | NotAConstVoidPointer(name: string)
    | PointerNotUintptr(name: string)
    | UnsupportedLengthType(name: string)

  function ValidatePair(pair: (string, string), byRawName: map<string, Resolved>, seen: set<string>): Validation {
    if pair.0 !in byRawName then ParameterNotFound(pair.0)
    else if pair.1 !in byRawName then ParameterNotFound(pair.1)
    else
      var pointer, length := byRawName[pair.0], byRawName[pair.1];
      if pointer.rawName in seen then PointerConfiguredTwice(pair.0)
      else if !IsPointerType(pointer.cType) then NotAConstVoidPointer(pair.0)
      else if pointer.goType != "uintptr" then PointerNotUintptr(pair.0)
      else if length.goType !in LENGTH_TYPES then UnsupportedLengthType(pair.1)
      else Valid
  }

  function ValidatePairs(
    pairs: seq<(string, string)>, byRawName: map<string, Resolved>, seen: set<string>): Validation {
    if pairs == [] then Valid
    else
      var first := ValidatePair(pairs[0], byRawName, seen);
      if !first.Valid? then first
      else ValidatePairs(pairs[1..], byRawName, seen + {byRawName[pairs[0].0].rawName})
  }

  /** `_validate_buffer_helper_pairs` */
  method ValidateBufferHelperPairs(pairs: seq<(string, string)>, byRawName: map<string, Resolved>)
    returns (r: Validation)
    ensures r == ValidatePairs(pairs, byRawName, {})
  {
    var seenTargetedPointers: set<string> := {};
    for k := 0 to |pairs|
      invariant ValidatePairs(pairs[k..], byRawName, seenTargetedPointers) == ValidatePairs(pairs, byRawName, {})
    {
      assert pairs[k..][1..] == pairs[k + 1..];
      var verdict := ValidatePair(pairs[k], byRawName, seenTargetedPointers);
      if !verdict.Valid? {
        return verdict;
      }
      seenTargetedPointers := seenTargetedPointers + {byRawName[pairs[k].0].rawName};
    }
    return Valid;
  }

  /** The first thing wrong with a pair, when the pointers in `seen` were used by pairs before it. */
  ghost predicate IsVerdict(
    v: Validation, pair: (string, string), byRawName: map<string, Resolved>, seen: set<string>) {
    var found := pair.0 in byRawName && pair.1 in byRawName;
    match v
    case ParameterNotFound(name) =>
      name !in byRawName && (name == pair.0 || (pair.0 in byRawName && name == pair.1))
    case PointerConfiguredTwice(name) => found && name == pair.0 && byRawName[pair.0].rawName in seen
    case NotAConstVoidPointer(name) =>
      found && name == pair.0 && byRawName[pair.0].rawName !in seen && !IsVoidStar(Words(byRawName[pair.0].cType))
    case PointerNotUintptr(name) =>
      && found && name == pair.0 && byRawName[pair.0].rawName !in seen
      && IsVoidStar(Words(byRawName[pair.0].cType)) && byRawName[pair.0].goType != "uintptr"
    case UnsupportedLengthType(name) =>
      && found && name == pair.1 && byRawName[pair.0].rawName !in seen
      && IsVoidStar(Words(byRawName[pair.0].cType)) && byRawName[pair.0].goType == "uintptr"
      && byRawName[pair.1].goType !in LENGTH_TYPES
    case Valid =>
      && found && byRawName[pair.0].rawName !in seen
      && IsVoidStar(Words(byRawName[pair.0].cType)) && byRawName[pair.0].goType == "uintptr"
      && byRawName[pair.1].goType in LENGTH_TYPES
  }

  lemma {:induction false} VerdictExact(pair: (string, string), byRawName: map<string, Resolved>, seen: set<string>)
    ensures IsVerdict(ValidatePair(pair, byRawName, seen), pair, byRawName, seen)
  {
    if pair.0 in byRawName {
      PointerTypeExact(byRawName[pair.0].cType);
    }
  }

  /** The pointers that the first `n` pairs use. */
  ghost function PointersOf(pairs: seq<(string, string)>, n: nat, byRawName: map<string, Resolved>): set<string>
    requires n <= |pairs| && forall k :: 0 <= k < n ==> pairs[k].0 in byRawName
  {
    set k | 0 <= k < n :: byRawName[pairs[k].0].rawName
  }

  /** The first `n` pairs are valid, each after those before it. */
  ghost predicate ValidUpTo(
    pairs: seq<(string, string)>, n: nat, byRawName: map<string, Resolved>, seen: set<string>) {
    && n <= |pairs| && (forall k :: 0 <= k < n ==> pairs[k].0 in byRawName)
    && forall k :: 0 <= k < n ==> IsVerdict(Valid, pairs[k], byRawName, seen + PointersOf(pairs, k, byRawName))
  }

  lemma {:induction false} ValidFromFirst(
    pairs: seq<(string, string)>, m: nat, byRawName: map<string, Resolved>, seen: set<string>)
    requires pairs != [] && IsVerdict(Valid, pairs[0], byRawName, seen)
    requires ValidUpTo(pairs[1..], m, byRawName, seen + {byRawName[pairs[0].0].rawName})
    ensures ValidUpTo(pairs, m + 1, byRawName, seen)
    ensures seen + PointersOf(pairs, m + 1, byRawName)
         == seen + {byRawName[pairs[0].0].rawName} + PointersOf(pairs[1..], m, byRawName)
  {
    var rest, first := pairs[1..], byRawName[pairs[0].0].rawName;
    assert forall k :: 1 <= k < m + 1 ==> pairs[k] == rest[k - 1];
    PointersShift(pairs, m, byRawName);
    forall k | 0 <= k < m + 1
      ensures IsVerdict(Valid, pairs[k], byRawName, seen + PointersOf(pairs, k, byRawName))
    {
      if k == 0 {
        assert seen + PointersOf(pairs, 0, byRawName) == seen;
      } else {
        PointersShift(pairs, k - 1, byRawName);
        assert seen + PointersOf(pairs, k, byRawName) == (seen + {first}) + PointersOf(rest, k - 1, byRawName);
      }
    }
  }

  /** Validation goes by the first pair that is not valid after those before it. */
  lemma {:induction false} ValidationExact(
    pairs: seq<(string, string)>, byRawName: map<string, Resolved>, seen: set<string>) returns (n: nat)
    ensures ValidUpTo(pairs, n, byRawName, seen)
    ensures var v := ValidatePairs(pairs, byRawName, seen);
      if n == |pairs| then v == Valid
      else !v.Valid? && IsVerdict(v, pairs[n], byRawName, seen + PointersOf(pairs, n, byRawName))
  {
    n := 0;
    if pairs != [] {
      VerdictExact(pairs[0], byRawName, seen);
      assert seen + PointersOf(pairs, 0, byRawName) == seen;
      if ValidatePair(pairs[0], byRawName, seen).Valid? {
        var m := ValidationExact(pairs[1..], byRawName, seen + {byRawName[pairs[0].0].rawName});
        ValidFromFirst(pairs, m, byRawName, seen);
        n := m + 1;
      }
    }
  }

  lemma {:induction false} PointersShift(pairs: seq<(string, string)>, k: nat, byRawName: map<string, Resolved>)
    requires k < |pairs| && forall l :: 0 <= l < k + 1 ==> pairs[l].0 in byRawName
    ensures (forall l :: 0 <= l < k ==> pairs[1..][l].0 in byRawName)
    ensures PointersOf(pairs, k + 1, byRawName)
         == {byRawName[pairs[0].0].rawName} + PointersOf(pairs[1..], k, byRawName)
  {
    var rest := pairs[1..];
    forall l | 0 <= l < k ensures rest[l] == pairs[l + 1] {}
    forall name | name in PointersOf(rest, k, byRawName) ensures name in PointersOf(pairs, k + 1, byRawName) {
      var l :| 0 <= l < k && byRawName[rest[l].0].rawName == name;
      assert byRawName[pairs[l + 1].0].rawName == name;
    }
    forall name | name in PointersOf(pairs, k + 1, byRawName)
      ensures name in {byRawName[pairs[0].0].rawName} + PointersOf(rest, k, byRawName)
    {
      var l :| 0 <= l < k + 1 && byRawName[pairs[l].0].rawName == name;
      if l > 0 {
        assert byRawName[rest[l - 1].0].rawName == name;
      }
    }
    assert byRawName[pairs[0].0].rawName in PointersOf(pairs, k + 1, byRawName);
  }

  ghost predicate PairsNamed(params: seq<Param>) {
    forall k :: 0 <= k < |DetectedPairs(params)| ==>
      DetectedPairs(params)[k].0 != "" && DetectedPairs(params)[k].1 != ""
  }

  ghost predicate GoodPair(pair: (string, string), byRawName: map<string, Resolved>) {
    ValidatePair(pair, byRawName, {}) == Valid && byRawName[pair.0].rawName == pair.0
  }

  lemma {:induction false} DetectedPairGood(params: seq<Param>, k: nat)
    requires NamedDiffer(params) && PairsNamed(params) && k < |DetectedPairs(params)|
    ensures GoodPair(DetectedPairs(params)[k], ByRawName(Resolve(params)))
  {
    var pair, i := DetectedPairs(params)[k], DetectedPositions(params)[k];
    assert EligibleFlags(params)[i];
    assert Eligible(params, i) && pair == (params[i].name, params[i + 1].name);
    NamedFound(params, i);
    NamedFound(params, i + 1);
  }

  /** Good pairs with distinct pointers pass. */
  lemma {:induction false} GoodPairsValid(
    pairs: seq<(string, string)>, byRawName: map<string, Resolved>, seen: set<string>)
    requires forall k {:trigger pairs[k]} :: 0 <= k < |pairs| ==> GoodPair(pairs[k], byRawName) && pairs[k].0 !in seen
    requires forall k, l :: 0 <= k < l < |pairs| ==> pairs[k].0 != pairs[l].0
    ensures ValidatePairs(pairs, byRawName, seen) == Valid
  {
    if pairs != [] {
      var first, rest := pairs[0], pairs[1..];
      assert GoodPair(first, byRawName) && first.0 !in seen;
      forall k | 0 <= k < |rest| ensures GoodPair(rest[k], byRawName) && rest[k].0 !in seen + {first.0} {
        assert rest[k] == pairs[k + 1];
      }
      GoodPairsValid(rest, byRawName, seen + {first.0});
    }
  }

  lemma {:induction false} UnnamedPairFails(params: seq<Param>, pairs: seq<(string, string)>, seen: set<string>)
    requires exists k :: 0 <= k < |pairs| && (pairs[k].0 == "" || pairs[k].1 == "")
    ensures ValidatePairs(pairs, ByRawName(Resolve(params)), seen) != Valid
  {
    ByRawNameExact(Resolve(params), "");
    ResolvedNames(params);
    if pairs[0].0 != "" && pairs[0].1 != "" {
      var k :| 0 <= k < |pairs| && (pairs[k].0 == "" || pairs[k].1 == "");
      assert pairs[1..][k - 1] == pairs[k];
      if ValidatePair(pairs[0], ByRawName(Resolve(params)), seen).Valid? {
        UnnamedPairFails(params, pairs[1..], seen + {ByRawName(Resolve(params))[pairs[0].0].rawName});
      }
    }
  }

  lemma {:induction false} DetectedPointersDiffer(params: seq<Param>, k: nat, l: nat)
    requires NamedDiffer(params) && PairsNamed(params) && k < l < |DetectedPairs(params)|
    ensures DetectedPairs(params)[k].0 != DetectedPairs(params)[l].0
  {
    var ps := DetectedPositions(params);
    assert ps[k] + 2 <= ps[l];
    assert params[ps[k]].name == DetectedPairs(params)[k].0;
    assert params[ps[l]].name == DetectedPairs(params)[l].0;
  }

  /** Detected pairs pass validation exactly when none of their parameters is unnamed. */
  lemma {:induction false} DetectedPairsValidIffNamed(params: seq<Param>)
    requires NamedDiffer(params)
    ensures ValidatePairs(DetectedPairs(params), ByRawName(Resolve(params)), {}) == Valid <==> PairsNamed(params)
  {
    var pairs := DetectedPairs(params);
    if PairsNamed(params) {
      forall k | 0 <= k < |pairs| ensures GoodPair(pairs[k], ByRawName(Resolve(params))) {
        DetectedPairGood(params, k);
      }
      forall k, l | 0 <= k < l < |pairs| ensures pairs[k].0 != pairs[l].0 {
        DetectedPointersDiffer(params, k, l);
      }
      GoodPairsValid(pairs, ByRawName(Resolve(params)), {});
    } else {
      UnnamedPairFails(params, pairs, {});
    }
  }
}
