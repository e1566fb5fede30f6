/** The wrapper that takes byte slices in place of (pointer, length) pairs, and why it makes the
    original call (src/purego_gen/helper_rendering.py; templates/go_file.go.j2). */
module BufferWrapper {
  import opened BufferPairs
  import opened Options
  import opened Text
  import Decimal

  // ---- the wrapper ----

  datatype WrapperParam = WrapperParam(name: string, ty: string)

  /** A call argument: `<slice>_ptr`, `<ty>(len(<slice>_len))`, or a parameter passed on. */
  datatype Argument = SlicePointer(slice: string) | SliceLength(ty: string, slice: string) | PassedOn(name: string)

  /** The wrapper: its parameters, the parameters that are slices, and the arguments of the call. */
  datatype Wrapper = Wrapper(params: seq<WrapperParam>, slices: seq<string>, args: seq<Argument>)

  function PairByPointer(pairs: seq<(string, string)>): map<string, (string, string)> {
    if pairs == [] then map[]
    else var last := pairs[|pairs| - 1]; PairByPointer(pairs[..|pairs| - 1])[last.0 := last]
  }

  function PointerByLength(pairs: seq<(string, string)>): map<string, string> {
    if pairs == [] then map[]
    else var last := pairs[|pairs| - 1]; PointerByLength(pairs[..|pairs| - 1])[last.1 := last.0]
  }

  function AddParameter(w: Wrapper, p: Resolved, isPointer: bool, pointer: Option<string>): Wrapper {
    if isPointer then
      Wrapper(w.params + [WrapperParam(p.name, "[]byte")], w.slices + [p.name], w.args + [SlicePointer(p.name)])
    else
      match pointer
      case Some(slice) => w.(args := w.args + [SliceLength(p.ty, slice)])
      case None => Wrapper(w.params + [WrapperParam(p.name, p.ty)], w.slices, w.args + [PassedOn(p.name)])
  }

  /** The slice that a length parameter belongs to, by the rendered name of its pointer. */
  function PointerOfLength(
    rawName: string, pairs: seq<(string, string)>, byRawName: map<string, Resolved>): Option<string> {
    var pointerByLength := PointerByLength(pairs);
    if rawName in pointerByLength && pointerByLength[rawName] in byRawName
    then Some(byRawName[pointerByLength[rawName]].name) else None
  }

  function BuildWrapper(
    resolved: seq<Resolved>, pairs: seq<(string, string)>, byRawName: map<string, Resolved>): Wrapper {
    if resolved == [] then Wrapper([], [], [])
    else
      var p := resolved[|resolved| - 1];
      AddParameter(BuildWrapper(resolved[..|resolved| - 1], pairs, byRawName), p,
                   p.rawName in PairByPointer(pairs), PointerOfLength(p.rawName, pairs, byRawName))
  }

  /** `_build_buffer_helper_call_context` */
  method BuildBufferHelperCall(resolved: seq<Resolved>, pairs: seq<(string, string)>, byRawName: map<string, Resolved>)
    returns (w: Wrapper)
    requires forall name :: name in PointerByLength(pairs).Values ==> name in byRawName
    ensures w == BuildWrapper(resolved, pairs, byRawName)
  {
    var pairByPointer, pointerByLength := PairByPointer(pairs), PointerByLength(pairs);
    var wrapperParameters: seq<WrapperParam>, sliceNames: seq<string>, arguments: seq<Argument> := [], [], [];
    for i := 0 to |resolved|
      invariant Wrapper(wrapperParameters, sliceNames, arguments) == BuildWrapper(resolved[..i], pairs, byRawName)
    {
      assert resolved[..i + 1][..i] == resolved[..i];
      var parameter := resolved[i];
      if parameter.rawName in pairByPointer {
        wrapperParameters := wrapperParameters + [WrapperParam(parameter.name, "[]byte")];
        sliceNames := sliceNames + [parameter.name];
        arguments := arguments + [SlicePointer(parameter.name)];
        continue;
      }
      if parameter.rawName in pointerByLength {
        assert pointerByLength[parameter.rawName] in pointerByLength.Values;
        var pointerParameter := byRawName[pointerByLength[parameter.rawName]];
        arguments := arguments + [SliceLength(parameter.ty, pointerParameter.name)];
        continue;
      }
      wrapperParameters := wrapperParameters + [WrapperParam(parameter.name, parameter.ty)];
      arguments := arguments + [PassedOn(parameter.name)];
    }
    assert resolved[..|resolved|] == resolved;
    w := Wrapper(wrapperParameters, sliceNames, arguments);
  }

  // ---- roles of the original parameters ----

  datatype Role = PointerRole | LengthRole | PlainRole

  function RoleAt(positions: seq<nat>, i: nat): Role {
    if i in positions then PointerRole
    else if i > 0 && i - 1 in positions then LengthRole
    else PlainRole
  }

  /** The name rendered for an unnamed parameter is none of the detected pairs' names. */
  ghost predicate NoneMistaken(params: seq<Param>) {
    forall i, k :: 0 <= i < |params| && params[i].name == "" && 0 <= k < |DetectedPairs(params)| ==>
      Resolve(params)[i].name != DetectedPairs(params)[k].0 && Resolve(params)[i].name != DetectedPairs(params)[k].1
  }

  /** Functions whose detected pairs pass validation and whose unnamed parameters are not mistaken. */
  ghost predicate Wrappable(params: seq<Param>) {
    NamedDiffer(params) && PairsNamed(params) && NoneMistaken(params)
  }

  lemma {:induction false} PairMapKeys(pairs: seq<(string, string)>, name: string)
    ensures name in PairByPointer(pairs) <==> exists k :: 0 <= k < |pairs| && pairs[k].0 == name
    ensures name in PointerByLength(pairs) <==> exists k :: 0 <= k < |pairs| && pairs[k].1 == name
    ensures name in PointerByLength(pairs) ==>
      exists k :: 0 <= k < |pairs| && pairs[k].1 == name && PointerByLength(pairs)[name] == pairs[k].0
  {
    if pairs != [] {
      var init := pairs[..|pairs| - 1];
      PairMapKeys(init, name);
      forall k | 0 <= k < |init| ensures init[k] == pairs[k] {}
    }
  }

  lemma {:induction false} PairAt(params: seq<Param>, k: nat)
    requires PairsNamed(params) && k < |DetectedPairs(params)|
    ensures var p := DetectedPositions(params)[k];
      && p + 1 < |params| && DetectedPairs(params)[k] == (params[p].name, params[p + 1].name)
      && params[p].name != "" && params[p + 1].name != ""
      && Resolve(params)[p].rawName == params[p].name && Resolve(params)[p + 1].rawName == params[p + 1].name
  {
  }

  lemma {:induction false} SameNameSamePlace(params: seq<Param>, i: nat, j: nat)
    requires NamedDiffer(params) && i < |params| && j < |params| && params[i].name == params[j].name != ""
    ensures i == j
  {
  }

  lemma {:induction false} PointerRecognised(params: seq<Param>, i: nat)
    requires Wrappable(params) && i < |params|
    ensures Resolve(params)[i].rawName in PairByPointer(DetectedPairs(params)) <==> i in DetectedPositions(params)
  {
    var ps, pairs, raw := DetectedPositions(params), DetectedPairs(params), Resolve(params)[i].rawName;
    PairMapKeys(pairs, raw);
    if k :| 0 <= k < |pairs| && pairs[k].0 == raw {
      PairAt(params, k);
      SameNameSamePlace(params, i, ps[k]);
    }
    if k :| 0 <= k < |ps| && ps[k] == i {
      PairAt(params, k);
      assert pairs[k].0 == raw;
    }
  }

  lemma {:induction false} LengthIsRecognised(params: seq<Param>, i: nat)
    requires Wrappable(params) && 0 < i < |params| && i - 1 in DetectedPositions(params)
    ensures Resolve(params)[i].rawName in PointerByLength(DetectedPairs(params))
  {
    var ps, pairs := DetectedPositions(params), DetectedPairs(params);
    PairMapKeys(pairs, Resolve(params)[i].rawName);
    var k :| 0 <= k < |ps| && ps[k] == i - 1;
    PairAt(params, k);
    assert pairs[k].1 == Resolve(params)[i].rawName;
  }

  lemma {:induction false} RecognisedIsLength(params: seq<Param>, i: nat)
    requires Wrappable(params) && i < |params|
    requires Resolve(params)[i].rawName in PointerByLength(DetectedPairs(params))
    ensures i > 0 && i - 1 in DetectedPositions(params) && params[i - 1].name != ""
    ensures PointerByLength(DetectedPairs(params))[Resolve(params)[i].rawName] == params[i - 1].name
  {
    var ps, pairs, raw := DetectedPositions(params), DetectedPairs(params), Resolve(params)[i].rawName;
    PairMapKeys(pairs, raw);
    var k :| 0 <= k < |pairs| && pairs[k].1 == raw && PointerByLength(pairs)[raw] == pairs[k].0;
    PairAt(params, k);
    SameNameSamePlace(params, i, ps[k] + 1);
  }

  /** Each parameter is treated according to its role in the detected pairs. */
  lemma {:induction false} RolesRecognised(params: seq<Param>, i: nat)
    requires Wrappable(params) && i < |params|
    ensures Resolve(params)[i].rawName in PairByPointer(DetectedPairs(params))
       <==> RoleAt(DetectedPositions(params), i) == PointerRole
    ensures RoleAt(DetectedPositions(params), i) != PointerRole ==>
      PointerOfLength(Resolve(params)[i].rawName, DetectedPairs(params), ByRawName(Resolve(params)))
      == if RoleAt(DetectedPositions(params), i) == LengthRole then Some(Resolve(params)[i - 1].name) else None
  {
    PointerRecognised(params, i);
    if Resolve(params)[i].rawName in PointerByLength(DetectedPairs(params)) {
      RecognisedIsLength(params, i);
      NamedFound(params, i - 1);
    } else if i > 0 && i - 1 in DetectedPositions(params) {
      LengthIsRecognised(params, i);
    }
  }

  /** An original parameter as the wrapper sees it: rendered name and type, and role. */
  datatype Slot = Slot(name: string, ty: string, goType: string, role: Role)

  function Slots(params: seq<Param>): (slots: seq<Slot>)
    ensures |slots| == |params|
  {
    seq(|params|, i requires 0 <= i < |params| =>
      Slot(Resolve(params)[i].name, params[i].ty, params[i].goType, RoleAt(DetectedPositions(params), i)))
  }

  /** Rendered names differ, and each length directly follows its pointer. */
  ghost predicate ProperSlots(slots: seq<Slot>) {
    && (forall i, j :: 0 <= i < j < |slots| ==> slots[i].name != slots[j].name)
    && forall i {:trigger slots[i]} :: 0 <= i < |slots| && slots[i].role == LengthRole ==>
         i > 0 && slots[i - 1].role == PointerRole
  }

  lemma {:induction false} SlotsAreProper(params: seq<Param>)
    ensures ProperSlots(Slots(params))
  {
    ResolvedNames(params);
    var slots := Slots(params);
    forall i, j | 0 <= i < j < |slots| ensures slots[i].name != slots[j].name {
      assert Resolve(params)[i].name != Resolve(params)[j].name;
    }
  }

  /** Each argument according to its role. */
  function ExpectedArgument(slots: seq<Slot>, i: nat): Argument
    requires i < |slots|
  {
    match slots[i].role
    case PointerRole => SlicePointer(slots[i].name)
    case LengthRole => SliceLength(slots[i].ty, if i > 0 then slots[i - 1].name else "")
    case PlainRole => PassedOn(slots[i].name)
  }

  function ExpectedArguments(slots: seq<Slot>, n: nat): (args: seq<Argument>)
    requires n <= |slots|
    ensures |args| == n && forall i :: 0 <= i < n ==> args[i] == ExpectedArgument(slots, i)
  {
    if n == 0 then [] else ExpectedArguments(slots, n - 1) + [ExpectedArgument(slots, n - 1)]
  }

  /** The wrapper's parameters: lengths dropped, pointers as slices. */
  function ExpectedParams(slots: seq<Slot>): seq<WrapperParam> {
    if slots == [] then []
    else
      var last := slots[|slots| - 1];
      ExpectedParams(slots[..|slots| - 1]) +
      match last.role
      case PointerRole => [WrapperParam(last.name, "[]byte")]
      case LengthRole => []
      case PlainRole => [WrapperParam(last.name, last.ty)]
  }

  function ExpectedSlices(slots: seq<Slot>): seq<string> {
    if slots == [] then []
    else
      var last := slots[|slots| - 1];
      ExpectedSlices(slots[..|slots| - 1]) + if last.role == PointerRole then [last.name] else []
  }

  function DetectedWrapper(params: seq<Param>): Wrapper {
    BuildWrapper(Resolve(params), DetectedPairs(params), ByRawName(Resolve(params)))
  }

  function WrapperOf(params: seq<Param>, n: nat): Wrapper
    requires n <= |params|
  {
    BuildWrapper(Resolve(params)[..n], DetectedPairs(params), ByRawName(Resolve(params)))
  }

  lemma {:induction false} WrapperStep(params: seq<Param>, n: nat)
    requires Wrappable(params) && n < |params|
    ensures var slot := Slots(params)[n];
      WrapperOf(params, n + 1)
      == AddParameter(WrapperOf(params, n), Resolve(params)[n], slot.role == PointerRole,
                      if slot.role == LengthRole then Some(Slots(params)[n - 1].name) else None)
  {
    RolesRecognised(params, n);
    BuildSnoc(Resolve(params), n, DetectedPairs(params), ByRawName(Resolve(params)));
  }

  lemma {:induction false} BuildSnoc(
    resolved: seq<Resolved>, n: nat, pairs: seq<(string, string)>, byRawName: map<string, Resolved>)
    requires n < |resolved|
    ensures BuildWrapper(resolved[..n + 1], pairs, byRawName)
         == AddParameter(BuildWrapper(resolved[..n], pairs, byRawName), resolved[n],
                         resolved[n].rawName in PairByPointer(pairs),
                         PointerOfLength(resolved[n].rawName, pairs, byRawName))
  {
    assert resolved[..n + 1][..n] == resolved[..n];
  }

  function ExpectedWrapper(slots: seq<Slot>, n: nat): Wrapper
    requires n <= |slots|
  {
    Wrapper(ExpectedParams(slots[..n]), ExpectedSlices(slots[..n]), ExpectedArguments(slots, n))
  }

  lemma {:induction false} ExpectedStep(slots: seq<Slot>, n: nat, p: Resolved)
    requires n < |slots| && p.name == slots[n].name && p.ty == slots[n].ty
    requires slots[n].role == LengthRole ==> n > 0
    ensures ExpectedWrapper(slots, n + 1)
         == AddParameter(ExpectedWrapper(slots, n), p, slots[n].role == PointerRole,
                         if slots[n].role == LengthRole then Some(slots[n - 1].name) else None)
  {
    assert slots[..n + 1][..n] == slots[..n] && slots[..n + 1][n] == slots[n];
  }

  lemma {:induction false} WrapperPrefix(params: seq<Param>, n: nat)
    requires Wrappable(params) && n <= |params|
    ensures WrapperOf(params, n) == ExpectedWrapper(Slots(params), n)
  {
    if n > 0 {
      WrapperPrefix(params, n - 1);
      WrapperGrows(params, Slots(params), n - 1);
    }
  }

  lemma {:induction false} WrapperGrows(params: seq<Param>, slots: seq<Slot>, n: nat)
    requires Wrappable(params) && n < |params| && slots == Slots(params)
    requires WrapperOf(params, n) == ExpectedWrapper(slots, n)
    ensures WrapperOf(params, n + 1) == ExpectedWrapper(slots, n + 1)
  {
    WrapperStep(params, n);
    ExpectedStep(slots, n, Resolve(params)[n]);
  }

  /** The wrapper that treats every parameter according to its role: one argument per original
      parameter, in order; the lengths dropped. */
  function RoleWrapper(slots: seq<Slot>): Wrapper {
    Wrapper(ExpectedParams(slots), ExpectedSlices(slots), ExpectedArguments(slots, |slots|))
  }

  lemma {:induction false} WrapperShape(params: seq<Param>)
    requires Wrappable(params)
    ensures DetectedWrapper(params) == RoleWrapper(Slots(params))
  {
    WrapperPrefix(params, |params|);
    assert Resolve(params)[..|params|] == Resolve(params);
    assert Slots(params)[..|params|] == Slots(params);
  }

  /** The argument that the two tables give to a parameter. */
  function TableArgument(p: Resolved, pairs: seq<(string, string)>, byRawName: map<string, Resolved>): Argument {
    if p.rawName in PairByPointer(pairs) then SlicePointer(p.name)
    else match PointerOfLength(p.rawName, pairs, byRawName)
         case Some(slice) => SliceLength(p.ty, slice)
         case None => PassedOn(p.name)
  }

  lemma {:induction false} BuiltArgument(
    resolved: seq<Resolved>, pairs: seq<(string, string)>, byRawName: map<string, Resolved>, i: nat)
    requires i < |resolved|
    ensures var args := BuildWrapper(resolved, pairs, byRawName).args;
      |args| == |resolved| && args[i] == TableArgument(resolved[i], pairs, byRawName)
  {
    var n := |resolved| - 1;
    if i < n {
      BuiltArgument(resolved[..n], pairs, byRawName, i);
    } else if n > 0 {
      BuiltArgument(resolved[..n], pairs, byRawName, 0);
    }
  }

  lemma {:induction false} UnnamedIsPlain(params: seq<Param>, i: nat)
    requires PairsNamed(params) && i < |params| && params[i].name == ""
    ensures RoleAt(DetectedPositions(params), i) == PlainRole
  {
    var ps := DetectedPositions(params);
    forall l | 0 <= l < |ps| ensures ps[l] != i && ps[l] + 1 != i {
      PairAt(params, l);
    }
  }

  /** A pair's name is in the tables, and a length's pointer is found. */
  lemma {:induction false} PairInTables(params: seq<Param>, name: string, k: nat)
    requires NamedDiffer(params) && PairsNamed(params) && k < |DetectedPairs(params)|
    requires name == DetectedPairs(params)[k].0 || name == DetectedPairs(params)[k].1
    ensures name in PairByPointer(DetectedPairs(params))
         || PointerOfLength(name, DetectedPairs(params), ByRawName(Resolve(params))).Some?
  {
    var pairs := DetectedPairs(params);
    PairMapKeys(pairs, name);
    if name !in PairByPointer(pairs) {
      var l :| 0 <= l < |pairs| && pairs[l].1 == name && PointerByLength(pairs)[name] == pairs[l].0;
      PairAt(params, l);
      NamedFound(params, DetectedPositions(params)[l]);
    }
  }

  lemma {:induction false} NameInTables(params: seq<Param>, p: Resolved, k: nat)
    requires NamedDiffer(params) && PairsNamed(params) && k < |DetectedPairs(params)|
    requires p.rawName == DetectedPairs(params)[k].0 || p.rawName == DetectedPairs(params)[k].1
    ensures !TableArgument(p, DetectedPairs(params), ByRawName(Resolve(params))).PassedOn?
  {
    PairInTables(params, p.rawName, k);
  }

  /** An unnamed parameter that bears the name of a pair's pointer or length is treated as one. */
  lemma {:induction false} MistakenArgument(params: seq<Param>, i: nat, k: nat)
    requires NamedDiffer(params) && PairsNamed(params) && i < |params| && params[i].name == ""
    requires k < |DetectedPairs(params)|
    requires var name := Resolve(params)[i].name;
      name == DetectedPairs(params)[k].0 || name == DetectedPairs(params)[k].1
    ensures DetectedWrapper(params) != RoleWrapper(Slots(params))
  {
    UnnamedIsPlain(params, i);
    NameInTables(params, Resolve(params)[i], k);
    BuiltArgument(Resolve(params), DetectedPairs(params), ByRawName(Resolve(params)), i);
    assert ExpectedArguments(Slots(params), |params|)[i] == ExpectedArgument(Slots(params), i);
  }

  /** The wrapper treats every parameter according to its role exactly when no unnamed parameter is
      mistaken for one of a pair. */
  lemma {:induction false} WrapperShapeExact(params: seq<Param>)
    requires NamedDiffer(params) && PairsNamed(params)
    ensures DetectedWrapper(params) == RoleWrapper(Slots(params)) <==> NoneMistaken(params)
  {
    if NoneMistaken(params) {
      WrapperShape(params);
    } else {
      var pairs := DetectedPairs(params);
      var i, k :| 0 <= i < |params| && params[i].name == "" && 0 <= k < |pairs|
        && !(Resolve(params)[i].name != pairs[k].0 && Resolve(params)[i].name != pairs[k].1);
      MistakenArgument(params, i, k);
    }
  }

  /** `f(int, const void *arg1, size_t n)`: the unnamed parameter is called `arg1` and taken for the
      pointer. */
  lemma {:induction false} MistakenUnnamed(voidPointer: string, other: string)
    requires IsPointerType(voidPointer)
    ensures var params := [Param("", other, "int32", "int32"), Param("arg1", voidPointer, "uintptr", "uintptr"),
                           Param("n", other, "uint64", "uint64")];
      NamedDiffer(params) && PairsNamed(params) && !NoneMistaken(params)
  {
    var params := [Param("", other, "int32", "int32"), Param("arg1", voidPointer, "uintptr", "uintptr"),
                   Param("n", other, "uint64", "uint64")];
    UnnamedIsArg1(params);
    assert EligibleFlags(params) == [false, true, false];
    assert PairPositions([false, true, false], 3) == [] && PairPositions([false, true, false], 1) == [1];
    assert DetectedPairs(params) == [("arg1", "n")];
    assert Resolve(params)[0].name == DetectedPairs(params)[0].0;
  }

  lemma {:induction false} UnnamedIsArg1(params: seq<Param>)
    requires params != [] && params[0].name == ""
    ensures Resolve(params)[0].name == "arg1"
  {
    ParameterNameAt(params, 0);
    UnnamedBase(1);
    assert ParameterNames(params)[..0] == [];
    assert Decimal.Format(1) == "1";
  }

  // ---- running the wrapper ----

  datatype GoValue = Word(word: int) | Bytes(address: nat, length: nat)

  function PointerLocal(slice: string): string { slice + "_ptr" }

  function LengthLocal(slice: string): string { slice + "_len" }

  /** The locals `<slice>_ptr := uintptr(0)` and `<slice>_len := <slice>`, in order. `None` when Go
      rejects a declaration, because its name is already taken in the function's scope or because
      `uintptr` is not the type there. */
  function DeclareLocals(env: map<string, GoValue>, slices: seq<string>): Option<map<string, GoValue>> {
    if slices == [] then Some(env)
    else
      match DeclareLocals(env, slices[..|slices| - 1])
      case None => None
      case Some(e) =>
        var x := slices[|slices| - 1];
        if PointerLocal(x) in e || LengthLocal(x) in e || x !in e || "uintptr" in e then None
        else Some(e[PointerLocal(x) := Word(0)][LengthLocal(x) := e[x]])
  }

  /** `if len(<slice>_len) > 0 { <slice>_ptr = &<slice>_len[0] }` for every slice. */
  function SetPointers(env: map<string, GoValue>, slices: seq<string>): map<string, GoValue> {
    if slices == [] then env
    else
      var e := SetPointers(env, slices[..|slices| - 1]);
      var x := slices[|slices| - 1];
      if LengthLocal(x) in e && e[LengthLocal(x)].Bytes? && e[LengthLocal(x)].length > 0
      then e[PointerLocal(x) := Word(e[LengthLocal(x)].address)] else e
  }

  /** Go's conversion of a length to the parameter's integer type. */
  function ConvertLength(goType: string, n: nat): int {
    match goType
    case "int32" => (n + 0x8000_0000) % 0x1_0000_0000 - 0x8000_0000
    case "uint32" => n % 0x1_0000_0000
    case _ => n
  }

  /** An argument's value; `<ty>(len(<slice>_len))` needs `len` and a type name that mean what they mean
      outside the function. */
  function EvalArgument(arg: Argument, goType: string, env: map<string, GoValue>): Option<GoValue> {
    match arg
    case SlicePointer(x) => if PointerLocal(x) in env then Some(env[PointerLocal(x)]) else None
    case SliceLength(ty, x) =>
      if LengthLocal(x) in env && env[LengthLocal(x)].Bytes? && "len" !in env && IsIdentifier(ty) && ty !in env
      then Some(Word(ConvertLength(goType, env[LengthLocal(x)].length))) else None
    case PassedOn(x) => if x in env then Some(env[x]) else None
  }

  function EvalArguments(args: seq<Argument>, goTypes: seq<string>, env: map<string, GoValue>): Option<seq<GoValue>>
    requires |args| == |goTypes|
  {
    if args == [] then Some([])
    else
      var n := |args| - 1;
      match (EvalArguments(args[..n], goTypes[..n], env), EvalArgument(args[n], goTypes[n], env))
      case (Some(values), Some(value)) => Some(values + [value])
      case _ => None
  }

  /** The environment behind the `if` statements. */
  function CallEnvironment(env: map<string, GoValue>, slices: seq<string>): Option<map<string, GoValue>> {
    match DeclareLocals(env, slices)
    case None => None
    case Some(e) =>
      if slices != [] && ("len" in e || "uintptr" in e || "unsafe" in e) then None else Some(SetPointers(e, slices))
  }

  /** The values that the wrapper's body, run with its parameters bound by `env`, hands to the function
      `target`; `None` when Go rejects the body, since one of the names it uses is taken by a parameter
      or a local, or since a conversion is not to a named type. */
  function RunBody(w: Wrapper, goTypes: seq<string>, env: map<string, GoValue>, target: string): Option<seq<GoValue>>
    requires |w.args| == |goTypes|
  {
    match CallEnvironment(env, w.slices)
    case None => None
    case Some(e) => if target in e then None else EvalArguments(w.args, goTypes, e)
  }

  lemma {:induction false} LocalNamesDistinct(x: string, y: string)
    ensures PointerLocal(x) != LengthLocal(y)
    ensures PointerLocal(x) == PointerLocal(y) <==> x == y
    ensures LengthLocal(x) == LengthLocal(y) <==> x == y
  {
    var p, q := PointerLocal(x), LengthLocal(y);
    assert p[|p| - 1] == 'r' && q[|q| - 1] == 'n';
    assert p[..|p| - 4] == x && PointerLocal(y)[..|PointerLocal(y)| - 4] == y;
    assert q[..|q| - 4] == y && LengthLocal(x)[..|LengthLocal(x)| - 4] == x;
  }

  ghost predicate Free(env: map<string, GoValue>, slices: seq<string>) {
    forall k {:trigger slices[k]} :: 0 <= k < |slices| ==>
      PointerLocal(slices[k]) !in env && LengthLocal(slices[k]) !in env
  }

  predicate IsLocal(name: string, slices: seq<string>) {
    slices != [] &&
      var x := slices[|slices| - 1];
      name == PointerLocal(x) || name == LengthLocal(x) || IsLocal(name, slices[..|slices| - 1])
  }

  lemma {:induction false} IsLocalOf(name: string, slices: seq<string>) returns (k: nat)
    requires IsLocal(name, slices)
    ensures k < |slices| && (name == PointerLocal(slices[k]) || name == LengthLocal(slices[k]))
  {
    k := |slices| - 1;
    if name != PointerLocal(slices[k]) && name != LengthLocal(slices[k]) {
      k := IsLocalOf(name, slices[..k]);
    }
  }

  /** Declaring the locals changes no name that was there, and adds no other name. */
  lemma {:induction false} DeclareKeeps(env: map<string, GoValue>, slices: seq<string>, name: string)
    requires DeclareLocals(env, slices).Some?
    ensures var e := DeclareLocals(env, slices).value;
      && (name in env ==> name in e && e[name] == env[name])
      && (name in e && name !in env ==> IsLocal(name, slices))
  {
    if slices != [] {
      DeclareKeeps(env, slices[..|slices| - 1], name);
    }
  }

  lemma {:induction false} DeclareSets(env: map<string, GoValue>, slices: seq<string>, k: nat)
    requires DeclareLocals(env, slices).Some? && k < |slices| && slices[k] in env
    ensures var e := DeclareLocals(env, slices).value;
      && LengthLocal(slices[k]) in e && e[LengthLocal(slices[k])] == env[slices[k]]
      && PointerLocal(slices[k]) in e && e[PointerLocal(slices[k])] == Word(0)
    ensures PointerLocal(slices[k]) !in env && LengthLocal(slices[k]) !in env
  {
    var n := |slices| - 1;
    var init, x := slices[..n], slices[n];
    LocalNamesDistinct(x, x);
    if k < n {
      DeclareSets(env, init, k);
    } else {
      DeclareKeeps(env, init, x);
      DeclareKeeps(env, init, PointerLocal(x));
      DeclareKeeps(env, init, LengthLocal(x));
    }
  }

  ghost predicate Distinct(slices: seq<string>) {
    forall k, l :: 0 <= k < l < |slices| ==> slices[k] != slices[l]
  }

  ghost predicate AllIn(slices: seq<string>, env: map<string, GoValue>) {
    forall k {:trigger slices[k]} :: 0 <= k < |slices| ==> slices[k] in env
  }

  /** No local has the name of a builtin that the body uses. */
  lemma {:induction false} BuiltinsAreNoLocals(x: string)
    ensures PointerLocal(x) != "uintptr" && LengthLocal(x) != "uintptr"
    ensures PointerLocal(x) != "len" && LengthLocal(x) != "len"
    ensures PointerLocal(x) != "unsafe" && LengthLocal(x) != "unsafe"
  {
    assert PointerLocal(x)[|x|] == '_' && LengthLocal(x)[|x|] == '_';
  }

  /** Go accepts the declarations exactly when all local names are free and `uintptr` is the type. */
  lemma {:induction false} DeclaredIffFree(env: map<string, GoValue>, slices: seq<string>)
    requires Distinct(slices) && AllIn(slices, env)
    ensures DeclareLocals(env, slices).Some? <==> Free(env, slices) && (slices != [] ==> "uintptr" !in env)
  {
    if DeclareLocals(env, slices).Some? {
      if slices != [] {
        DeclareKeeps(env, slices[..|slices| - 1], "uintptr");
      }
      forall k | 0 <= k < |slices|
        ensures PointerLocal(slices[k]) !in env && LengthLocal(slices[k]) !in env
      {
        DeclareSets(env, slices, k);
      }
    } else {
      var n := |slices| - 1;
      var init, x := slices[..n], slices[n];
      forall k | 0 <= k < n ensures init[k] == slices[k] {}
      DeclaredIffFree(env, init);
      if Free(env, slices) && "uintptr" !in env {
        DeclareKeeps(env, init, x);
        DeclareKeeps(env, init, PointerLocal(x));
        DeclareKeeps(env, init, LengthLocal(x));
        DeclareKeeps(env, init, "uintptr");
        var clash := if IsLocal(PointerLocal(x), init) then PointerLocal(x)
                     else if IsLocal(LengthLocal(x), init) then LengthLocal(x) else "uintptr";
        var k := IsLocalOf(clash, init);
        LocalNamesDistinct(x, slices[k]);
        LocalNamesDistinct(slices[k], x);
        BuiltinsAreNoLocals(slices[k]);
      }
    }
  }

  lemma {:induction false} SetPointersKeeps(env: map<string, GoValue>, slices: seq<string>, name: string)
    requires forall k {:trigger slices[k]} :: 0 <= k < |slices| ==> name != PointerLocal(slices[k])
    ensures name in SetPointers(env, slices) <==> name in env
    ensures name in env ==> SetPointers(env, slices)[name] == env[name]
  {
    if slices != [] {
      var init := slices[..|slices| - 1];
      forall k | 0 <= k < |init| ensures init[k] == slices[k] {}
      SetPointersKeeps(env, init, name);
    }
  }

  lemma {:induction false} SetPointersAt(env: map<string, GoValue>, slices: seq<string>, k: nat)
    requires Distinct(slices) && k < |slices|
    requires LengthLocal(slices[k]) in env && env[LengthLocal(slices[k])].Bytes?
    requires PointerLocal(slices[k]) in env && env[PointerLocal(slices[k])] == Word(0)
    ensures var e := SetPointers(env, slices); var bytes := env[LengthLocal(slices[k])];
      PointerLocal(slices[k]) in e
      && e[PointerLocal(slices[k])] == Word(if bytes.length > 0 then bytes.address else 0)
  {
    var n := |slices| - 1;
    var init, x := slices[..n], slices[n];
    forall j | 0 <= j < n ensures init[j] == slices[j] {}
    if k < n {
      SetPointersAt(env, init, k);
      LocalNamesDistinct(slices[k], x);
    } else {
      forall j | 0 <= j < |init|
        ensures PointerLocal(x) != PointerLocal(init[j]) && LengthLocal(x) != PointerLocal(init[j])
      {
        LocalNamesDistinct(x, init[j]);
        LocalNamesDistinct(init[j], x);
      }
      SetPointersKeeps(env, init, PointerLocal(x));
      SetPointersKeeps(env, init, LengthLocal(x));
    }
  }

  // ---- the wrapper makes the original call ----

  /** Inputs by original position: a slice for each pointer, words elsewhere; what stands at a length
      position is not passed to the wrapper. */
  ghost predicate WellTyped(slots: seq<Slot>, inputs: seq<GoValue>) {
    && |inputs| == |slots|
    && forall i {:trigger slots[i]} {:trigger inputs[i]} :: 0 <= i < |slots| ==>
         (inputs[i].Bytes? <==> slots[i].role == PointerRole)
  }

  /** The arguments bound to the wrapper's parameters. */
  function Bindings(slots: seq<Slot>, inputs: seq<GoValue>): map<string, GoValue>
    requires |inputs| == |slots|
  {
    if slots == [] then map[]
    else
      var n := |slots| - 1;
      var before := Bindings(slots[..n], inputs[..n]);
      if slots[n].role == LengthRole then before else before[slots[n].name := inputs[n]]
  }

  /** A parameter of the wrapper, or a local of it, that bears the name. */
  predicate Bears(slot: Slot, name: string) {
    || (slot.role != LengthRole && slot.name == name)
    || (slot.role == PointerRole && (name == PointerLocal(slot.name) || name == LengthLocal(slot.name)))
  }

  ghost predicate NotBorne(name: string, slots: seq<Slot>) {
    forall i {:trigger slots[i]} :: 0 <= i < |slots| ==> !Bears(slots[i], name)
  }

  ghost predicate HasSlice(slots: seq<Slot>) {
    exists i {:trigger slots[i]} :: 0 <= i < |slots| && slots[i].role == PointerRole
  }

  /** No parameter of the wrapper has the name of a local. */
  ghost predicate LocalsFree(slots: seq<Slot>) {
    forall i, j ::
      0 <= i < |slots| && 0 <= j < |slots| && slots[i].role == PointerRole && slots[j].role != LengthRole ==>
      slots[j].name != PointerLocal(slots[i].name) && slots[j].name != LengthLocal(slots[i].name)
  }

  ghost predicate BuiltinsFree(slots: seq<Slot>) {
    NotBorne("len", slots) && NotBorne("uintptr", slots) && NotBorne("unsafe", slots)
  }

  /** The condition on names: locals can be declared, and no parameter or local takes the name of the
      called function, of a builtin or package the body uses, or of a type it converts to. */
  ghost predicate NoCapture(slots: seq<Slot>, target: string) {
    && LocalsFree(slots)
    && NotBorne(target, slots)
    && (HasSlice(slots) ==> BuiltinsFree(slots))
    && forall i {:trigger slots[i]} :: 0 <= i < |slots| && slots[i].role == LengthRole ==>
         IsIdentifier(slots[i].ty) && NotBorne(slots[i].ty, slots)
  }

  lemma {:induction false} BoundNames(slots: seq<Slot>, inputs: seq<GoValue>, name: string) returns (i: nat)
    requires |inputs| == |slots| && name in Bindings(slots, inputs)
    ensures i < |slots| && slots[i].role != LengthRole && slots[i].name == name
  {
    var n := |slots| - 1;
    if slots[n].role != LengthRole && slots[n].name == name {
      i := n;
    } else {
      i := BoundNames(slots[..n], inputs[..n], name);
    }
  }

  lemma {:induction false} BoundValue(slots: seq<Slot>, inputs: seq<GoValue>, i: nat)
    requires |inputs| == |slots| && i < |slots| && slots[i].role != LengthRole
    requires forall i, j :: 0 <= i < j < |slots| ==> slots[i].name != slots[j].name
    ensures slots[i].name in Bindings(slots, inputs) && Bindings(slots, inputs)[slots[i].name] == inputs[i]
  {
    var n := |slots| - 1;
    if i < n {
      forall k, l | 0 <= k < l < n ensures slots[..n][k].name != slots[..n][l].name {}
      BoundValue(slots[..n], inputs[..n], i);
      assert slots[i].name != slots[n].name;
    }
  }

  lemma {:induction false} SliceSlot(slots: seq<Slot>, k: nat) returns (i: nat)
    requires k < |ExpectedSlices(slots)|
    ensures i < |slots| && slots[i].role == PointerRole && slots[i].name == ExpectedSlices(slots)[k]
  {
    var n := |slots| - 1;
    if k < |ExpectedSlices(slots[..n])| {
      i := SliceSlot(slots[..n], k);
    } else {
      i := n;
    }
  }

  lemma {:induction false} SlotSlice(slots: seq<Slot>, i: nat) returns (k: nat)
    requires i < |slots| && slots[i].role == PointerRole
    ensures k < |ExpectedSlices(slots)| && ExpectedSlices(slots)[k] == slots[i].name
  {
    var n := |slots| - 1;
    if i < n {
      k := SlotSlice(slots[..n], i);
    } else {
      k := |ExpectedSlices(slots)| - 1;
    }
  }

  lemma {:induction false} SlicesDistinct(slots: seq<Slot>)
    requires forall i, j :: 0 <= i < j < |slots| ==> slots[i].name != slots[j].name
    ensures Distinct(ExpectedSlices(slots))
  {
    if slots != [] {
      var n := |slots| - 1;
      forall k, l | 0 <= k < l < n ensures slots[..n][k].name != slots[..n][l].name {}
      SlicesDistinct(slots[..n]);
      var before := ExpectedSlices(slots[..n]);
      forall k | 0 <= k < |before| ensures before[k] != slots[n].name {
        var i := SliceSlot(slots[..n], k);
        assert slots[..n][i] == slots[i];
      }
    }
  }

  lemma {:induction false} SlicesAreBound(slots: seq<Slot>, inputs: seq<GoValue>)
    requires ProperSlots(slots) && WellTyped(slots, inputs)
    ensures Distinct(ExpectedSlices(slots)) && AllIn(ExpectedSlices(slots), Bindings(slots, inputs))
  {
    SlicesDistinct(slots);
    forall k | 0 <= k < |ExpectedSlices(slots)| ensures ExpectedSlices(slots)[k] in Bindings(slots, inputs) {
      var i := SliceSlot(slots, k);
      BoundValue(slots, inputs, i);
    }
  }

  lemma {:induction false} DeclarableExactly(slots: seq<Slot>, inputs: seq<GoValue>)
    requires ProperSlots(slots) && WellTyped(slots, inputs)
    ensures Free(Bindings(slots, inputs), ExpectedSlices(slots)) <==> LocalsFree(slots)
  {
    var slices, env := ExpectedSlices(slots), Bindings(slots, inputs);
    if LocalsFree(slots) {
      forall k | 0 <= k < |slices|
        ensures PointerLocal(slices[k]) !in env && LengthLocal(slices[k]) !in env
      {
        var i := SliceSlot(slots, k);
        if PointerLocal(slices[k]) in env {
          var j := BoundNames(slots, inputs, PointerLocal(slices[k]));
        }
        if LengthLocal(slices[k]) in env {
          var j := BoundNames(slots, inputs, LengthLocal(slices[k]));
        }
      }
    }
    if Free(env, slices) {
      forall i, j | 0 <= i < |slots| && 0 <= j < |slots| && slots[i].role == PointerRole && slots[j].role != LengthRole
        ensures slots[j].name != PointerLocal(slots[i].name) && slots[j].name != LengthLocal(slots[i].name)
      {
        var k := SlotSlice(slots, i);
        BoundValue(slots, inputs, j);
      }
    }
  }

  lemma {:induction false} SlicesExactly(slots: seq<Slot>)
    ensures ExpectedSlices(slots) != [] <==> HasSlice(slots)
  {
    if ExpectedSlices(slots) != [] {
      var i := SliceSlot(slots, 0);
    }
    if i :| 0 <= i < |slots| && slots[i].role == PointerRole {
      var k := SlotSlice(slots, i);
    }
  }

  /** The environment with the locals declared. */
  ghost predicate Declared(slots: seq<Slot>, inputs: seq<GoValue>, e: map<string, GoValue>) {
    && ProperSlots(slots) && WellTyped(slots, inputs)
    && DeclareLocals(Bindings(slots, inputs), ExpectedSlices(slots)) == Some(e)
  }

  /** Exactly the names of wrapper parameters and locals are taken. */
  lemma {:induction false} NamesExactly(slots: seq<Slot>, inputs: seq<GoValue>, e: map<string, GoValue>, name: string)
    requires Declared(slots, inputs, e)
    ensures name in e <==> !NotBorne(name, slots)
  {
    var slices, env := ExpectedSlices(slots), Bindings(slots, inputs);
    SlicesAreBound(slots, inputs);
    DeclareKeeps(env, slices, name);
    if name in env {
      var i := BoundNames(slots, inputs, name);
      assert Bears(slots[i], name);
    } else if name in e {
      var k := IsLocalOf(name, slices);
      var i := SliceSlot(slots, k);
      assert Bears(slots[i], name);
    }
    if i :| 0 <= i < |slots| && Bears(slots[i], name) {
      BoundValue(slots, inputs, i);
      if slots[i].name != name {
        var k := SlotSlice(slots, i);
        DeclareSets(env, slices, k);
      }
    }
  }

  /** Assigning the pointers declares no name. */
  lemma {:induction false} SetPointersDomain(env: map<string, GoValue>, slices: seq<string>, name: string)
    requires forall k {:trigger slices[k]} :: 0 <= k < |slices| ==> PointerLocal(slices[k]) in env
    ensures name in SetPointers(env, slices) <==> name in env
  {
    if slices != [] {
      var init := slices[..|slices| - 1];
      forall k | 0 <= k < |init| ensures init[k] == slices[k] {}
      SetPointersDomain(env, init, name);
    }
  }

  lemma {:induction false} NamesKept(slots: seq<Slot>, inputs: seq<GoValue>, e: map<string, GoValue>, name: string)
    requires Declared(slots, inputs, e)
    ensures name in SetPointers(e, ExpectedSlices(slots)) <==> !NotBorne(name, slots)
  {
    var slices, env := ExpectedSlices(slots), Bindings(slots, inputs);
    SlicesAreBound(slots, inputs);
    forall k | 0 <= k < |slices| ensures PointerLocal(slices[k]) in e {
      DeclareSets(env, slices, k);
    }
    SetPointersDomain(e, slices, name);
    NamesExactly(slots, inputs, e, name);
  }

  /** When the body gets as far as the call. */
  lemma {:induction false} EnvironmentExactly(slots: seq<Slot>, inputs: seq<GoValue>)
    requires ProperSlots(slots) && WellTyped(slots, inputs)
    ensures var slices, env := ExpectedSlices(slots), Bindings(slots, inputs);
      && (CallEnvironment(env, slices).Some? <==>
            LocalsFree(slots) && (HasSlice(slots) ==> BuiltinsFree(slots)))
      && (CallEnvironment(env, slices).Some? ==>
            Declared(slots, inputs, DeclareLocals(env, slices).value)
            && CallEnvironment(env, slices).value == SetPointers(DeclareLocals(env, slices).value, slices))
  {
    var slices, env := ExpectedSlices(slots), Bindings(slots, inputs);
    SlicesAreBound(slots, inputs);
    SlicesExactly(slots);
    DeclaredIffFree(env, slices);
    DeclarableExactly(slots, inputs);
    if DeclareLocals(env, slices).Some? {
      var e := DeclareLocals(env, slices).value;
      NamesExactly(slots, inputs, e, "len");
      NamesExactly(slots, inputs, e, "uintptr");
      NamesExactly(slots, inputs, e, "unsafe");
    } else if slices != [] && "uintptr" in env {
      var i := BoundNames(slots, inputs, "uintptr");
      assert Bears(slots[i], "uintptr");
    }
  }

  /** What the original function is meant to receive at position i: a slice's address, 0 when it is
      empty; the length of the slice before it; or the input itself. */
  function OriginalArgument(slots: seq<Slot>, inputs: seq<GoValue>, i: nat): GoValue
    requires i < |slots| == |inputs|
  {
    match slots[i].role
    case PointerRole => if inputs[i].Bytes? && inputs[i].length > 0 then Word(inputs[i].address) else Word(0)
    case LengthRole =>
      if i > 0 && inputs[i - 1].Bytes? then Word(ConvertLength(slots[i].goType, inputs[i - 1].length)) else Word(0)
    case PlainRole => inputs[i]
  }

  function OriginalArguments(slots: seq<Slot>, inputs: seq<GoValue>): seq<GoValue>
    requires |slots| == |inputs|
  {
    seq(|slots|, i requires 0 <= i < |slots| => OriginalArgument(slots, inputs, i))
  }

  function GoTypes(slots: seq<Slot>): seq<string> {
    seq(|slots|, i requires 0 <= i < |slots| => slots[i].goType)
  }

  lemma {:induction false} SliceLocals(slots: seq<Slot>, inputs: seq<GoValue>, e: map<string, GoValue>, i: nat)
    requires Declared(slots, inputs, e) && i < |slots| && slots[i].role == PointerRole
    ensures var f := SetPointers(e, ExpectedSlices(slots)); var x := slots[i].name;
      && PointerLocal(x) in f && f[PointerLocal(x)] == Word(if inputs[i].length > 0 then inputs[i].address else 0)
      && LengthLocal(x) in f && f[LengthLocal(x)] == inputs[i]
  {
    var slices, env := ExpectedSlices(slots), Bindings(slots, inputs);
    var x := slots[i].name;
    SlicesAreBound(slots, inputs);
    BoundValue(slots, inputs, i);
    var k := SlotSlice(slots, i);
    DeclareSets(env, slices, k);
    SetPointersAt(e, slices, k);
    forall l | 0 <= l < |slices| ensures LengthLocal(x) != PointerLocal(slices[l]) {
      LocalNamesDistinct(slices[l], x);
    }
    SetPointersKeeps(e, slices, LengthLocal(x));
  }

  lemma {:induction false} PlainKept(slots: seq<Slot>, inputs: seq<GoValue>, e: map<string, GoValue>, i: nat)
    requires Declared(slots, inputs, e) && i < |slots| && slots[i].role == PlainRole
    ensures var f := SetPointers(e, ExpectedSlices(slots)); slots[i].name in f && f[slots[i].name] == inputs[i]
  {
    var slices, env := ExpectedSlices(slots), Bindings(slots, inputs);
    var x := slots[i].name;
    SlicesAreBound(slots, inputs);
    DeclaredIffFree(env, slices);
    BoundValue(slots, inputs, i);
    DeclareKeeps(env, slices, x);
    SetPointersKeeps(e, slices, x);
  }

  /** A length needs `len` and its type; the other arguments always have their values. */
  ghost predicate Convertible(slots: seq<Slot>, i: nat)
    requires i < |slots|
  {
    slots[i].role == LengthRole ==>
      NotBorne("len", slots) && IsIdentifier(slots[i].ty) && NotBorne(slots[i].ty, slots)
  }

  lemma {:induction false} SlotArgument(slots: seq<Slot>, inputs: seq<GoValue>, e: map<string, GoValue>, i: nat)
    requires Declared(slots, inputs, e) && i < |slots|
    ensures EvalArgument(ExpectedArgument(slots, i), slots[i].goType, SetPointers(e, ExpectedSlices(slots)))
         == if Convertible(slots, i) then Some(OriginalArgument(slots, inputs, i)) else None
  {
    match slots[i].role {
      case PointerRole => SliceLocals(slots, inputs, e, i);
      case LengthRole =>
        SliceLocals(slots, inputs, e, i - 1);
        NamesKept(slots, inputs, e, "len");
        NamesKept(slots, inputs, e, slots[i].ty);
      case PlainRole => PlainKept(slots, inputs, e, i);
    }
  }

  ghost predicate AllConvertible(slots: seq<Slot>, n: nat)
    requires n <= |slots|
  {
    forall i :: 0 <= i < n ==> Convertible(slots, i)
  }

  lemma {:induction false} SlotArguments(slots: seq<Slot>, inputs: seq<GoValue>, e: map<string, GoValue>, n: nat)
    requires Declared(slots, inputs, e) && n <= |slots|
    ensures EvalArguments(ExpectedArguments(slots, n), GoTypes(slots)[..n], SetPointers(e, ExpectedSlices(slots)))
         == if AllConvertible(slots, n) then Some(OriginalArguments(slots, inputs)[..n]) else None
  {
    if n == 0 {
      assert OriginalArguments(slots, inputs)[..0] == [];
    } else {
      SlotArguments(slots, inputs, e, n - 1);
      SlotArgument(slots, inputs, e, n - 1);
      EvalSnoc(ExpectedArguments(slots, n - 1), GoTypes(slots)[..n - 1], SetPointers(e, ExpectedSlices(slots)),
               ExpectedArgument(slots, n - 1), slots[n - 1].goType);
      PrefixesSnoc(slots, inputs, n);
    }
  }

  lemma {:induction false} PrefixesSnoc(slots: seq<Slot>, inputs: seq<GoValue>, n: nat)
    requires 0 < n <= |slots| == |inputs|
    ensures GoTypes(slots)[..n] == GoTypes(slots)[..n - 1] + [slots[n - 1].goType]
    ensures OriginalArguments(slots, inputs)[..n]
         == OriginalArguments(slots, inputs)[..n - 1] + [OriginalArgument(slots, inputs, n - 1)]
    ensures AllConvertible(slots, n) <==> AllConvertible(slots, n - 1) && Convertible(slots, n - 1)
  {
  }

  lemma {:induction false} EvalSnoc(
    args: seq<Argument>, goTypes: seq<string>, env: map<string, GoValue>, arg: Argument, goType: string)
    requires |args| == |goTypes|
    ensures EvalArguments(args + [arg], goTypes + [goType], env) ==
      match (EvalArguments(args, goTypes, env), EvalArgument(arg, goType, env))
      case (Some(values), Some(value)) => Some(values + [value])
      case _ => None
  {
    assert (args + [arg])[..|args|] == args && (goTypes + [goType])[..|goTypes|] == goTypes;
  }

  lemma {:induction false} ConvertibleExactly(slots: seq<Slot>)
    requires ProperSlots(slots) && (HasSlice(slots) ==> NotBorne("len", slots))
    ensures AllConvertible(slots, |slots|) <==>
      forall i {:trigger slots[i]} :: 0 <= i < |slots| && slots[i].role == LengthRole ==>
        IsIdentifier(slots[i].ty) && NotBorne(slots[i].ty, slots)
  {
    LengthsHaveSlices(slots);
    forall i | 0 <= i < |slots| && slots[i].role == LengthRole
      ensures Convertible(slots, i) <==> IsIdentifier(slots[i].ty) && NotBorne(slots[i].ty, slots)
    {
    }
  }

  lemma {:induction false} AllArguments(slots: seq<Slot>, inputs: seq<GoValue>, e: map<string, GoValue>)
    requires Declared(slots, inputs, e)
    ensures EvalArguments(ExpectedArguments(slots, |slots|), GoTypes(slots), SetPointers(e, ExpectedSlices(slots)))
         == if AllConvertible(slots, |slots|) then Some(OriginalArguments(slots, inputs)) else None
  {
    SlotArguments(slots, inputs, e, |slots|);
    assert GoTypes(slots)[..|slots|] == GoTypes(slots);
    assert OriginalArguments(slots, inputs)[..|slots|] == OriginalArguments(slots, inputs);
  }

  /** Go accepts the body exactly under the condition on names, and then the body hands over exactly
      the arguments that the original function is meant to receive. */
  lemma {:induction false} WrapperCompilesIffNoCapture(slots: seq<Slot>, inputs: seq<GoValue>, target: string)
    requires ProperSlots(slots) && WellTyped(slots, inputs)
    ensures RunBody(RoleWrapper(slots), GoTypes(slots), Bindings(slots, inputs), target)
         == if NoCapture(slots, target) then Some(OriginalArguments(slots, inputs)) else None
  {
    var slices, env := ExpectedSlices(slots), Bindings(slots, inputs);
    EnvironmentExactly(slots, inputs);
    if CallEnvironment(env, slices).Some? {
      var e := DeclareLocals(env, slices).value;
      NamesKept(slots, inputs, e, target);
      AllArguments(slots, inputs, e);
      ConvertibleExactly(slots);
    }
  }

  lemma {:induction false} LengthsHaveSlices(slots: seq<Slot>)
    requires ProperSlots(slots)
    ensures forall i {:trigger slots[i]} :: 0 <= i < |slots| && slots[i].role == LengthRole ==> HasSlice(slots)
  {
    forall i | 0 <= i < |slots| && slots[i].role == LengthRole ensures HasSlice(slots) {
      assert slots[i - 1].role == PointerRole;
    }
  }

  /** The generated wrapper calls the original function with the arguments it is meant to receive: each
      slice as its address (0 when empty) and its length, everything else unchanged; or it is rejected
      by Go, exactly when a name is captured. */
  lemma {:induction false} WrapperPreservesCall(params: seq<Param>, inputs: seq<GoValue>, target: string)
    requires Wrappable(params) && WellTyped(Slots(params), inputs)
    ensures |DetectedWrapper(params).args| == |params|
    ensures RunBody(DetectedWrapper(params), GoTypes(Slots(params)), Bindings(Slots(params), inputs), target)
         == if NoCapture(Slots(params), target) then Some(OriginalArguments(Slots(params), inputs)) else None
  {
    WrapperShape(params);
    SlotsAreProper(params);
    WrapperCompilesIffNoCapture(Slots(params), inputs, target);
  }

  // ---- captured names ----

  /** A pointer, its length and at most one more parameter, with different usable names. */
  ghost predicate OnePair(params: seq<Param>) {
    && 2 <= |params| <= 3 && NamedDiffer(params)
    && (forall i {:trigger params[i]} :: 0 <= i < |params| ==> UsableName(params[i].name))
    && Eligible(params, 0)
  }

  lemma {:induction false} OnePairDetected(params: seq<Param>)
    requires OnePair(params)
    ensures DetectedPositions(params) == [0] && Wrappable(params)
  {
    var flags := EligibleFlags(params);
    assert PairPositions(flags, 2) == [] by {
      if |params| == 3 {
        assert !flags[2] && PairPositions(flags, 3) == [];
      }
    }
    assert flags[0] && PairPositions(flags, 0) == [0] + [];
  }

  lemma {:induction false} OnePairSlots(params: seq<Param>)
    requires OnePair(params)
    ensures Wrappable(params)
    ensures forall i {:trigger Slots(params)[i]} :: 0 <= i < |params| ==>
      Slots(params)[i] == Slot(params[i].name, params[i].ty, params[i].goType,
                               if i == 0 then PointerRole else if i == 1 then LengthRole else PlainRole)
  {
    OnePairDetected(params);
    forall i | 0 <= i < |params| ensures Resolve(params)[i].name == params[i].name {
      UsableNamesKept(params, i);
    }
  }

  /** `f(const void *<pointer>, size_t n, int <other>)`, whatever the C types of the last two */
  function PointerLengthOther(voidPointer: string, plain: string, pointer: string, other: string): seq<Param> {
    [Param(pointer, voidPointer, "uintptr", "uintptr"), Param("n", plain, "uint64", "uint64"),
     Param(other, plain, "int32", "int32")]
  }

  lemma {:induction false} ThreeParams(params: seq<Param>)
    requires |params| == 3 && UsableName(params[0].name) && UsableName(params[1].name) && UsableName(params[2].name)
    requires params[0].name != params[1].name && params[0].name != params[2].name && params[1].name != params[2].name
    requires Eligible(params, 0)
    ensures OnePair(params)
  {
  }

  lemma {:induction false} PointerLengthOtherIsPair(voidPointer: string, plain: string, pointer: string, other: string)
    requires IsPointerType(voidPointer) && UsableName(pointer) && UsableName(other)
    requires |pointer| > 1 && |other| > 1 && pointer != other
    ensures OnePair(PointerLengthOther(voidPointer, plain, pointer, other))
  {
    LetterUsable();
    ThreeParams(PointerLengthOther(voidPointer, plain, pointer, other));
  }

  lemma {:induction false} PointerLengthOtherSlots(voidPointer: string, plain: string, pointer: string, other: string)
    requires IsPointerType(voidPointer) && UsableName(pointer) && UsableName(other)
    requires |pointer| > 1 && |other| > 1 && pointer != other
    ensures var params := PointerLengthOther(voidPointer, plain, pointer, other);
      Wrappable(params) && Slots(params) == [Slot(pointer, "uintptr", "uintptr", PointerRole),
                                             Slot("n", "uint64", "uint64", LengthRole),
                                             Slot(other, "int32", "int32", PlainRole)]
  {
    var params := PointerLengthOther(voidPointer, plain, pointer, other);
    PointerLengthOtherIsPair(voidPointer, plain, pointer, other);
    OnePairSlots(params);
    var slots := Slots(params);
    assert slots == [slots[0], slots[1], slots[2]];
  }

  lemma {:induction false} LetterUsable()
    ensures UsableName("n") && |"n"| == 1
  {
  }

  lemma {:induction false} TheirNamesUsable()
    ensures UsableName("src") && UsableName("src_len") && UsableName("buf") && UsableName("len")
    ensures LengthLocal("src") == "src_len"
    ensures "src" != "src_len" && "buf" != "len"
  {
  }

  /** `f(const void *src, size_t n, int src_len)`: the local `src_len` clashes with the parameter. */
  lemma {:induction false} CapturedLocal(voidPointer: string, plain: string, target: string)
    requires IsPointerType(voidPointer)
    ensures var params := PointerLengthOther(voidPointer, plain, "src", "src_len");
      Wrappable(params) && !NoCapture(Slots(params), target)
  {
    TheirNamesUsable();
    PointerLengthOtherSlots(voidPointer, plain, "src", "src_len");
    ParameterTakesLocal(Slots(PointerLengthOther(voidPointer, plain, "src", "src_len")), 0, 2, target);
  }

  lemma {:induction false} ParameterTakesLocal(slots: seq<Slot>, i: nat, j: nat, target: string)
    requires i < |slots| && j < |slots| && slots[i].role == PointerRole && slots[j].role != LengthRole
    requires slots[j].name == LengthLocal(slots[i].name)
    ensures !NoCapture(slots, target)
  {
  }

  lemma {:induction false} ParameterTakesLen(slots: seq<Slot>, i: nat, j: nat, target: string)
    requires i < |slots| && j < |slots| && slots[i].role == PointerRole && slots[j].role != LengthRole
    requires slots[j].name == "len"
    ensures !NoCapture(slots, target)
  {
    assert HasSlice(slots) && Bears(slots[j], "len");
  }

  lemma {:induction false} ShortNamesFree(slots: seq<Slot>)
    requires forall i {:trigger slots[i]} :: 0 <= i < |slots| && slots[i].role != LengthRole ==> |slots[i].name| < 4
    ensures LocalsFree(slots)
  {
    forall i, j | 0 <= i < |slots| && 0 <= j < |slots| && slots[i].role == PointerRole && slots[j].role != LengthRole
      ensures slots[j].name != PointerLocal(slots[i].name) && slots[j].name != LengthLocal(slots[i].name)
    {
      assert |PointerLocal(slots[i].name)| >= 4 && |LengthLocal(slots[i].name)| >= 4;
    }
  }

  lemma {:induction false} LenSlots(slots: seq<Slot>, pointer: string, target: string)
    requires |pointer| == 3 && slots == [Slot(pointer, "uintptr", "uintptr", PointerRole),
                                         Slot("n", "uint64", "uint64", LengthRole),
                                         Slot("len", "int32", "int32", PlainRole)]
    ensures LocalsFree(slots) && !NoCapture(slots, target)
  {
    ParameterTakesLen(slots, 0, 2, target);
    assert |slots[2].name| == 3;
    ShortNamesFree(slots);
  }

  /** `f(const void *buf, size_t n, int len)`: the body's `len(buf_len)` meets the parameter `len`. */
  lemma {:induction false} CapturedLen(voidPointer: string, plain: string, target: string)
    requires IsPointerType(voidPointer)
    ensures var params := PointerLengthOther(voidPointer, plain, "buf", "len");
      Wrappable(params) && LocalsFree(Slots(params)) && !NoCapture(Slots(params), target)
  {
    TheirNamesUsable();
    PointerLengthOtherSlots(voidPointer, plain, "buf", "len");
    LenSlots(Slots(PointerLengthOther(voidPointer, plain, "buf", "len")), "buf", target);
  }

  /** `f(const void *p, foo_t *q)`: the second pointer counts as a length, and `*foo_t(len(p_len))` is no
      conversion. */
  lemma {:induction false} PointerAsLength(voidPointer: string, target: string)
    requires IsPointerType(voidPointer)
    ensures var params := [Param("p", voidPointer, "uintptr", "uintptr"), Param("q", "foo_t *", "uintptr", "*foo_t")];
      Wrappable(params) && !NoCapture(Slots(params), target)
  {
    var params := [Param("p", voidPointer, "uintptr", "uintptr"), Param("q", "foo_t *", "uintptr", "*foo_t")];
    assert params[0].name[0] != params[1].name[0] && UsableName("p") && UsableName("q");
    OnePairSlots(params);
    assert Slots(params)[1] == Slot("q", "*foo_t", "uintptr", LengthRole) && "*foo_t"[0] == '*';
  }

  /** The length that arrives is the slice's length modulo 2^32 in a 32-bit parameter, and the length
      itself exactly when it fits the parameter's type. */
  lemma {:induction false} LengthArrives(goType: string, n: nat)
    requires n < 0x8000_0000_0000_0000
    ensures (ConvertLength(goType, n) - n) % 0x1_0000_0000 == 0
    ensures goType == "int32" ==> -0x8000_0000 <= ConvertLength(goType, n) < 0x8000_0000
    ensures goType == "uint32" ==> 0 <= ConvertLength(goType, n) < 0x1_0000_0000
    ensures ConvertLength(goType, n) == n <==>
      !(goType == "int32" && n >= 0x8000_0000) && !(goType == "uint32" && n >= 0x1_0000_0000)
  {
  }
}
