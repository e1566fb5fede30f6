/** When the result of parsing a data source name depends on Go's map iteration order, and when the
    URI flag is set. */
module SqliteDsnConfluence {
  import opened SqliteDsn
  import opened Options

  predicate IsOption(s: Setting) {
    !(s.Mode? || s.Cache? || s.Other?)
  }

  /** The configuration field of an option, in the form of a parsed value. */
  function FieldOf(cfg: Config, s: Setting): Parsed {
    match s
    case BusyTimeout => TimeoutValue(cfg.busyTimeout)
    case ForeignKeys => BoolValue(cfg.foreignKeys)
    case JournalMode => TextValue(cfg.journalMode)
    case Synchronous => TextValue(cfg.synchronous)
    case TxLock => TextValue(cfg.txLock)
    case Loc => LocationValue(cfg.location)
    case _ => NotAnOption
  }

  predicate KeysIn(order: seq<string>, values: Values) {
    forall i {:trigger order[i]} :: 0 <= i < |order| ==> order[i] in values
  }

  /** The last key of the order that sets the option. */
  function LastFor(order: seq<string>, s: Setting): Option<string> {
    if order == [] then None
    else if SettingOf(order[|order| - 1]) == s then Some(order[|order| - 1])
    else LastFor(order[..|order| - 1], s)
  }

  lemma {:induction false} LastForExact(order: seq<string>, s: Setting)
    ensures LastFor(order, s).Some? ==> LastFor(order, s).value in order && SettingOf(LastFor(order, s).value) == s
    ensures LastFor(order, s).None? ==> forall key :: key in order ==> SettingOf(key) != s
  {
    if order != [] {
      var n := |order| - 1;
      LastForExact(order[..n], s);
      assert order == order[..n] + [order[n]];
    }
  }

  lemma {:induction false} StepField(st: State, key: string, values: Values, lib: Library, s: Setting)
    requires key in values && IsOption(s)
    ensures Step(st, key, values, lib).Err? <==> ParsedOf(key, values, lib).Invalid?
    ensures Step(st, key, values, lib).Err? ==>
      ParsedOf(key, values, lib) == Invalid(Step(st, key, values, lib).error)
    ensures Step(st, key, values, lib).Ok? ==>
      FieldOf(Step(st, key, values, lib).value.cfg, s)
      == if SettingOf(key) == s then ParsedOf(key, values, lib) else FieldOf(st.cfg, s)
  {
  }

  ghost predicate HasInvalid(order: seq<string>, values: Values, lib: Library)
    requires KeysIn(order, values)
  {
    exists i {:trigger order[i]} :: 0 <= i < |order| && ParsedOf(order[i], values, lib).Invalid?
  }

  lemma {:induction false} HasInvalidSnoc(order: seq<string>, values: Values, lib: Library)
    requires KeysIn(order, values) && order != []
    ensures var init := order[..|order| - 1];
      KeysIn(init, values)
      && (HasInvalid(order, values, lib) <==>
            HasInvalid(init, values, lib) || ParsedOf(order[|order| - 1], values, lib).Invalid?)
  {
    var init := order[..|order| - 1];
    forall i | 0 <= i < |init| ensures init[i] == order[i] {}
    if HasInvalid(init, values, lib) {
      var i :| 0 <= i < |init| && ParsedOf(init[i], values, lib).Invalid?;
      assert order[i] == init[i];
    }
  }

  /** The first invalid value of the order has this error. */
  ghost predicate FirstInvalid(order: seq<string>, values: Values, lib: Library, e: DsnError)
    requires KeysIn(order, values)
  {
    exists i {:trigger order[i]} :: 0 <= i < |order|
      && ParsedOf(order[i], values, lib) == Invalid(e)
      && forall j {:trigger order[j]} :: 0 <= j < i ==> !ParsedOf(order[j], values, lib).Invalid?
  }

  lemma {:induction false} FirstInvalidSnoc(order: seq<string>, values: Values, lib: Library, e: DsnError)
    requires KeysIn(order, values) && order != [] && KeysIn(order[..|order| - 1], values)
    requires var init := order[..|order| - 1];
      FirstInvalid(init, values, lib, e)
      || (!HasInvalid(init, values, lib) && ParsedOf(order[|order| - 1], values, lib) == Invalid(e))
    ensures FirstInvalid(order, values, lib, e)
  {
    var n := |order| - 1;
    forall i | 0 <= i < n ensures order[..n][i] == order[i] {}
    var i := n;
    if FirstInvalid(order[..n], values, lib, e) {
      i :| 0 <= i < n && ParsedOf(order[..n][i], values, lib) == Invalid(e)
        && forall j {:trigger order[..n][j]} :: 0 <= j < i ==> !ParsedOf(order[..n][j], values, lib).Invalid?;
    }
    forall j | 0 <= j < i ensures !ParsedOf(order[j], values, lib).Invalid? {
      assert order[..n][j] == order[j];
    }
    assert ParsedOf(order[i], values, lib) == Invalid(e);
  }

  /** An order fails exactly when some key has an invalid value, with the error of the first such. */
  lemma {:induction false} RunFailsIffInvalid(st: State, order: seq<string>, values: Values, lib: Library)
    requires KeysIn(order, values)
    ensures Run(st, order, values, lib).Err? <==> HasInvalid(order, values, lib)
    ensures Run(st, order, values, lib).Err? ==> FirstInvalid(order, values, lib, Run(st, order, values, lib).error)
  {
    if order != [] {
      var n := |order| - 1;
      HasInvalidSnoc(order, values, lib);
      RunFailsIffInvalid(st, order[..n], values, lib);
      RunFailsAtLast(st, order, values, lib);
      if Run(st, order, values, lib).Err? {
        FirstInvalidSnoc(order, values, lib, Run(st, order, values, lib).error);
      }
    }
  }

  lemma {:induction false} RunFailsAtLast(st: State, order: seq<string>, values: Values, lib: Library)
    requires KeysIn(order, values) && order != [] && KeysIn(order[..|order| - 1], values)
    ensures var before, last := Run(st, order[..|order| - 1], values, lib), ParsedOf(order[|order| - 1], values, lib);
      && (Run(st, order, values, lib).Err? <==> before.Err? || last.Invalid?)
      && (before.Err? ==> Run(st, order, values, lib) == before)
      && (before.Ok? && last.Invalid? ==> Run(st, order, values, lib) == Err(last.error))
  {
    var n := |order| - 1;
    if Run(st, order[..n], values, lib).Ok? {
      StepField(Run(st, order[..n], values, lib).value, order[n], values, lib, TxLock);
    }
  }

  /** An option has the value of the last key that sets it. */
  lemma {:induction false} RunFields(st: State, order: seq<string>, values: Values, lib: Library, s: Setting)
    requires KeysIn(order, values) && IsOption(s) && Run(st, order, values, lib).Ok?
    ensures FieldOf(Run(st, order, values, lib).value.cfg, s) ==
      if LastFor(order, s).None? then FieldOf(st.cfg, s)
      else (LastForExact(order, s); ParsedOf(LastFor(order, s).value, values, lib))
  {
    if order != [] {
      var n := |order| - 1;
      RunFields(st, order[..n], values, lib, s);
      StepField(Run(st, order[..n], values, lib).value, order[n], values, lib, s);
    }
  }

  predicate AnyForcesUri(order: seq<string>) {
    exists i {:trigger order[i]} :: 0 <= i < |order| && ForcesUri(order[i])
  }

  lemma {:induction false} StepFlags(st: State, key: string, values: Values, lib: Library)
    requires key in values && Step(st, key, values, lib).Ok?
    ensures Step(st, key, values, lib).value.cfg.flags ==
      if key == "mode" && ModeFlags(FirstValue(values[key])).Some? then ModeFlags(FirstValue(values[key])).value
      else st.cfg.flags + if ForcesUri(key) then {Uri} else {}
    ensures key == "mode" ==>
      ModeFlags(FirstValue(values[key])).Some? && Uri in ModeFlags(FirstValue(values[key])).value && !ForcesUri(key)
  {
  }

  lemma {:induction false} MembersSnoc(init: seq<string>, key: string)
    ensures "mode" in init + [key] <==> "mode" in init || key == "mode"
    ensures AnyForcesUri(init + [key]) <==> AnyForcesUri(init) || ForcesUri(key)
  {
    var order := init + [key];
    forall i | 0 <= i < |init| ensures order[i] == init[i] {}
    assert order[|init|] == key;
  }

  /** The flags depend only on which keys there are. */
  lemma {:induction false} RunFlags(name: string, order: seq<string>, values: Values, lib: Library)
    requires KeysIn(order, values) && Run(Start(name), order, values, lib).Ok?
    ensures "mode" in order ==> "mode" in values && ModeFlags(FirstValue(values["mode"])).Some?
    ensures Run(Start(name), order, values, lib).value.cfg.flags ==
      if "mode" in order then ModeFlags(FirstValue(values["mode"])).value
      else {ReadWrite, Create, FullMutex} + if AnyForcesUri(order) then {Uri} else {}
    ensures "mode" in order ==> Uri in ModeFlags(FirstValue(values["mode"])).value
  {
    if order != [] {
      var n := |order| - 1;
      var init, key := order[..n], order[n];
      forall i | 0 <= i < n ensures init[i] == order[i] {}
      RunFlags(name, init, values, lib);
      MembersSnoc(init, key);
      assert order == init + [key];
      var before := Run(Start(name), init, values, lib).value;
      StepFlags(before, key, values, lib);
    }
  }

  lemma {:induction false} StepPreserved(st: State, last: string, values: Values, lib: Library)
    requires last in values && Step(st, last, values, lib).Ok?
    ensures Step(st, last, values, lib).value.preserved ==
      if IsPreserved(last) then st.preserved[last := values[last]] else st.preserved
  {
  }

  lemma {:induction false} RunPreserved(name: string, order: seq<string>, values: Values, lib: Library, key: string)
    requires KeysIn(order, values) && Run(Start(name), order, values, lib).Ok?
    ensures key in Run(Start(name), order, values, lib).value.preserved <==> key in order && IsPreserved(key)
    ensures key in Run(Start(name), order, values, lib).value.preserved ==>
      key in values && Run(Start(name), order, values, lib).value.preserved[key] == values[key]
  {
    if order != [] {
      var n := |order| - 1;
      RunPreserved(name, order[..n], values, lib, key);
      StepPreserved(Run(Start(name), order[..n], values, lib).value, order[n], values, lib);
      assert key in order <==> key in order[..n] || key == order[n];
    }
  }

  // ---- confluence ----

  /** Keys that set the same option have the same parsed value. */
  ghost predicate AliasesAgree(values: Values, lib: Library) {
    forall k, l :: k in values && l in values && SettingOf(k) == SettingOf(l) && IsOption(SettingOf(k)) ==>
      ParsedOf(k, values, lib) == ParsedOf(l, values, lib)
  }

  ghost predicate SomeInvalid(values: Values, lib: Library) {
    exists k :: k in values && ParsedOf(k, values, lib).Invalid?
  }

  lemma {:induction false} FailsIffSomeInvalid(name: string, order: seq<string>, values: Values, lib: Library)
    requires Enumerates(order, values)
    ensures Outcome(name, order, values, lib).Err? <==> SomeInvalid(values, lib)
  {
    RunFailsIffInvalid(Start(name), order, values, lib);
    if SomeInvalid(values, lib) {
      var k :| k in values && ParsedOf(k, values, lib).Invalid?;
      assert k in order;
    }
  }

  /** The values that the order gives to option s agree. */
  lemma {:induction false} FieldsAgree(
    name: string, q: seq<string>, r: seq<string>, values: Values, lib: Library, s: Setting)
    requires Enumerates(q, values) && Enumerates(r, values) && AliasesAgree(values, lib) && IsOption(s)
    requires Run(Start(name), q, values, lib).Ok? && Run(Start(name), r, values, lib).Ok?
    ensures FieldOf(Run(Start(name), q, values, lib).value.cfg, s)
         == FieldOf(Run(Start(name), r, values, lib).value.cfg, s)
  {
    RunFields(Start(name), q, values, lib, s);
    RunFields(Start(name), r, values, lib, s);
    LastForExact(q, s);
    LastForExact(r, s);
  }

  lemma {:induction false} FilenameUntouched(st: State, order: seq<string>, values: Values, lib: Library)
    requires KeysIn(order, values) && Run(st, order, values, lib).Ok?
    ensures Run(st, order, values, lib).value.cfg.filename == st.cfg.filename
  {
    if order != [] {
      FilenameUntouched(st, order[..|order| - 1], values, lib);
    }
  }

  lemma {:induction false} RunsAgree(name: string, q: seq<string>, r: seq<string>, values: Values, lib: Library)
    requires Enumerates(q, values) && Enumerates(r, values) && AliasesAgree(values, lib)
    requires Run(Start(name), q, values, lib).Ok? && Run(Start(name), r, values, lib).Ok?
    ensures Run(Start(name), q, values, lib) == Run(Start(name), r, values, lib)
  {
    var a, b := Run(Start(name), q, values, lib).value, Run(Start(name), r, values, lib).value;
    FieldsAgree(name, q, r, values, lib, BusyTimeout);
    FieldsAgree(name, q, r, values, lib, ForeignKeys);
    FieldsAgree(name, q, r, values, lib, JournalMode);
    FieldsAgree(name, q, r, values, lib, Synchronous);
    FieldsAgree(name, q, r, values, lib, TxLock);
    FieldsAgree(name, q, r, values, lib, Loc);
    RunFlags(name, q, values, lib);
    RunFlags(name, r, values, lib);
    FilenameUntouched(Start(name), q, values, lib);
    FilenameUntouched(Start(name), r, values, lib);
    forall key ensures key in a.preserved <==> key in b.preserved
               ensures key in a.preserved ==> a.preserved[key] == b.preserved[key] {
      RunPreserved(name, q, values, lib, key);
      RunPreserved(name, r, values, lib, key);
    }
    assert a.preserved == b.preserved;
  }

  /** The i-th and the p-th element change places. */
  function Swap(order: seq<string>, i: nat, p: nat): (swapped: seq<string>)
    requires i < |order| && p < |order|
    ensures |swapped| == |order| && swapped[p] == order[i]
    ensures forall k :: 0 <= k < |order| ==> swapped[k] == order[if k == p then i else if k == i then p else k]
  {
    order[i := order[p]][p := order[i]]
  }

  lemma {:induction false} SwapEnumerates(order: seq<string>, values: Values, i: nat, p: nat)
    requires Enumerates(order, values) && i < |order| && p < |order|
    ensures Enumerates(Swap(order, i, p), values)
  {
    var swapped := Swap(order, i, p);
    forall key | key in values ensures key in swapped {
      var k :| 0 <= k < |order| && order[k] == key;
      assert swapped[if k == p then i else if k == i then p else k] == key;
    }
  }

  /** An order with the key at the given place. */
  lemma {:induction false} MoveTo(order: seq<string>, key: string, values: Values, p: nat) returns (moved: seq<string>)
    requires Enumerates(order, values) && key in values && p < |order|
    ensures Enumerates(moved, values) && |moved| == |order| && moved[p] == key
  {
    var i :| 0 <= i < |order| && order[i] == key;
    SwapEnumerates(order, values, i, p);
    moved := Swap(order, i, p);
  }

  lemma {:induction false} LastKeyDecides(name: string, order: seq<string>, values: Values, lib: Library, key: string)
    requires Enumerates(order, values) && order != [] && order[|order| - 1] == key && IsOption(SettingOf(key))
    requires Outcome(name, order, values, lib).Ok?
    ensures FieldOf(Outcome(name, order, values, lib).value, SettingOf(key)) == ParsedOf(key, values, lib)
  {
    RunFields(Start(name), order, values, lib, SettingOf(key));
  }

  /** All iteration orders give the same outcome: the same error or the same configuration. */
  ghost predicate Confluent(name: string, values: Values, lib: Library) {
    forall q, r :: Enumerates(q, values) && Enumerates(r, values) ==>
      Outcome(name, q, values, lib) == Outcome(name, r, values, lib)
  }

  ghost predicate ErrorsAgree(values: Values, lib: Library) {
    forall k, l ::
      k in values && l in values && ParsedOf(k, values, lib).Invalid? && ParsedOf(l, values, lib).Invalid? ==>
      ParsedOf(k, values, lib) == ParsedOf(l, values, lib)
  }

  lemma {:induction false} ErrorOfSomeKey(name: string, order: seq<string>, values: Values, lib: Library)
    returns (key: string)
    requires Enumerates(order, values) && SomeInvalid(values, lib)
    ensures key in values && Outcome(name, order, values, lib).Err?
    ensures ParsedOf(key, values, lib) == Invalid(Outcome(name, order, values, lib).error)
  {
    FailsIffSomeInvalid(name, order, values, lib);
    RunFailsIffInvalid(Start(name), order, values, lib);
    var e := Outcome(name, order, values, lib).error;
    var i :| 0 <= i < |order| && ParsedOf(order[i], values, lib) == Invalid(e);
    key := order[i];
  }

  lemma {:induction false} FirstKeyDecides(name: string, order: seq<string>, values: Values, lib: Library)
    requires Enumerates(order, values) && order != [] && ParsedOf(order[0], values, lib).Invalid?
    ensures Outcome(name, order, values, lib) == Err(ParsedOf(order[0], values, lib).error)
  {
    RunFailsIffInvalid(Start(name), order, values, lib);
    assert HasInvalid(order, values, lib);
    var e := Outcome(name, order, values, lib).error;
    var i :| 0 <= i < |order| && ParsedOf(order[i], values, lib) == Invalid(e)
      && forall j {:trigger order[j]} :: 0 <= j < i ==> !ParsedOf(order[j], values, lib).Invalid?;
    assert i == 0;
  }

  lemma {:induction false} ConfluentWhenInvalid(name: string, some: seq<string>, values: Values, lib: Library)
    requires Enumerates(some, values) && SomeInvalid(values, lib)
    ensures Confluent(name, values, lib) <==> ErrorsAgree(values, lib)
  {
    if ErrorsAgree(values, lib) {
      forall q, r | Enumerates(q, values) && Enumerates(r, values)
        ensures Outcome(name, q, values, lib) == Outcome(name, r, values, lib)
      {
        var k := ErrorOfSomeKey(name, q, values, lib);
        var l := ErrorOfSomeKey(name, r, values, lib);
      }
    }
    if Confluent(name, values, lib) {
      forall k, l |
        k in values && l in values && ParsedOf(k, values, lib).Invalid? && ParsedOf(l, values, lib).Invalid?
        ensures ParsedOf(k, values, lib) == ParsedOf(l, values, lib)
      {
        var q := MoveTo(some, k, values, 0);
        var r := MoveTo(some, l, values, 0);
        FirstKeyDecides(name, q, values, lib);
        FirstKeyDecides(name, r, values, lib);
      }
    }
  }

  lemma {:induction false} ConfluentWhenValid(name: string, some: seq<string>, values: Values, lib: Library)
    requires Enumerates(some, values) && !SomeInvalid(values, lib)
    ensures Confluent(name, values, lib) <==> AliasesAgree(values, lib)
  {
    if AliasesAgree(values, lib) {
      forall q, r | Enumerates(q, values) && Enumerates(r, values)
        ensures Outcome(name, q, values, lib) == Outcome(name, r, values, lib)
      {
        FailsIffSomeInvalid(name, q, values, lib);
        FailsIffSomeInvalid(name, r, values, lib);
        RunsAgree(name, q, r, values, lib);
      }
    }
    if Confluent(name, values, lib) {
      forall k, l | k in values && l in values && SettingOf(k) == SettingOf(l) && IsOption(SettingOf(k))
        ensures ParsedOf(k, values, lib) == ParsedOf(l, values, lib)
      {
        assert some != [];
        var q := MoveTo(some, k, values, |some| - 1);
        var r := MoveTo(some, l, values, |some| - 1);
        FailsIffSomeInvalid(name, q, values, lib);
        FailsIffSomeInvalid(name, r, values, lib);
        LastKeyDecides(name, q, values, lib, k);
        LastKeyDecides(name, r, values, lib, l);
      }
    }
  }

  /** Parsing is independent of the iteration order exactly when all invalid values have one error,
      or, without any, all spellings of one option carry the same value. */
  lemma {:induction false} ConfluentExactly(name: string, some: seq<string>, values: Values, lib: Library)
    requires Enumerates(some, values)
    ensures Confluent(name, values, lib) <==>
      if SomeInvalid(values, lib) then ErrorsAgree(values, lib) else AliasesAgree(values, lib)
  {
    if SomeInvalid(values, lib) {
      ConfluentWhenInvalid(name, some, values, lib);
    } else {
      ConfluentWhenValid(name, some, values, lib);
    }
  }

  /** `x?_fk=0&_foreign_keys=1` means one thing or the other, as the iteration goes. */
  lemma {:induction false} TwoSpellingsDisagree(name: string, lib: Library)
    ensures !Confluent(name, map["_fk" := ["0"], "_foreign_keys" := ["1"]], lib)
  {
    var values: Values := map["_fk" := ["0"], "_foreign_keys" := ["1"]];
    var order := ["_fk", "_foreign_keys"];
    assert ToLower("0") == "0" && ToLower("1") == "1";
    assert ParsedOf("_fk", values, lib) == BoolValue(Some(false));
    assert ParsedOf("_foreign_keys", values, lib) == BoolValue(Some(true));
    assert Enumerates(order, values) && order[0] != order[1];
    ConfluentExactly(name, order, values, lib);
  }

  /** `x?mode=a&_fk=b` fails with one error or the other. */
  lemma {:induction false} TwoErrorsDisagree(name: string, lib: Library)
    ensures !Confluent(name, map["mode" := ["a"], "_fk" := ["b"]], lib)
  {
    var values: Values := map["mode" := ["a"], "_fk" := ["b"]];
    var order := ["mode", "_fk"];
    assert ToLower("a") == "a" && ToLower("b") == "b";
    assert ParsedOf("mode", values, lib) == Invalid(UnknownMode("a"));
    assert ParsedOf("_fk", values, lib) == Invalid(BadBool("b"));
    assert Enumerates(order, values) && |order[0]| != |order[1]|;
    ConfluentExactly(name, order, values, lib);
  }

  /** With each option under at most one spelling only different errors depend on the order. */
  lemma {:induction false} SingleSpellingsAreConfluent(name: string, some: seq<string>, values: Values, lib: Library)
    requires Enumerates(some, values)
    requires forall k, l ::
      k in values && l in values && SettingOf(k) == SettingOf(l) && IsOption(SettingOf(k)) ==> k == l
    ensures Confluent(name, values, lib) <==> ErrorsAgree(values, lib)
  {
    ConfluentExactly(name, some, values, lib);
  }

  // ---- the URI flag ----

  /** A key that forces a URI, or a mode, leaves something to rebuild the name from. */
  lemma {:induction false} ForcedIsPreserved(name: string, order: seq<string>, values: Values, lib: Library)
    requires KeysIn(order, values) && Run(Start(name), order, values, lib).Ok?
    ensures "mode" in order || AnyForcesUri(order) ==> Run(Start(name), order, values, lib).value.preserved != map[]
  {
    if "mode" in order {
      RunPreserved(name, order, values, lib, "mode");
    }
    if i :| 0 <= i < |order| && ForcesUri(order[i]) {
      RunPreserved(name, order, values, lib, order[i]);
    }
  }

  lemma {:induction false} FlagsForced(name: string, order: seq<string>, values: Values, lib: Library)
    requires KeysIn(order, values) && Run(Start(name), order, values, lib).Ok?
    ensures Uri in Run(Start(name), order, values, lib).value.cfg.flags <==> "mode" in order || AnyForcesUri(order)
  {
    RunFlags(name, order, values, lib);
  }

  /** On success the URI flag is set exactly when the file name starts with "file:". */
  lemma {:induction false} UriFlagExact(name: string, order: seq<string>, values: Values, lib: Library)
    requires Enumerates(order, values) && Outcome(name, order, values, lib).Ok?
    ensures var cfg := Outcome(name, order, values, lib).value;
      Uri in cfg.flags <==> "file:" <= cfg.filename
  {
    var st := Run(Start(name), order, values, lib).value;
    FlagsForced(name, order, values, lib);
    ForcedIsPreserved(name, order, values, lib);
  }

  /** The in-memory default for the empty name is lost: the file name is always rebuilt from the part
      before the question mark, so it is ":memory:" only when that part is and nothing is preserved. */
  lemma {:induction false} MemoryNameExact(name: string, order: seq<string>, values: Values, lib: Library)
    requires Enumerates(order, values) && Outcome(name, order, values, lib).Ok?
    ensures Outcome(name, order, values, lib).value.filename == ":memory:" <==>
      SplitDSN(name).0 == ":memory:" && forall key :: key in values ==> !IsPreserved(key)
  {
    var st := Run(Start(name), order, values, lib).value;
    assert ":memory:"[0] != "file:"[0];
    if st.preserved != map[] {
      var key :| key in st.preserved;
      RunPreserved(name, order, values, lib, key);
    } else {
      forall key | key in values ensures !IsPreserved(key) {
        RunPreserved(name, order, values, lib, key);
      }
    }
  }

  lemma {:induction false} EmptyNameIsNotMemory(lib: Library)
    ensures Outcome("", [], map[], lib).Ok? && Outcome("", [], map[], lib).value.filename == ""
    ensures Start("").cfg.filename == ":memory:"
  {
    assert SplitDSN("").0 == "";
  }
}
