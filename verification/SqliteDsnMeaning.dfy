/** What the configuration of a data source name means, in terms of its text: keys, values and flags as
    the documentation of the driver spells them. */
module SqliteDsnMeaning {
  import opened SqliteDsn
  import opened SqliteDsnConfluence
  import opened Options
  import Decimal

  const TIMEOUT_KEYS := {"_busy_timeout", "_timeout"}
  const FOREIGN_KEYS_KEYS := {"_foreign_keys", "_fk"}
  const JOURNAL_KEYS := {"_journal_mode", "_journal"}
  const SYNCHRONOUS_KEYS := {"_synchronous", "_sync"}
  const TX_LOCK_KEYS := {"_txlock"}
  const LOCATION_KEYS := {"loc", "_loc"}
  const TRUE_WORDS := {"1", "true", "yes", "on"}
  const FALSE_WORDS := {"0", "false", "no", "off"}
  const MODES := {"ro", "rw", "rwc", "memory"}

  /** The keys of an option. */
  function KeysFor(s: Setting): set<string> {
    match s
    case BusyTimeout => TIMEOUT_KEYS
    case ForeignKeys => FOREIGN_KEYS_KEYS
    case JournalMode => JOURNAL_KEYS
    case Synchronous => SYNCHRONOUS_KEYS
    case TxLock => TX_LOCK_KEYS
    case Loc => LOCATION_KEYS
    case _ => {}
  }

  lemma {:induction false} KeysExact(key: string, s: Setting)
    ensures IsOption(s) ==> (SettingOf(key) == s <==> key in KeysFor(s))
    ensures SettingOf(key).Mode? <==> key == "mode"
    ensures IsPreserved(key) <==> Stays(key)
  {
  }

  // ---- the name ----

  /** The name is cut at its first question mark. */
  lemma {:induction false} SplitExact(name: string)
    ensures var (base, query) := SplitDSN(name);
      && '?' !in base
      && if '?' in name then name == base + "?" + query else name == base && query == ""
  {
    var i := IndexOf(name, '?');
    if i < |name| {
      assert name == name[..i] + [name[i]] + name[i + 1..];
    }
  }

  const LOWER := "abcdefghijklmnopqrstuvwxyz"
  const UPPER := "ABCDEFGHIJKLMNOPQRSTUVWXYZ"

  lemma {:induction false} Alphabet(i: nat)
    requires i < 26
    ensures LOWER[i] == ('a' as int + i) as char && UPPER[i] == ('A' as int + i) as char
  {
  }

  /** Case changes letter by letter and leaves other characters alone. */
  lemma {:induction false} CaseExact(c: char)
    ensures forall i :: 0 <= i < 26 ==> LowerChar(UPPER[i]) == LOWER[i] && UpperChar(LOWER[i]) == UPPER[i]
    ensures c !in UPPER ==> LowerChar(c) == c
    ensures c !in LOWER ==> UpperChar(c) == c
  {
    forall i | 0 <= i < 26 ensures LowerChar(UPPER[i]) == LOWER[i] && UpperChar(LOWER[i]) == UPPER[i] {
      Alphabet(i);
    }
    if 'A' <= c <= 'Z' {
      Alphabet(c as int - 'A' as int);
      assert UPPER[c as int - 'A' as int] == c;
    }
    if 'a' <= c <= 'z' {
      Alphabet(c as int - 'a' as int);
      assert LOWER[c as int - 'a' as int] == c;
    }
  }

  // ---- values ----

  /** A decimal integer with an optional sign. */
  predicate IsIntText(text: string, n: int) {
    || (text != "" && Decimal.AllDigits(text) && n == Decimal.Parse(text))
    || (|text| > 1 && text[0] == '+' && Decimal.AllDigits(text[1..]) && n == Decimal.Parse(text[1..]))
    || (|text| > 1 && text[0] == '-' && Decimal.AllDigits(text[1..]) && n + Decimal.Parse(text[1..]) == 0)
  }

  predicate IsInt64(n: int) {
    -0x8000_0000_0000_0000 <= n < 0x8000_0000_0000_0000
  }

  lemma {:induction false} AtoiExact(text: string, n: int)
    ensures Atoi(text) == Some(n) <==> IsIntText(text, n) && IsInt64(n)
  {
    if text != "" && Decimal.AllDigits(text) {
      assert Decimal.IsDigit(text[0]);
    }
  }

  /** The error that a key with a bad value gives. */
  ghost predicate IsBad(key: string, text: string, lib: Library, e: DsnError) {
    match e
    case BadTimeout(t) => key in TIMEOUT_KEYS && t == text && forall n :: IsIntText(text, n) ==> !IsInt64(n)
    case BadBool(t) =>
      key in FOREIGN_KEYS_KEYS && t == text && ToLower(text) !in TRUE_WORDS && ToLower(text) !in FALSE_WORDS
    case BadLocation(t) =>
      key in LOCATION_KEYS && t == text && text != "" && text != "auto" && lib.loadLocation(text).None?
    case UnknownMode(m) => key == "mode" && m == ToLower(text) && m !in MODES
    case BadQuery(_) => false
  }

  lemma {:induction false} BadExact(key: string, values: Values, lib: Library, e: DsnError)
    requires key in values
    ensures ParsedOf(key, values, lib) == Invalid(e) <==> IsBad(key, FirstValue(values[key]), lib, e)
  {
    TimeoutBad(FirstValue(values[key]));
  }

  lemma {:induction false} TimeoutBad(text: string)
    ensures Atoi(text).None? <==> forall n :: IsIntText(text, n) ==> !IsInt64(n)
  {
    forall n | IsIntText(text, n) ensures Atoi(text) == Some(n) <==> IsInt64(n) {
      AtoiExact(text, n);
    }
    if Atoi(text).Some? {
      AtoiExact(text, Atoi(text).value);
    }
  }

  /** The first key of the order with a bad value, and its error. */
  ghost predicate FirstBad(order: seq<string>, values: Values, lib: Library, e: DsnError)
    requires KeysIn(order, values)
  {
    exists i {:trigger order[i]} :: 0 <= i < |order|
      && IsBad(order[i], FirstValue(values[order[i]]), lib, e)
      && forall j, f {:trigger IsBad(order[j], FirstValue(values[order[j]]), lib, f)} :: 0 <= j < i ==>
           !IsBad(order[j], FirstValue(values[order[j]]), lib, f)
  }

  ghost predicate AnyBad(values: Values, lib: Library) {
    exists key, e :: key in values && IsBad(key, FirstValue(values[key]), lib, e)
  }

  lemma {:induction false} AnyBadExact(values: Values, lib: Library)
    ensures AnyBad(values, lib) <==> SomeInvalid(values, lib)
  {
    if SomeInvalid(values, lib) {
      var key :| key in values && ParsedOf(key, values, lib).Invalid?;
      BadExact(key, values, lib, ParsedOf(key, values, lib).error);
    }
    if AnyBad(values, lib) {
      var key, e :| key in values && IsBad(key, FirstValue(values[key]), lib, e);
      BadExact(key, values, lib, e);
    }
  }

  /** Parsing fails exactly when a value is bad, with the error of the first such in the order. */
  lemma {:induction false} FailsExactly(name: string, order: seq<string>, values: Values, lib: Library)
    requires Enumerates(order, values)
    ensures Outcome(name, order, values, lib).Err? <==> AnyBad(values, lib)
    ensures Outcome(name, order, values, lib).Err? ==>
      FirstBad(order, values, lib, Outcome(name, order, values, lib).error)
  {
    FailsIffSomeInvalid(name, order, values, lib);
    AnyBadExact(values, lib);
    RunFailsIffInvalid(Start(name), order, values, lib);
    if Outcome(name, order, values, lib).Err? {
      FirstInvalidBad(order, values, lib, Outcome(name, order, values, lib).error);
    }
  }

  lemma {:induction false} FirstInvalidBad(order: seq<string>, values: Values, lib: Library, e: DsnError)
    requires KeysIn(order, values) && FirstInvalid(order, values, lib, e)
    ensures FirstBad(order, values, lib, e)
  {
    var i :| 0 <= i < |order| && ParsedOf(order[i], values, lib) == Invalid(e)
      && forall j {:trigger order[j]} :: 0 <= j < i ==> !ParsedOf(order[j], values, lib).Invalid?;
    BadExact(order[i], values, lib, e);
    forall j, f | 0 <= j < i ensures !IsBad(order[j], FirstValue(values[order[j]]), lib, f) {
      BadExact(order[j], values, lib, f);
    }
  }

  // ---- the fields ----

  /** The last of the keys in the order. */
  ghost predicate LastOf(order: seq<string>, keys: set<string>, key: string) {
    && key in keys
    && exists i {:trigger order[i]} ::
         0 <= i < |order| && order[i] == key && forall j {:trigger order[j]} :: i < j < |order| ==> order[j] !in keys
  }

  ghost predicate NoneOf(order: seq<string>, keys: set<string>) {
    forall j {:trigger order[j]} :: 0 <= j < |order| ==> order[j] !in keys
  }

  lemma {:induction false} LastForIsLast(order: seq<string>, s: Setting)
    requires IsOption(s)
    ensures LastFor(order, s).Some? ==> LastOf(order, KeysFor(s), LastFor(order, s).value)
    ensures LastFor(order, s).None? ==> NoneOf(order, KeysFor(s))
  {
    if order == [] {
      return;
    }
    var n, keys := |order| - 1, KeysFor(s);
    KeysExact(order[n], s);
    if SettingOf(order[n]) != s {
      LastForIsLast(order[..n], s);
      assert forall j :: 0 <= j < n ==> order[..n][j] == order[j];
      if LastFor(order, s).Some? {
        var key := LastFor(order, s).value;
        var i :| 0 <= i < n && order[..n][i] == key && forall j :: i < j < n ==> order[..n][j] !in keys;
        assert order[i] == key;
      }
    }
  }

  /** Two keys cannot both be last. */
  lemma {:induction false} LastIsUnique(order: seq<string>, keys: set<string>, k: string, l: string)
    requires LastOf(order, keys, k) && LastOf(order, keys, l)
    ensures k == l && !NoneOf(order, keys)
  {
    var i :| 0 <= i < |order| && order[i] == k && forall j :: i < j < |order| ==> order[j] !in keys;
    var i' :| 0 <= i' < |order| && order[i'] == l && forall j :: i' < j < |order| ==> order[j] !in keys;
    assert i == i';
  }

  /** What one option becomes: its default without a key, else the meaning of the last key's value. */
  lemma {:induction false} FieldExact(
    name: string, order: seq<string>, values: Values, lib: Library, s: Setting)
    requires Enumerates(order, values) && Outcome(name, order, values, lib).Ok? && IsOption(s)
    ensures var field := FieldOf(Outcome(name, order, values, lib).value, s);
      && (NoneOf(order, KeysFor(s)) ==> field == FieldOf(Start(name).cfg, s))
      && forall key :: LastOf(order, KeysFor(s), key) && key in values ==>
           field == ParseSetting(s, FirstValue(values[key]), lib) && !field.Invalid?
  {
    RunFields(Start(name), order, values, lib, s);
    LastForIsLast(order, s);
    FailsIffSomeInvalid(name, order, values, lib);
    forall key | LastOf(order, KeysFor(s), key) && key in values
      ensures LastFor(order, s) == Some(key) && SettingOf(key) == s && !ParsedOf(key, values, lib).Invalid?
    {
      KeysExact(key, s);
      LastIsUnique(order, KeysFor(s), key, if LastFor(order, s).Some? then LastFor(order, s).value else key);
    }
    if LastFor(order, s).Some? && NoneOf(order, KeysFor(s)) {
      LastIsUnique(order, KeysFor(s), LastFor(order, s).value, LastFor(order, s).value);
    }
  }

  /** A value truncated to 32 bits. */
  predicate IsTruncated(v: int, n: int) {
    -0x8000_0000 <= v < 0x8000_0000 && (v - n) % 0x1_0000_0000 == 0
  }

  /** The number of a text that is one, truncated. */
  ghost predicate IsTimeout(text: string, v: int) {
    exists n :: IsIntText(text, n) && IsInt64(n) && IsTruncated(v, n)
  }

  lemma {:induction false} TimeoutMeaning(text: string, lib: Library)
    ensures var p := ParseSetting(BusyTimeout, text, lib); !p.Invalid? ==> p.TimeoutValue? && IsTimeout(text, p.timeout)
  {
    if Atoi(text).Some? {
      AtoiExact(text, Atoi(text).value);
      assert IsTruncated(Int32(Atoi(text).value), Atoi(text).value);
    }
  }

  lemma {:induction false} TimeoutExact(name: string, order: seq<string>, values: Values, lib: Library)
    requires Enumerates(order, values) && Outcome(name, order, values, lib).Ok?
    ensures var v := Outcome(name, order, values, lib).value.busyTimeout;
      && (NoneOf(order, TIMEOUT_KEYS) ==> v == 0)
      && forall key :: LastOf(order, TIMEOUT_KEYS, key) && key in values ==> IsTimeout(FirstValue(values[key]), v)
  {
    FieldExact(name, order, values, lib, BusyTimeout);
    forall key | LastOf(order, TIMEOUT_KEYS, key) && key in values
      ensures IsTimeout(FirstValue(values[key]), Outcome(name, order, values, lib).value.busyTimeout)
    {
      TimeoutMeaning(FirstValue(values[key]), lib);
    }
  }

  /** True exactly for four words, false exactly for four others, in either case. */
  predicate IsFlag(text: string, v: Option<bool>) {
    && v.Some?
    && (v == Some(true) <==> ToLower(text) in TRUE_WORDS)
    && (v == Some(false) <==> ToLower(text) in FALSE_WORDS)
  }

  lemma {:induction false} FlagMeaning(text: string, lib: Library)
    ensures var p := ParseSetting(ForeignKeys, text, lib); !p.Invalid? ==> p.BoolValue? && IsFlag(text, p.flag)
  {
  }

  lemma {:induction false} ForeignKeysExact(name: string, order: seq<string>, values: Values, lib: Library)
    requires Enumerates(order, values) && Outcome(name, order, values, lib).Ok?
    ensures var v := Outcome(name, order, values, lib).value.foreignKeys;
      && (NoneOf(order, FOREIGN_KEYS_KEYS) ==> v == None)
      && forall key :: LastOf(order, FOREIGN_KEYS_KEYS, key) && key in values ==> IsFlag(FirstValue(values[key]), v)
  {
    FieldExact(name, order, values, lib, ForeignKeys);
    forall key | LastOf(order, FOREIGN_KEYS_KEYS, key) && key in values
      ensures IsFlag(FirstValue(values[key]), Outcome(name, order, values, lib).value.foreignKeys)
    {
      FlagMeaning(FirstValue(values[key]), lib);
    }
  }

  lemma {:induction false} TextsExact(name: string, order: seq<string>, values: Values, lib: Library)
    requires Enumerates(order, values) && Outcome(name, order, values, lib).Ok?
    ensures var cfg := Outcome(name, order, values, lib).value;
      && (NoneOf(order, JOURNAL_KEYS) ==> cfg.journalMode == "")
      && (NoneOf(order, SYNCHRONOUS_KEYS) ==> cfg.synchronous == "")
      && (NoneOf(order, TX_LOCK_KEYS) ==> cfg.txLock == "deferred")
    ensures var cfg := Outcome(name, order, values, lib).value;
      forall key :: key in values ==>
        && (LastOf(order, JOURNAL_KEYS, key) ==> cfg.journalMode == ToUpper(FirstValue(values[key])))
        && (LastOf(order, SYNCHRONOUS_KEYS, key) ==> cfg.synchronous == ToUpper(FirstValue(values[key])))
        && (LastOf(order, TX_LOCK_KEYS, key) ==> cfg.txLock == ToLower(FirstValue(values[key])))
  {
    FieldExact(name, order, values, lib, JournalMode);
    FieldExact(name, order, values, lib, Synchronous);
    FieldExact(name, order, values, lib, TxLock);
  }

  /** No location for the empty text, the local one for `auto`, otherwise the one of that name. */
  predicate IsLocation(text: string, lib: Library, v: Option<Location>) {
    && (text == "" ==> v == None)
    && (text == "auto" ==> v == Some(Local))
    && (text != "" && text != "auto" ==> v.Some? && v == lib.loadLocation(text))
  }

  lemma {:induction false} LocationMeaning(text: string, lib: Library)
    ensures var p := ParseSetting(Loc, text, lib);
      !p.Invalid? ==> p.LocationValue? && IsLocation(text, lib, p.location)
  {
  }

  lemma {:induction false} LocationExact(name: string, order: seq<string>, values: Values, lib: Library)
    requires Enumerates(order, values) && Outcome(name, order, values, lib).Ok?
    ensures var v := Outcome(name, order, values, lib).value.location;
      && (NoneOf(order, LOCATION_KEYS) ==> v == None)
      && forall key :: LastOf(order, LOCATION_KEYS, key) && key in values ==>
           IsLocation(FirstValue(values[key]), lib, v)
  {
    FieldExact(name, order, values, lib, Loc);
    forall key | LastOf(order, LOCATION_KEYS, key) && key in values
      ensures IsLocation(FirstValue(values[key]), lib, Outcome(name, order, values, lib).value.location)
    {
      LocationMeaning(FirstValue(values[key]), lib);
    }
  }

  // ---- flags and file name ----

  lemma {:induction false} ModeMeaning(text: string)
    ensures ModeFlags(text).Some? <==> ToLower(text) in MODES
    ensures ModeFlags(text).Some? ==>
      var flags := ModeFlags(text).value;
      && (ReadOnly in flags <==> ToLower(text) == "ro") && (ReadWrite in flags <==> ToLower(text) != "ro")
      && (Create in flags <==> ToLower(text) == "rwc" || ToLower(text) == "memory")
      && (Memory in flags <==> ToLower(text) == "memory") && FullMutex in flags
  {
  }

  /** The mode is one of four, and this is what it opens. */
  lemma {:induction false} FlagsExact(name: string, order: seq<string>, values: Values, lib: Library)
    requires Enumerates(order, values) && Outcome(name, order, values, lib).Ok?
    ensures "mode" in values ==> ToLower(FirstValue(values["mode"])) in MODES
    ensures var flags := Outcome(name, order, values, lib).value.flags;
            var mode := if "mode" in values then Some(ToLower(FirstValue(values["mode"]))) else None;
      && (ReadOnly in flags <==> mode == Some("ro"))
      && (ReadWrite in flags <==> mode != Some("ro"))
      && (Create in flags <==> mode == None || mode == Some("rwc") || mode == Some("memory"))
      && (Memory in flags <==> mode == Some("memory"))
      && FullMutex in flags
  {
    RunFlags(name, order, values, lib);
    assert "mode" in values <==> "mode" in order;
    if "mode" in values {
      ModeMeaning(FirstValue(values["mode"]));
    }
  }

  /** The keys that stay in the file name. */
  predicate Stays(key: string) {
    && key !in TIMEOUT_KEYS && key !in FOREIGN_KEYS_KEYS && key !in JOURNAL_KEYS && key !in SYNCHRONOUS_KEYS
    && key !in TX_LOCK_KEYS && key !in LOCATION_KEYS
  }

  function Staying(values: Values): Values {
    map key | key in values && Stays(key) :: values[key]
  }

  lemma {:induction false} PreservedExact(name: string, order: seq<string>, values: Values, lib: Library)
    requires Enumerates(order, values) && Run(Start(name), order, values, lib).Ok?
    ensures Run(Start(name), order, values, lib).value.preserved == Staying(values)
  {
    var preserved := Run(Start(name), order, values, lib).value.preserved;
    forall key ensures key in preserved <==> key in values && Stays(key)
               ensures key in preserved ==> key in values && preserved[key] == values[key] {
      RunPreserved(name, order, values, lib, key);
      KeysExact(key, Mode);
    }
  }

  lemma {:induction false} RebuildExact(base: string, preserved: Values, lib: Library)
    ensures RebuildFilename(base, preserved, lib) ==
      if preserved == map[] then base
      else (if "file:" <= base then "" else "file:") + base + "?" + lib.encode(preserved)
  {
    if "file:" <= base {
      assert "" + base == base;
    } else if base == ":memory:" {
      assert "file::memory:?" == "file:" + base + "?";
    }
  }

  /** The file name is the part before the question mark when no key stays, and otherwise a URI with
      the keys that do. */
  lemma {:induction false} FilenameExact(name: string, order: seq<string>, values: Values, lib: Library)
    requires Enumerates(order, values) && Outcome(name, order, values, lib).Ok?
    ensures var base, filename := SplitDSN(name).0, Outcome(name, order, values, lib).value.filename;
      if Staying(values) == map[] then filename == base
      else filename == (if "file:" <= base then "" else "file:") + base + "?" + lib.encode(Staying(values))
  {
    PreservedExact(name, order, values, lib);
    RebuildExact(SplitDSN(name).0, Staying(values), lib);
  }

  /** `mode=ro` opens for reading only. */
  lemma {:induction false} ReadOnlyMode(name: string, lib: Library)
    ensures var r := Outcome(name, ["mode"], map["mode" := ["ro"]], lib);
      r.Ok? && ReadOnly in r.value.flags && ReadWrite !in r.value.flags && Create !in r.value.flags
  {
    var values: Values := map["mode" := ["ro"]];
    assert ToLower("ro") == "ro" && ParsedOf("mode", values, lib) == NotAnOption;
    assert Enumerates(["mode"], values);
    FailsIffSomeInvalid(name, ["mode"], values, lib);
    FlagsExact(name, ["mode"], values, lib);
  }
}
