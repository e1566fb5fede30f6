/** Parsing SQLite data source names (sqlite3/sqlite3.go, `parseDSN`). Go iterates over the key map in
    an arbitrary order, here a parameter. */
module SqliteDsn {
  import opened Options
  import Decimal

  datatype OpenFlag = ReadOnly | ReadWrite | Create | Memory | Uri | FullMutex

  datatype Location = Local | Zone(name: string)

  datatype Config = Config(
    filename: string,
    flags: set<OpenFlag>,
    busyTimeout: int,
    foreignKeys: Option<bool>,
    journalMode: string,
    synchronous: string,
    txLock: string,
    location: Option<Location>)

  type Values = map<string, seq<string>>

  /** What an error reports. */
  datatype DsnError =
    | BadQuery(query: string)
    | BadTimeout(text: string)
    | BadBool(text: string)
    | BadLocation(text: string)
    | UnknownMode(mode: string)

  datatype Result<+T> = Ok(value: T) | Err(error: DsnError)

  /** The library functions: `url.ParseQuery`, `time.LoadLocation` and `Values.Encode`. */
  datatype Library = Library(
    parseQuery: string -> Option<Values>,
    loadLocation: string -> Option<Location>,
    encode: Values -> string)

  // ---- single values ----

  function FirstValue(values: seq<string>): string {
    if values == [] then "" else values[0]
  }

  function LowerChar(c: char): char {
    if 'A' <= c <= 'Z' then ((c as int) + 32) as char else c
  }

  function UpperChar(c: char): char {
    if 'a' <= c <= 'z' then ((c as int) - 32) as char else c
  }

  function ToLower(s: string): string {
    seq(|s|, i requires 0 <= i < |s| => LowerChar(s[i]))
  }

  function ToUpper(s: string): string {
    seq(|s|, i requires 0 <= i < |s| => UpperChar(s[i]))
  }

  /** `strconv.Atoi` on a 64-bit platform. */
  function Atoi(s: string): Option<int> {
    var digits := if s != "" && (s[0] == '-' || s[0] == '+') then s[1..] else s;
    if digits == "" || !Decimal.AllDigits(digits) then None
    else
      var n: int := Decimal.Parse(digits);
      var v := if s[0] == '-' then 0 - n else n;
      if -0x8000_0000_0000_0000 <= v < 0x8000_0000_0000_0000 then Some(v) else None
  }

  /** Go's conversion to int32. */
  function Int32(v: int): int {
    (v + 0x8000_0000) % 0x1_0000_0000 - 0x8000_0000
  }

  function ParseBool(s: string): Option<bool> {
    match ToLower(s)
    case "1" | "true" | "yes" | "on" => Some(true)
    case "0" | "false" | "no" | "off" => Some(false)
    case _ => None
  }

  /** `parseLocation`; the outer option is the error. */
  function ParseLocation(s: string, lib: Library): Option<Option<Location>> {
    if s == "" then Some(None)
    else if s == "auto" then Some(Some(Local))
    else match lib.loadLocation(s) case None => None case Some(l) => Some(Some(l))
  }

  function ModeFlags(s: string): Option<set<OpenFlag>> {
    match ToLower(s)
    case "ro" => Some({ReadOnly, Uri, FullMutex})
    case "rw" => Some({ReadWrite, Uri, FullMutex})
    case "rwc" => Some({ReadWrite, Create, Uri, FullMutex})
    case "memory" => Some({ReadWrite, Create, Memory, Uri, FullMutex})
    case _ => None
  }

  // ---- keys ----

  /** What a key sets. Several spellings may set the same option. */
  datatype Setting = BusyTimeout | ForeignKeys | JournalMode | Synchronous | TxLock | Loc | Mode | Cache | Other

  function SettingOf(key: string): Setting {
    match key
    case "_busy_timeout" | "_timeout" => BusyTimeout
    case "_foreign_keys" | "_fk" => ForeignKeys
    case "_journal_mode" | "_journal" => JournalMode
    case "_synchronous" | "_sync" => Synchronous
    case "_txlock" => TxLock
    case "loc" | "_loc" => Loc
    case "mode" => Mode
    case "cache" => Cache
    case _ => Other
  }

  predicate IsPreserved(key: string) {
    SettingOf(key) in {Mode, Cache, Other}
  }

  /** Keys that make the name a URI by themselves. */
  predicate ForcesUri(key: string) {
    SettingOf(key).Cache? || (SettingOf(key).Other? && !("_" <= key))
  }

  /** The parsed value of an option; `NotAnOption` for the keys that are preserved. */
  datatype Parsed =
    | TimeoutValue(timeout: int)
    | BoolValue(flag: Option<bool>)
    | TextValue(text: string)
    | LocationValue(location: Option<Location>)
    | NotAnOption
    | Invalid(error: DsnError)

  function ParseSetting(s: Setting, text: string, lib: Library): Parsed {
    match s
    case BusyTimeout => (match Atoi(text) case None => Invalid(BadTimeout(text)) case Some(v) => TimeoutValue(Int32(v)))
    case ForeignKeys => (match ParseBool(text) case None => Invalid(BadBool(text)) case Some(b) => BoolValue(Some(b)))
    case JournalMode => TextValue(ToUpper(text))
    case Synchronous => TextValue(ToUpper(text))
    case TxLock => TextValue(ToLower(text))
    case Loc =>
      (match ParseLocation(text, lib) case None => Invalid(BadLocation(text)) case Some(l) => LocationValue(l))
    case Mode => if ModeFlags(text).None? then Invalid(UnknownMode(ToLower(text))) else NotAnOption
    case _ => NotAnOption
  }

  function ParsedOf(key: string, values: Values, lib: Library): Parsed
    requires key in values
  {
    ParseSetting(SettingOf(key), FirstValue(values[key]), lib)
  }

  // ---- the loop body ----

  datatype State = State(cfg: Config, preserved: Values)

  function Start(name: string): State {
    var filename := if name == "" then ":memory:" else name;
    State(Config(filename, {ReadWrite, Create, FullMutex}, 0, None, "", "", "deferred", None), map[])
  }

  /** One iteration; an error returns early. */
  function Step(st: State, key: string, values: Values, lib: Library): Result<State>
    requires key in values
  {
    var text := FirstValue(values[key]);
    match SettingOf(key)
    case BusyTimeout =>
      (match Atoi(text)
       case None => Err(BadTimeout(text))
       case Some(v) => Ok(st.(cfg := st.cfg.(busyTimeout := Int32(v)))))
    case ForeignKeys =>
      (match ParseBool(text)
       case None => Err(BadBool(text))
       case Some(b) => Ok(st.(cfg := st.cfg.(foreignKeys := Some(b)))))
    case JournalMode => Ok(st.(cfg := st.cfg.(journalMode := ToUpper(text))))
    case Synchronous => Ok(st.(cfg := st.cfg.(synchronous := ToUpper(text))))
    case TxLock => Ok(st.(cfg := st.cfg.(txLock := ToLower(text))))
    case Loc =>
      (match ParseLocation(text, lib)
       case None => Err(BadLocation(text))
       case Some(l) => Ok(st.(cfg := st.cfg.(location := l))))
    case Mode =>
      (match ModeFlags(text)
       case None => Err(UnknownMode(ToLower(text)))
       case Some(flags) => Ok(State(st.cfg.(flags := flags), st.preserved[key := values[key]])))
    case Cache => Ok(State(st.cfg.(flags := st.cfg.flags + {Uri}), st.preserved[key := values[key]]))
    case Other =>
      var flags := if "_" <= key then st.cfg.flags else st.cfg.flags + {Uri};
      Ok(State(st.cfg.(flags := flags), st.preserved[key := values[key]]))
  }

  function Run(st: State, order: seq<string>, values: Values, lib: Library): Result<State>
    requires forall i :: 0 <= i < |order| ==> order[i] in values
  {
    if order == [] then Ok(st)
    else match Run(st, order[..|order| - 1], values, lib)
         case Err(e) => Err(e)
         case Ok(s) => Step(s, order[|order| - 1], values, lib)
  }

  function SplitDSN(name: string): (string, string) {
    var i := IndexOf(name, '?');
    if i < |name| then (name[..i], name[i + 1..]) else (name, "")
  }

  function IndexOf(s: string, c: char): (i: nat)
    ensures i <= |s| && (i < |s| ==> s[i] == c) && forall j :: 0 <= j < i ==> s[j] != c
  {
    if s == "" || s[0] == c then 0 else 1 + IndexOf(s[1..], c)
  }

  function RebuildFilename(base: string, preserved: Values, lib: Library): string {
    if preserved == map[] then base
    else if "file:" <= base then base + "?" + lib.encode(preserved)
    else if base == ":memory:" then "file::memory:?" + lib.encode(preserved)
    else "file:" + base + "?" + lib.encode(preserved)
  }

  /** The order visits every key once. */
  ghost predicate Enumerates(order: seq<string>, values: Values) {
    && (forall i :: 0 <= i < |order| ==> order[i] in values)
    && (forall key :: key in values ==> key in order)
    && forall i, j :: 0 <= i < j < |order| ==> order[i] != order[j]
  }

  function Finish(base: string, st: State, lib: Library): Config {
    var filename := RebuildFilename(base, st.preserved, lib);
    var cfg := st.cfg.(filename := filename);
    if "file:" <= filename then cfg.(flags := cfg.flags + {Uri}) else cfg
  }

  /** The result for one iteration order of the parsed keys. */
  function Outcome(name: string, order: seq<string>, values: Values, lib: Library): Result<Config>
    requires forall i :: 0 <= i < |order| ==> order[i] in values
  {
    match Run(Start(name), order, values, lib)
    case Err(e) => Err(e)
    case Ok(st) => Ok(Finish(SplitDSN(name).0, st, lib))
  }

  lemma {:induction false} RunStops(st: State, order: seq<string>, n: nat, values: Values, lib: Library)
    requires n <= |order| && forall i :: 0 <= i < |order| ==> order[i] in values
    requires Run(st, order[..n], values, lib).Err?
    ensures Run(st, order, values, lib) == Run(st, order[..n], values, lib)
  {
    if n == |order| {
      assert order[..n] == order;
    } else {
      assert order[..|order| - 1][..n] == order[..n];
      RunStops(st, order[..|order| - 1], n, values, lib);
    }
  }

  lemma {:induction false} RunNext(st: State, order: seq<string>, i: nat, values: Values, lib: Library)
    requires i < |order| && forall k :: 0 <= k < |order| ==> order[k] in values
    requires Run(st, order[..i], values, lib).Ok?
    ensures Run(st, order[..i + 1], values, lib) == Step(Run(st, order[..i], values, lib).value, order[i], values, lib)
  {
    assert order[..i + 1][..i] == order[..i];
  }

  /** `parseDSN`, for one iteration order. */
  method ParseDSN(name: string, order: seq<string>, lib: Library) returns (r: Result<Config>)
    requires lib.parseQuery(SplitDSN(name).1).Some? ==> Enumerates(order, lib.parseQuery(SplitDSN(name).1).value)
    ensures r == match lib.parseQuery(SplitDSN(name).1)
                 case None => Err(BadQuery(SplitDSN(name).1))
                 case Some(values) => Outcome(name, order, values, lib)
  {
    var (base, query) := SplitDSN(name);
    var parsed := lib.parseQuery(query);
    if parsed.None? {
      return Err(BadQuery(query));
    }
    var values := parsed.value;
    var st := Start(name);
    for i := 0 to |order|
      invariant Run(Start(name), order[..i], values, lib) == Ok(st)
    {
      RunNext(Start(name), order, i, values, lib);
      var next := Step(st, order[i], values, lib);
      if next.Err? {
        RunStops(Start(name), order, i + 1, values, lib);
        return Err(next.error);
      }
      st := next.value;
    }
    assert order[..|order|] == order;
    var cfg := st.cfg.(filename := RebuildFilename(base, st.preserved, lib));
    if "file:" <= cfg.filename {
      cfg := cfg.(flags := cfg.flags + {Uri});
    }
    return Ok(cfg);
  }
}
