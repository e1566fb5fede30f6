/** The life of native statement handles behind prepared statements, queries and their rows
    (sqlite3/sqlite3.go). Native result codes are arbitrary. */
module SqliteStatements {
  import opened Options

  const OK := 0
  const ROW := 100
  const DONE := 101

  /** Native calls that take a statement handle; handle 0 is the nil pointer. */
  datatype Call =
    | Prepare(handle: nat)
    | Reset(handle: nat)
    | ClearBindings(handle: nat)
    | ParameterCount(handle: nat)
    | ParameterIndex(handle: nat)
    | Bind(handle: nat)
    | ColumnInfo(handle: nat)
    | StepCall(handle: nat)
    | ReadColumn(handle: nat)
    | Finalize(handle: nat)

  /** What the native library answers: the code of the k-th call; `horizon` says when a statement that
      is stepped from call k on has run out of rows. */
  datatype Library = Library(reply: nat -> int, horizon: nat -> nat)

  ghost predicate Finite(lib: Library) {
    forall k: nat :: k <= lib.horizon(k) && lib.reply(lib.horizon(k)) != ROW
  }

  // ---- statements as values ----

  datatype Stmt = Stmt(handle: nat, ephemeral: bool, closed: bool)

  /** A statement and the call log after an operation, and whether the operation returned no error. */
  datatype After = After(stmt: Stmt, log: seq<Call>, ok: bool)

  function CloseStmt(s: Stmt, log: seq<Call>, lib: Library): After {
    if s.closed then After(s, log, true)
    else After(s.(closed := true, handle := 0), log + [Finalize(s.handle)], lib.reply(|log|) == OK)
  }

  function ResetStmt(s: Stmt, log: seq<Call>, lib: Library): After {
    if s.closed || s.handle == 0 then After(s, log, true)
    else if lib.reply(|log|) != OK then After(s, log + [Reset(s.handle)], false)
    else if lib.reply(|log| + 1) != OK then After(s, log + [Reset(s.handle), ClearBindings(s.handle)], false)
    else if s.ephemeral then CloseStmt(s, log + [Reset(s.handle), ClearBindings(s.handle)], lib)
    else After(s, log + [Reset(s.handle), ClearBindings(s.handle)], true)
  }

  /** A bind argument: by position or by name, of a type the driver supports or not. */
  datatype Argument = Argument(named: bool, supported: bool)

  /** `resolveIndex` tries the name with up to four prefixes until one is known. */
  function ResolveName(handle: nat, tries: nat, log: seq<Call>, lib: Library): (seq<Call>, bool)
    decreases tries
  {
    if tries == 0 then (log, false)
    else if lib.reply(|log|) != 0 then (log + [ParameterIndex(handle)], true)
    else ResolveName(handle, tries - 1, log + [ParameterIndex(handle)], lib)
  }

  function BindOne(handle: nat, arg: Argument, log: seq<Call>, lib: Library): (seq<Call>, bool) {
    var (resolved, found) := if arg.named then ResolveName(handle, 4, log, lib) else (log, true);
    if !found || !arg.supported then (resolved, false)
    else (resolved + [Bind(handle)], lib.reply(|resolved|) == OK)
  }

  function BindAll(handle: nat, args: seq<Argument>, log: seq<Call>, lib: Library): (seq<Call>, bool) {
    if args == [] then (log, true)
    else
      var (before, ok) := BindAll(handle, args[..|args| - 1], log, lib);
      if ok then BindOne(handle, args[|args| - 1], before, lib) else (before, false)
  }

  function BindStmt(s: Stmt, usable: bool, args: seq<Argument>, log: seq<Call>, lib: Library): (seq<Call>, bool) {
    if !usable then (log, false)
    else if lib.reply(|log|) != OK then (log + [Reset(s.handle)], false)
    else if lib.reply(|log| + 1) != OK then (log + [Reset(s.handle), ClearBindings(s.handle)], false)
    else BindAll(s.handle, args, log + [Reset(s.handle), ClearBindings(s.handle)], lib)
  }

  /** Steps until something other than a row comes back. */
  function StepAll(handle: nat, log: seq<Call>, lib: Library, last: nat): (seq<Call>, bool)
    requires lib.reply(last) != ROW && |log| <= last
    decreases last - |log|
  {
    var code := lib.reply(|log|);
    if code == ROW then StepAll(handle, log + [StepCall(handle)], lib, last)
    else (log + [StepCall(handle)], code == DONE)
  }

  function ExecBoundStmt(handle: nat, log: seq<Call>, lib: Library): (seq<Call>, bool)
    requires Finite(lib)
  {
    StepAll(handle, log, lib, lib.horizon(|log|))
  }

  /** `SQLiteStmt.ExecContext` */
  function ExecStmt(s: Stmt, usable: bool, args: seq<Argument>, log: seq<Call>, lib: Library): After
    requires Finite(lib)
  {
    var (bound, ok) := BindStmt(s, usable, args, log, lib);
    if !ok then After(s, bound, false)
    else
      var (stepped, done) := ExecBoundStmt(s.handle, bound, lib);
      var reset := ResetStmt(s, stepped, lib);
      reset.(ok := done && reset.ok)
  }

  /** The outcome of preparing: the new handle, unless the call fails; an empty text gives no handle. */
  function PreparedHandle(log: seq<Call>, emptyText: bool, lib: Library): nat {
    if lib.reply(|log|) != OK || emptyText then 0 else |log| + 1
  }

  function ColumnCalls(handle: nat, columns: nat): seq<Call> {
    seq(2 * columns + 1, i => ColumnInfo(handle))
  }

  function ReadCalls(handle: nat, cells: nat): seq<Call> {
    seq(cells, i => ReadColumn(handle))
  }

  /** A statement with the rows over it after an operation. */
  datatype AfterRows = AfterRows(closed: bool, stmt: Stmt, log: seq<Call>, ok: bool)

  /** `SQLiteRows.Close`: an ephemeral statement ends with its rows, another one is reset. */
  function CloseRows(closed: bool, s: Stmt, log: seq<Call>, lib: Library): AfterRows {
    if closed then AfterRows(true, s, log, true)
    else
      var after := if s.ephemeral then CloseStmt(s, log, lib) else ResetStmt(s, log, lib);
      AfterRows(true, after.stmt, after.log, after.ok)
  }

  datatype NextResult = NextRow | NextEof | NextError

  /** `SQLiteRows.Next`: a row is read with `cells` column calls; anything else closes the rows. */
  function NextRows(closed: bool, s: Stmt, cells: nat, log: seq<Call>, lib: Library): (AfterRows, NextResult) {
    if closed then (AfterRows(true, s, log, true), NextEof)
    else
      var code := lib.reply(|log|);
      var stepped := log + [StepCall(s.handle)];
      if code == ROW then (AfterRows(false, s, stepped + ReadCalls(s.handle, cells), true), NextRow)
      else (CloseRows(false, s, stepped, lib), if code == DONE then NextEof else NextError)
  }

  /** `SQLiteConn.PrepareContext`; `None` without a statement. */
  function PrepareStmt(usable: bool, ctxDone: bool, emptyText: bool, ephemeral: bool, log: seq<Call>, lib: Library)
    : (Option<Stmt>, seq<Call>)
  {
    if !usable || ctxDone then (None, log)
    else
      var handle := PreparedHandle(log, emptyText, lib);
      (if lib.reply(|log|) == OK then Some(Stmt(handle, ephemeral, false)) else None, log + [Prepare(handle)])
  }

  /** `SQLiteConn.execTransient`: the deferred Close runs on every path behind the preparation. */
  function ExecTransient(
    usable: bool, ctxDone: bool, emptyText: bool, args: seq<Argument>, log: seq<Call>, lib: Library)
    : (seq<Call>, bool)
    requires Finite(lib)
  {
    var (prepared, log1) := PrepareStmt(usable, ctxDone, emptyText, true, log, lib);
    match prepared
    case None => (log1, false)
    case Some(s) =>
      var (log2, bound) := BindStmt(s, usable, args, log1, lib);
      if !bound then (CloseStmt(s, log2, lib).log, false)
      else
        var (log3, done) := ExecBoundStmt(s.handle, log2, lib);
        (CloseStmt(s, log3, lib).log, done)
  }

  /** `SQLiteStmt.QueryContext`: true when there are rows. */
  function QueryStmt(s: Stmt, usable: bool, args: seq<Argument>, columns: nat, log: seq<Call>, lib: Library)
    : (seq<Call>, bool)
  {
    var (bound, ok) := BindStmt(s, usable, args, log, lib);
    if ok then (bound + ColumnCalls(s.handle, columns), true) else (bound, false)
  }

  /** `SQLiteConn.QueryContext`: the statement behind the rows, or `None` when there are no rows. */
  function QueryTransient(usable: bool, ctxDone: bool, emptyText: bool, args: seq<Argument>, columns: nat,
                          log: seq<Call>, lib: Library): (Option<Stmt>, seq<Call>)
  {
    var (prepared, log1) := PrepareStmt(usable, ctxDone, emptyText, true, log, lib);
    match prepared
    case None => (None, log1)
    case Some(s) =>
      var (log2, ok) := QueryStmt(s, usable, args, columns, log1, lib);
      if ok then (Some(s), log2) else (None, CloseStmt(s, log2, lib).log)
  }

  // ---- statements and rows as objects ----

  class Native {
    const lib: Library
    var log: seq<Call>

    constructor (lib: Library)
      ensures this.lib == lib && log == []
    {
      this.lib, log := lib, [];
    }

    method Do(c: Call) returns (code: int)
      modifies this
      ensures code == lib.reply(|old(log)|) && log == old(log) + [c]
    {
      code := lib.reply(|log|);
      log := log + [c];
    }

    method DoTimes(c: Call, n: nat)
      modifies this
      ensures log == old(log) + seq(n, i => c)
    {
      for k := 0 to n
        invariant log == old(log) + seq(k, i => c)
      {
        var _ := Do(c);
        assert seq(k, i => c) + [c] == seq(k + 1, i => c);
      }
    }
  }

  class SQLiteStmt {
    const native: Native
    var handle: nat
    var ephemeral: bool
    var closed: bool

    ghost function Value(): Stmt
      reads this
    {
      Stmt(handle, ephemeral, closed)
    }

    constructor (native: Native, handle: nat, ephemeral: bool)
      ensures this.native == native && Value() == Stmt(handle, ephemeral, false)
    {
      this.native, this.handle, this.ephemeral, closed := native, handle, ephemeral, false;
    }

    method Close() returns (ok: bool)
      modifies this, native
      ensures After(Value(), native.log, ok) == CloseStmt(old(Value()), old(native.log), native.lib)
    {
      if closed {
        return true;
      }
      closed := true;
      var result := native.Do(Finalize(handle));
      handle := 0;
      return result == OK;
    }

    method ResetForReuse() returns (ok: bool)
      modifies this, native
      ensures After(Value(), native.log, ok) == ResetStmt(old(Value()), old(native.log), native.lib)
    {
      if closed || handle == 0 {
        return true;
      }
      var result := native.Do(Reset(handle));
      if result != OK {
        return false;
      }
      result := native.Do(ClearBindings(handle));
      assert native.log == old(native.log) + [Reset(handle), ClearBindings(handle)];
      if result != OK {
        return false;
      }
      if ephemeral {
        ok := Close();
        return;
      }
      return true;
    }

    method NumInput() returns (count: int)
      modifies native
      ensures native.log == old(native.log) + [ParameterCount(handle)] && count == native.lib.reply(|old(native.log)|)
    {
      count := native.Do(ParameterCount(handle));
    }

    method ResolveIndex() returns (found: bool)
      modifies native
      ensures (native.log, found) == ResolveName(handle, 4, old(native.log), native.lib)
    {
      for tried := 0 to 4
        invariant ResolveName(handle, 4 - tried, native.log, native.lib)
               == ResolveName(handle, 4, old(native.log), native.lib)
      {
        var index := native.Do(ParameterIndex(handle));
        if index != 0 {
          return true;
        }
      }
      return false;
    }

    method BindNamedValues(usable: bool, args: seq<Argument>) returns (ok: bool)
      modifies native
      ensures (native.log, ok) == BindStmt(Value(), usable, args, old(native.log), native.lib)
    {
      if !usable {
        return false;
      }
      var result := native.Do(Reset(handle));
      if result != OK {
        return false;
      }
      result := native.Do(ClearBindings(handle));
      ghost var start := native.log;
      assert start == old(native.log) + [Reset(handle), ClearBindings(handle)];
      if result != OK {
        return false;
      }
      for i := 0 to |args|
        invariant (native.log, true) == BindAll(handle, args[..i], start, native.lib)
      {
        assert args[..i + 1][..i] == args[..i];
        var bound := BindArgument(args[i]);
        if !bound {
          BindAllStops(handle, args, i + 1, start, native.lib);
          return false;
        }
      }
      assert args[..|args|] == args;
      return true;
    }

    method BindArgument(arg: Argument) returns (ok: bool)
      modifies native
      ensures (native.log, ok) == BindOne(handle, arg, old(native.log), native.lib)
    {
      if arg.named {
        var found := ResolveIndex();
        if !found {
          return false;
        }
      }
      if !arg.supported {
        return false;
      }
      var result := native.Do(Bind(handle));
      return result == OK;
    }

    method ExecBound() returns (done: bool)
      requires Finite(native.lib)
      modifies native
      ensures (native.log, done) == ExecBoundStmt(handle, old(native.log), native.lib)
    {
      ghost var last := native.lib.horizon(|native.log|);
      while true
        invariant |native.log| <= last
        invariant StepAll(handle, native.log, native.lib, last) == ExecBoundStmt(handle, old(native.log), native.lib)
        decreases last - |native.log|
      {
        var result := native.Do(StepCall(handle));
        if result == ROW {
          continue;
        }
        return result == DONE;
      }
    }

    method ExecContext(usable: bool, args: seq<Argument>) returns (ok: bool)
      requires Finite(native.lib)
      modifies this, native
      ensures After(Value(), native.log, ok) == ExecStmt(old(Value()), usable, args, old(native.log), native.lib)
    {
      ok := BindNamedValues(usable, args);
      if !ok {
        return;
      }
      ok := ExecBound();
      var reset := ResetForReuse();
      ok := ok && reset;
    }
  }

  lemma {:induction false} BindAllStops(handle: nat, args: seq<Argument>, n: nat, log: seq<Call>, lib: Library)
    requires n <= |args| && !BindAll(handle, args[..n], log, lib).1
    ensures BindAll(handle, args, log, lib) == BindAll(handle, args[..n], log, lib)
  {
    if n == |args| {
      assert args[..n] == args;
    } else {
      assert args[..|args| - 1][..n] == args[..n];
      BindAllStops(handle, args[..|args| - 1], n, log, lib);
    }
  }

  class SQLiteRows {
    const native: Native
    const stmt: SQLiteStmt
    var closeOnceDone: bool
    var closed: bool

    ghost predicate Valid()
      reads this
    {
      closeOnceDone == closed && stmt.native == native
    }

    constructor (stmt: SQLiteStmt)
      ensures Valid() && this.stmt == stmt && native == stmt.native && !closed
    {
      this.native, this.stmt, closeOnceDone, closed := stmt.native, stmt, false, false;
    }

    method Close() returns (ok: bool)
      requires Valid()
      modifies this, stmt, native
      ensures Valid()
      ensures AfterRows(closed, stmt.Value(), native.log, ok)
           == CloseRows(old(closed), old(stmt.Value()), old(native.log), native.lib)
    {
      if closeOnceDone {
        return true;
      }
      closeOnceDone := true;
      closed := true;
      if stmt.ephemeral {
        ok := stmt.Close();
        return;
      }
      ok := stmt.ResetForReuse();
    }

    method Next(cells: nat) returns (result: NextResult)
      requires Valid()
      modifies this, stmt, native
      ensures Valid()
      ensures var (after, r) := NextRows(old(closed), old(stmt.Value()), cells, old(native.log), native.lib);
        && result == r
        && closed == after.closed && stmt.Value() == after.stmt && native.log == after.log
    {
      if closed {
        return NextEof;
      }
      var code := native.Do(StepCall(stmt.handle));
      if code == ROW {
        native.DoTimes(ReadColumn(stmt.handle), cells);
        return NextRow;
      }
      var _ := Close();
      return if code == DONE then NextEof else NextError;
    }
  }

  class SQLiteConn {
    const native: Native
    var usable: bool

    constructor (native: Native)
      ensures this.native == native && usable
    {
      this.native, usable := native, true;
    }

    method PrepareContext(ctxDone: bool, emptyText: bool, ephemeral: bool) returns (stmt: SQLiteStmt?)
      modifies native
      ensures stmt != null ==> fresh(stmt) && stmt.native == native
      ensures (if stmt == null then None else Some(stmt.Value()), native.log)
           == PrepareStmt(usable, ctxDone, emptyText, ephemeral, old(native.log), native.lib)
    {
      if !usable || ctxDone {
        return null;
      }
      ghost var handle := PreparedHandle(native.log, emptyText, native.lib);
      var answer := native.lib.reply(|native.log|);
      var produced := if answer != OK || emptyText then 0 else |native.log| + 1;
      var result := native.Do(Prepare(produced));
      if result != OK {
        return null;
      }
      stmt := new SQLiteStmt(native, produced, ephemeral);
    }

    method ExecContext(ctxDone: bool, emptyText: bool, args: seq<Argument>) returns (ok: bool)
      requires Finite(native.lib)
      modifies native
      ensures (native.log, ok) == ExecTransient(usable, ctxDone, emptyText, args, old(native.log), native.lib)
    {
      var stmt := PrepareContext(ctxDone, emptyText, true);
      if stmt == null {
        return false;
      }
      var bound := stmt.BindNamedValues(usable, args);
      if !bound {
        var _ := stmt.Close();
        return false;
      }
      ok := stmt.ExecBound();
      var _ := stmt.Close();
    }

    method QueryContext(ctxDone: bool, emptyText: bool, args: seq<Argument>, columns: nat) returns (rows: SQLiteRows?)
      modifies native
      ensures rows != null ==> fresh(rows) && fresh(rows.stmt) && rows.Valid() && !rows.closed && rows.native == native
      ensures (if rows == null then None else Some(rows.stmt.Value()), native.log)
           == QueryTransient(usable, ctxDone, emptyText, args, columns, old(native.log), native.lib)
    {
      var stmt := PrepareContext(ctxDone, emptyText, true);
      if stmt == null {
        return null;
      }
      var bound := stmt.BindNamedValues(usable, args);
      if !bound {
        var _ := stmt.Close();
        return null;
      }
      native.DoTimes(ColumnInfo(stmt.handle), 2 * columns + 1);
      rows := new SQLiteRows(stmt);
    }
  }
}
