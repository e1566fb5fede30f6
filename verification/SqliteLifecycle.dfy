/** Runs of one connection: any number of statements and rows, used in any order, with arbitrary
    native result codes (sqlite3/sqlite3.go). */
module SqliteLifecycle {
  import opened SqliteStatements
  import opened Options

  // ---- the rules of the native library ----

  /** The handles that are live, and all that were ever given out. */
  datatype Monitor = Monitor(live: set<nat>, used: set<nat>)

  /** A handle is given out once, used while live, and finalised once; nil is harmless. */
  function Observe(m: Monitor, c: Call): Option<Monitor> {
    if c.handle == 0 then Some(m)
    else if c.Prepare? then
      if c.handle in m.used then None else Some(Monitor(m.live + {c.handle}, m.used + {c.handle}))
    else if c.handle !in m.live then None
    else if c.Finalize? then Some(m.(live := m.live - {c.handle}))
    else Some(m)
  }

  function ObserveAll(log: seq<Call>): Option<Monitor> {
    if log == [] then Some(Monitor({}, {}))
    else match ObserveAll(log[..|log| - 1])
         case None => None
         case Some(m) => Observe(m, log[|log| - 1])
  }

  lemma {:induction false} ObserveSnoc(log: seq<Call>, c: Call)
    ensures ObserveAll(log + [c]) == match ObserveAll(log) case None => None case Some(m) => Observe(m, c)
  {
    assert (log + [c])[..|log|] == log;
  }

  // ---- operations that only use a handle ----

  /** Calls on one handle that neither create nor finalise it were appended. */
  ghost predicate Uses(log: seq<Call>, log': seq<Call>, handle: nat) {
    && log <= log'
    && forall i {:trigger log'[i]} :: |log| <= i < |log'| ==>
         log'[i].handle == handle && !log'[i].Prepare? && !log'[i].Finalize?
  }

  lemma {:induction false} UsesKeepsMonitor(log: seq<Call>, log': seq<Call>, handle: nat)
    requires Uses(log, log', handle) && ObserveAll(log).Some?
    requires handle == 0 || handle in ObserveAll(log).value.live
    ensures ObserveAll(log') == ObserveAll(log)
    decreases |log'|
  {
    if |log'| > |log| {
      var init := log'[..|log'| - 1];
      forall i | |log| <= i < |init| ensures init[i] == log'[i] {}
      UsesKeepsMonitor(log, init, handle);
    } else {
      assert log' == log;
    }
  }

  lemma {:induction false} ResolveUses(handle: nat, tries: nat, log: seq<Call>, lib: Library)
    ensures Uses(log, ResolveName(handle, tries, log, lib).0, handle)
    decreases tries
  {
    if tries > 0 {
      if lib.reply(|log|) == 0 {
        var next := log + [ParameterIndex(handle)];
        ResolveUses(handle, tries - 1, next, lib);
      }
    }
  }

  lemma {:induction false} BindOneUses(handle: nat, arg: Argument, log: seq<Call>, lib: Library)
    ensures Uses(log, BindOne(handle, arg, log, lib).0, handle)
  {
    ResolveUses(handle, 4, log, lib);
    var resolved := if arg.named then ResolveName(handle, 4, log, lib).0 else log;
  }

  lemma {:induction false} BindAllUses(handle: nat, args: seq<Argument>, log: seq<Call>, lib: Library)
    ensures Uses(log, BindAll(handle, args, log, lib).0, handle)
  {
    if args != [] {
      var init := args[..|args| - 1];
      BindAllUses(handle, init, log, lib);
      var (before, ok) := BindAll(handle, init, log, lib);
      if ok {
        BindOneUses(handle, args[|args| - 1], before, lib);
      }
    }
  }

  lemma {:induction false} ResetAndClearUses(handle: nat, log: seq<Call>)
    ensures Uses(log, log + [Reset(handle)], handle)
    ensures Uses(log, log + [Reset(handle), ClearBindings(handle)], handle)
  {
  }

  lemma {:induction false} BindUses(s: Stmt, usable: bool, args: seq<Argument>, log: seq<Call>, lib: Library)
    ensures Uses(log, BindStmt(s, usable, args, log, lib).0, s.handle)
  {
    ResetAndClearUses(s.handle, log);
    var cleared := log + [Reset(s.handle), ClearBindings(s.handle)];
    BindAllUses(s.handle, args, cleared, lib);
  }

  lemma {:induction false} StepAllUses(handle: nat, log: seq<Call>, lib: Library, last: nat)
    requires lib.reply(last) != ROW && |log| <= last
    ensures Uses(log, StepAll(handle, log, lib, last).0, handle)
    decreases last - |log|
  {
    if lib.reply(|log|) == ROW {
      var next := log + [StepCall(handle)];
      StepAllUses(handle, next, lib, last);
    }
  }

  lemma {:induction false} ResetUses(s: Stmt, log: seq<Call>, lib: Library)
    requires !s.ephemeral
    ensures ResetStmt(s, log, lib).stmt == s && Uses(log, ResetStmt(s, log, lib).log, s.handle)
  {
    ResetAndClearUses(s.handle, log);
  }

  lemma {:induction false} ExecUses(s: Stmt, usable: bool, args: seq<Argument>, log: seq<Call>, lib: Library)
    requires Finite(lib) && !s.ephemeral
    ensures ExecStmt(s, usable, args, log, lib).stmt == s
    ensures Uses(log, ExecStmt(s, usable, args, log, lib).log, s.handle)
  {
    BindUses(s, usable, args, log, lib);
    var (bound, ok) := BindStmt(s, usable, args, log, lib);
    if ok {
      StepAllUses(s.handle, bound, lib, lib.horizon(|bound|));
      var stepped := ExecBoundStmt(s.handle, bound, lib).0;
      ResetUses(s, stepped, lib);
    }
  }

  lemma {:induction false} QueryUses(
    s: Stmt, usable: bool, args: seq<Argument>, columns: nat, log: seq<Call>, lib: Library)
    ensures Uses(log, QueryStmt(s, usable, args, columns, log, lib).0, s.handle)
  {
    BindUses(s, usable, args, log, lib);
    var bound := BindStmt(s, usable, args, log, lib).0;
    var described := bound + ColumnCalls(s.handle, columns);
    assert Uses(bound, described, s.handle);
  }

  // ---- a transient exec ----

  /** An ephemeral handle is created, used and finalised exactly once within one exec. */
  lemma {:induction false} TransientExecFinalizesOnce(
    usable: bool, ctxDone: bool, emptyText: bool, args: seq<Argument>, log: seq<Call>, lib: Library)
    requires Finite(lib)
    ensures var log' := ExecTransient(usable, ctxDone, emptyText, args, log, lib).0;
      if !usable || ctxDone then log' == log
      else if lib.reply(|log|) != OK then log' == log + [Prepare(0)]
      else
        var handle := PreparedHandle(log, emptyText, lib);
        exists mid :: Uses(log + [Prepare(handle)], mid, handle) && log' == mid + [Finalize(handle)]
  {
    var (prepared, log1) := PrepareStmt(usable, ctxDone, emptyText, true, log, lib);
    if prepared.Some? {
      var s := prepared.value;
      BindUses(s, usable, args, log1, lib);
      var (log2, bound) := BindStmt(s, usable, args, log1, lib);
      var mid := log2;
      if bound {
        StepAllUses(s.handle, log2, lib, lib.horizon(|log2|));
        mid := ExecBoundStmt(s.handle, log2, lib).0;
      }
      assert Uses(log + [Prepare(s.handle)], mid, s.handle);
      assert ExecTransient(usable, ctxDone, emptyText, args, log, lib).0 == mid + [Finalize(s.handle)];
    }
  }

  // ---- runs ----

  /** Rows over the statement with the given index. */
  datatype RowsOf = RowsOf(stmt: nat, closed: bool)

  datatype World = World(stmts: seq<Stmt>, rows: seq<RowsOf>, usable: bool, log: seq<Call>)

  datatype Op =
    | PrepareOp(ctxDone: bool, emptyText: bool)
    | ExecOp(stmt: nat, args: seq<Argument>)
    | QueryOp(stmt: nat, args: seq<Argument>, columns: nat)
    | CountOp(stmt: nat)
    | CloseOp(stmt: nat)
    | ConnExecOp(ctxDone: bool, emptyText: bool, args: seq<Argument>)
    | ConnQueryOp(ctxDone: bool, emptyText: bool, args: seq<Argument>, columns: nat)
    | NextOp(rows: nat, cells: nat)
    | CloseRowsOp(rows: nat)
    | CloseConnOp

  /** Clients hold prepared statements and rows; ephemeral statements are reachable through rows only.
      An operation on something the client does not hold does nothing. */
  function Step(w: World, op: Op, lib: Library): World
    requires Finite(lib)
    requires forall j {:trigger w.rows[j]} :: 0 <= j < |w.rows| ==> w.rows[j].stmt < |w.stmts|
  {
    match op
    case PrepareOp(ctxDone, emptyText) =>
      var (s, log) := PrepareStmt(w.usable, ctxDone, emptyText, false, w.log, lib);
      w.(stmts := if s.Some? then w.stmts + [s.value] else w.stmts, log := log)
    case ExecOp(i, args) =>
      if i < |w.stmts| && !w.stmts[i].ephemeral then
        var after := ExecStmt(w.stmts[i], w.usable, args, w.log, lib);
        w.(stmts := w.stmts[i := after.stmt], log := after.log)
      else w
    case QueryOp(i, args, columns) =>
      if i < |w.stmts| && !w.stmts[i].ephemeral then
        var (log, ok) := QueryStmt(w.stmts[i], w.usable, args, columns, w.log, lib);
        w.(rows := if ok then w.rows + [RowsOf(i, false)] else w.rows, log := log)
      else w
    case CountOp(i) =>
      if i < |w.stmts| && !w.stmts[i].ephemeral then w.(log := w.log + [ParameterCount(w.stmts[i].handle)]) else w
    case CloseOp(i) =>
      if i < |w.stmts| && !w.stmts[i].ephemeral then
        var after := CloseStmt(w.stmts[i], w.log, lib);
        w.(stmts := w.stmts[i := after.stmt], log := after.log)
      else w
    case ConnExecOp(ctxDone, emptyText, args) =>
      w.(log := ExecTransient(w.usable, ctxDone, emptyText, args, w.log, lib).0)
    case ConnQueryOp(ctxDone, emptyText, args, columns) =>
      var (s, log) := QueryTransient(w.usable, ctxDone, emptyText, args, columns, w.log, lib);
      if s.Some? then w.(stmts := w.stmts + [s.value], rows := w.rows + [RowsOf(|w.stmts|, false)], log := log)
      else w.(log := log)
    case NextOp(j, cells) =>
      if j < |w.rows| then
        var i := w.rows[j].stmt;
        var after := NextRows(w.rows[j].closed, w.stmts[i], cells, w.log, lib).0;
        World(w.stmts[i := after.stmt], w.rows[j := RowsOf(i, after.closed)], w.usable, after.log)
      else w
    case CloseRowsOp(j) =>
      if j < |w.rows| then
        var i := w.rows[j].stmt;
        var after := CloseRows(w.rows[j].closed, w.stmts[i], w.log, lib);
        World(w.stmts[i := after.stmt], w.rows[j := RowsOf(i, after.closed)], w.usable, after.log)
      else w
    case CloseConnOp => w.(usable := false)
  }

  /** The handles of the statements that are not closed. */
  function OpenHandles(stmts: seq<Stmt>): set<nat> {
    set i | 0 <= i < |stmts| && !stmts[i].closed && stmts[i].handle != 0 :: stmts[i].handle
  }

  /** The log keeps the rules, and exactly the handles of open statements are live. */
  ghost predicate HandleInv(stmts: seq<Stmt>, log: seq<Call>) {
    && ObserveAll(log).Some?
    && (forall h :: h in ObserveAll(log).value.used ==> 0 < h <= |log|)
    && ObserveAll(log).value.live == OpenHandles(stmts) <= ObserveAll(log).value.used
    && (forall i {:trigger stmts[i]} :: 0 <= i < |stmts| && stmts[i].closed ==> stmts[i].handle == 0)
    && forall i, k :: 0 <= i < k < |stmts| && stmts[i].handle != 0 ==> stmts[i].handle != stmts[k].handle
  }

  ghost predicate IndexesOk(w: World) {
    forall j {:trigger w.rows[j]} :: 0 <= j < |w.rows| ==> w.rows[j].stmt < |w.stmts|
  }

  ghost predicate Inv(w: World) {
    IndexesOk(w) && HandleInv(w.stmts, w.log) && EphemeralInv(w)
  }

  ghost predicate HasRows(rows: seq<RowsOf>, i: nat) {
    exists j {:trigger rows[j]} :: 0 <= j < |rows| && rows[j].stmt == i
  }

  /** An ephemeral statement has exactly one rows object and is closed exactly when that is. */
  ghost predicate EphemeralInv(w: World) {
    && (forall j {:trigger w.rows[j]} ::
          0 <= j < |w.rows| && w.rows[j].stmt < |w.stmts| && w.stmts[w.rows[j].stmt].ephemeral ==>
          (w.rows[j].closed <==> w.stmts[w.rows[j].stmt].closed))
    && (forall i {:trigger HasRows(w.rows, i)} :: 0 <= i < |w.stmts| && w.stmts[i].ephemeral ==> HasRows(w.rows, i))
    && (forall j, k :: 0 <= j < k < |w.rows| && w.rows[j].stmt == w.rows[k].stmt && w.rows[j].stmt < |w.stmts| ==>
          !w.stmts[w.rows[j].stmt].ephemeral)
  }

  lemma {:induction false} HasRowsKept(rows: seq<RowsOf>, after: seq<RowsOf>, i: nat)
    requires HasRows(rows, i) && |rows| <= |after|
    requires forall j {:trigger after[j]} :: 0 <= j < |rows| ==> after[j].stmt == rows[j].stmt
    ensures HasRows(after, i)
  {
    var j :| 0 <= j < |rows| && rows[j].stmt == i;
    assert after[j].stmt == i;
  }

  lemma {:induction false} StmtHandleUsable(w: World, i: nat)
    requires Inv(w) && i < |w.stmts|
    ensures w.stmts[i].handle == 0 || w.stmts[i].handle in ObserveAll(w.log).value.live
  {
  }

  /** Nothing but calls on a usable handle happened. */
  lemma {:induction false} InvUses(w: World, log: seq<Call>, handle: nat)
    requires Inv(w) && Uses(w.log, log, handle)
    requires handle == 0 || handle in ObserveAll(w.log).value.live
    ensures Inv(w.(log := log))
  {
    UsesKeepsMonitor(w.log, log, handle);
  }

  /** Statement i was closed. */
  lemma {:induction false} HandleFinalized(stmts: seq<Stmt>, log: seq<Call>, i: nat, lib: Library)
    requires HandleInv(stmts, log) && i < |stmts| && !stmts[i].closed
    ensures var after := CloseStmt(stmts[i], log, lib); HandleInv(stmts[i := after.stmt], after.log)
  {
    ObserveSnoc(log, Finalize(stmts[i].handle));
    OpenWithout(stmts, i, CloseStmt(stmts[i], log, lib).stmt);
  }

  lemma {:induction false} OpenWithout(stmts: seq<Stmt>, i: nat, s: Stmt)
    requires i < |stmts| && s.closed && s.handle == 0 && !stmts[i].closed
    requires forall i, k :: 0 <= i < k < |stmts| && stmts[i].handle != 0 ==> stmts[i].handle != stmts[k].handle
    ensures OpenHandles(stmts[i := s]) == OpenHandles(stmts) - {stmts[i].handle}
  {
    var after := stmts[i := s];
    forall h | h in OpenHandles(stmts) && h != stmts[i].handle
      ensures h in OpenHandles(after)
    {
      var k :| 0 <= k < |stmts| && !stmts[k].closed && stmts[k].handle != 0 && stmts[k].handle == h;
      assert after[k] == stmts[k];
    }
  }

  /** A statement was prepared; its handle is new because it is numbered by its call. */
  lemma {:induction false} HandlePrepared(stmts: seq<Stmt>, log: seq<Call>, s: Stmt)
    requires HandleInv(stmts, log) && !s.closed && (s.handle == 0 || s.handle == |log| + 1)
    ensures HandleInv(stmts + [s], log + [Prepare(s.handle)])
  {
    ObserveSnoc(log, Prepare(s.handle));
    OpenWith(stmts, s);
    forall i | 0 <= i < |stmts| && stmts[i].handle != 0
      ensures stmts[i].handle != s.handle
    {
      assert stmts[i].handle in OpenHandles(stmts);
    }
  }

  lemma {:induction false} PlainAdded(w: World, s: Stmt)
    requires IndexesOk(w) && EphemeralInv(w) && !s.ephemeral
    ensures IndexesOk(w.(stmts := w.stmts + [s])) && EphemeralInv(w.(stmts := w.stmts + [s]))
  {
    var w' := w.(stmts := w.stmts + [s]);
    forall i | 0 <= i < |w'.stmts| && w'.stmts[i].ephemeral
      ensures HasRows(w'.rows, i)
    {
      assert w'.stmts[i] == w.stmts[i] && HasRows(w.rows, i);
    }
  }

  lemma {:induction false} EphemeralAdded(w: World, s: Stmt)
    requires IndexesOk(w) && EphemeralInv(w) && s.ephemeral && !s.closed
    ensures var w' := w.(stmts := w.stmts + [s], rows := w.rows + [RowsOf(|w.stmts|, false)]);
      IndexesOk(w') && EphemeralInv(w')
  {
    var w' := w.(stmts := w.stmts + [s], rows := w.rows + [RowsOf(|w.stmts|, false)]);
    var n := |w.stmts|;
    forall j | 0 <= j < |w'.rows|
      ensures w'.rows[j].stmt < |w'.stmts|
      ensures w'.rows[j] == if j < |w.rows| then w.rows[j] else RowsOf(n, false)
    {
    }
    forall i | 0 <= i < |w'.stmts| && w'.stmts[i].ephemeral
      ensures HasRows(w'.rows, i)
    {
      if i < n {
        assert HasRows(w.rows, i);
        HasRowsKept(w.rows, w'.rows, i);
      } else {
        assert w'.rows[|w.rows|].stmt == i;
      }
    }
  }

  lemma {:induction false} OpenWith(stmts: seq<Stmt>, s: Stmt)
    requires !s.closed
    ensures OpenHandles(stmts + [s]) == OpenHandles(stmts) + if s.handle == 0 then {} else {s.handle}
  {
    var after := stmts + [s];
    forall h | h in OpenHandles(stmts)
      ensures h in OpenHandles(after)
    {
      var k :| 0 <= k < |stmts| && !stmts[k].closed && stmts[k].handle != 0 && stmts[k].handle == h;
      assert after[k] == stmts[k];
    }
    assert after[|stmts|] == s;
  }

  lemma {:induction false} InvConnExec(w: World, ctxDone: bool, emptyText: bool, args: seq<Argument>, lib: Library)
    requires Inv(w) && Finite(lib)
    ensures Inv(w.(log := ExecTransient(w.usable, ctxDone, emptyText, args, w.log, lib).0))
  {
    TransientExecFinalizesOnce(w.usable, ctxDone, emptyText, args, w.log, lib);
    var log' := ExecTransient(w.usable, ctxDone, emptyText, args, w.log, lib).0;
    if w.usable && !ctxDone {
      if lib.reply(|w.log|) != OK {
        ObserveSnoc(w.log, Prepare(0));
      } else {
        var h := PreparedHandle(w.log, emptyText, lib);
        var mid :| Uses(w.log + [Prepare(h)], mid, h) && log' == mid + [Finalize(h)];
        ObserveSnoc(w.log, Prepare(h));
        UsesKeepsMonitor(w.log + [Prepare(h)], mid, h);
        ObserveSnoc(mid, Finalize(h));
      }
    }
  }

  /** The rows j were closed: an ephemeral statement with them. */
  lemma {:induction false} InvRowsClosed(w: World, j: nat, lib: Library)
    requires Inv(w) && j < |w.rows| && !w.rows[j].closed
    ensures var i := w.rows[j].stmt; var after := CloseRows(false, w.stmts[i], w.log, lib);
      Inv(World(w.stmts[i := after.stmt], w.rows[j := RowsOf(i, true)], w.usable, after.log))
  {
    var i := w.rows[j].stmt;
    var s := w.stmts[i];
    if s.ephemeral {
      HandleFinalized(w.stmts, w.log, i, lib);
      EphemeralClosed(w, j, CloseStmt(s, w.log, lib).stmt);
    } else {
      ResetUses(s, w.log, lib);
      StmtHandleUsable(w, i);
      InvUses(w, ResetStmt(s, w.log, lib).log, s.handle);
      assert w.stmts[i := s] == w.stmts;
      EphemeralKept(w, j);
    }
  }

  lemma {:induction false} EphemeralClosed(w: World, j: nat, s: Stmt)
    requires EphemeralInv(w) && j < |w.rows| && w.rows[j].stmt < |w.stmts|
    requires w.stmts[w.rows[j].stmt].ephemeral && s.ephemeral && s.closed
    ensures EphemeralInv(w.(stmts := w.stmts[w.rows[j].stmt := s], rows := w.rows[j := RowsOf(w.rows[j].stmt, true)]))
  {
    var w' := w.(stmts := w.stmts[w.rows[j].stmt := s], rows := w.rows[j := RowsOf(w.rows[j].stmt, true)]);
    forall l | 0 <= l < |w'.stmts| && w'.stmts[l].ephemeral
      ensures HasRows(w'.rows, l)
    {
      assert HasRows(w.rows, l);
      HasRowsKept(w.rows, w'.rows, l);
    }
  }

  lemma {:induction false} EphemeralKept(w: World, j: nat)
    requires EphemeralInv(w) && j < |w.rows| && w.rows[j].stmt < |w.stmts|
    requires !w.stmts[w.rows[j].stmt].ephemeral
    ensures EphemeralInv(w.(rows := w.rows[j := RowsOf(w.rows[j].stmt, true)]))
  {
    var w' := w.(rows := w.rows[j := RowsOf(w.rows[j].stmt, true)]);
    forall l | 0 <= l < |w.stmts| && w.stmts[l].ephemeral
      ensures HasRows(w'.rows, l)
    {
      assert HasRows(w.rows, l);
      HasRowsKept(w.rows, w'.rows, l);
    }
  }

  lemma {:induction false} InvNext(w: World, j: nat, cells: nat, lib: Library)
    requires Inv(w) && Finite(lib)
    ensures Inv(Step(w, NextOp(j, cells), lib))
  {
    if j < |w.rows| {
      var i := w.rows[j].stmt;
      var s := w.stmts[i];
      assert w.stmts[i := s] == w.stmts;
      assert w.rows[j := RowsOf(i, w.rows[j].closed)] == w.rows;
      if !w.rows[j].closed {
        var stepped := w.log + [StepCall(s.handle)];
        StmtHandleUsable(w, i);
        InvUses(w, stepped, s.handle);
        var w1 := w.(log := stepped);
        if lib.reply(|w.log|) == ROW {
          assert Uses(stepped, stepped + ReadCalls(s.handle, cells), s.handle);
          StmtHandleUsable(w1, i);
          InvUses(w1, stepped + ReadCalls(s.handle, cells), s.handle);
        } else {
          InvRowsClosed(w1, j, lib);
        }
      }
    }
  }

  /** A query that failed after its preparation gives its handle back. */
  lemma {:induction false} FailedQueryFinalizes(w: World, s: Stmt, log2: seq<Call>, lib: Library)
    requires Inv(w) && !s.closed && (s.handle == 0 || s.handle == |w.log| + 1)
    requires Uses(w.log + [Prepare(s.handle)], log2, s.handle)
    ensures Inv(w.(log := CloseStmt(s, log2, lib).log))
  {
    ObserveSnoc(w.log, Prepare(s.handle));
    UsesKeepsMonitor(w.log + [Prepare(s.handle)], log2, s.handle);
    ObserveSnoc(log2, Finalize(s.handle));
  }

  lemma {:induction false} StartedQuery(w: World, s: Stmt, log2: seq<Call>)
    requires Inv(w) && s.ephemeral && !s.closed && (s.handle == 0 || s.handle == |w.log| + 1)
    requires Uses(w.log + [Prepare(s.handle)], log2, s.handle)
    ensures Inv(w.(stmts := w.stmts + [s], rows := w.rows + [RowsOf(|w.stmts|, false)], log := log2))
  {
    HandlePrepared(w.stmts, w.log, s);
    EphemeralAdded(w, s);
    var w1 := w.(stmts := w.stmts + [s], rows := w.rows + [RowsOf(|w.stmts|, false)],
                 log := w.log + [Prepare(s.handle)]);
    assert Inv(w1) && w1.stmts[|w.stmts|] == s;
    StmtHandleUsable(w1, |w.stmts|);
    InvUses(w1, log2, s.handle);
  }

  lemma {:induction false} PreparedPlain(w: World, s: Stmt)
    requires Inv(w) && !s.ephemeral && !s.closed && (s.handle == 0 || s.handle == |w.log| + 1)
    ensures Inv(w.(stmts := w.stmts + [s], log := w.log + [Prepare(s.handle)]))
  {
    HandlePrepared(w.stmts, w.log, s);
    PlainAdded(w, s);
  }

  /** A preparation that gave no handle. */
  lemma {:induction false} PreparedNothing(w: World)
    requires Inv(w)
    ensures Inv(w.(log := w.log + [Prepare(0)]))
  {
    ObserveSnoc(w.log, Prepare(0));
  }

  lemma {:induction false} InvQueryPrepared(w: World, emptyText: bool, args: seq<Argument>, columns: nat, lib: Library)
    requires Inv(w) && Finite(lib) && w.usable && lib.reply(|w.log|) == OK
    ensures Inv(Step(w, ConnQueryOp(false, emptyText, args, columns), lib))
  {
    var s := Stmt(PreparedHandle(w.log, emptyText, lib), true, false);
    var log1 := w.log + [Prepare(s.handle)];
    QueryUses(s, w.usable, args, columns, log1, lib);
    var (log2, ok) := QueryStmt(s, w.usable, args, columns, log1, lib);
    if ok {
      StartedQuery(w, s, log2);
    } else {
      FailedQueryFinalizes(w, s, log2, lib);
    }
  }

  lemma {:induction false} InvQueryTransient(
    w: World, ctxDone: bool, emptyText: bool, args: seq<Argument>, columns: nat, lib: Library)
    requires Inv(w) && Finite(lib)
    ensures Inv(Step(w, ConnQueryOp(ctxDone, emptyText, args, columns), lib))
  {
    if !w.usable || ctxDone {
      assert Step(w, ConnQueryOp(ctxDone, emptyText, args, columns), lib) == w;
    } else if lib.reply(|w.log|) == OK {
      InvQueryPrepared(w, emptyText, args, columns, lib);
    } else {
      PreparedNothing(w);
    }
  }

  lemma {:induction false} InvPrepare(w: World, ctxDone: bool, emptyText: bool, lib: Library)
    requires Inv(w) && Finite(lib)
    ensures Inv(Step(w, PrepareOp(ctxDone, emptyText), lib))
  {
    var (s, log) := PrepareStmt(w.usable, ctxDone, emptyText, false, w.log, lib);
    if !w.usable || ctxDone {
      assert Step(w, PrepareOp(ctxDone, emptyText), lib) == w;
    } else if s.Some? {
      PreparedPlain(w, s.value);
    } else {
      PreparedNothing(w);
    }
  }

  lemma {:induction false} InvExec(w: World, i: nat, args: seq<Argument>, lib: Library)
    requires Inv(w) && Finite(lib)
    ensures Inv(Step(w, ExecOp(i, args), lib))
  {
    if i < |w.stmts| && !w.stmts[i].ephemeral {
      ExecUses(w.stmts[i], w.usable, args, w.log, lib);
      StmtHandleUsable(w, i);
      InvUses(w, ExecStmt(w.stmts[i], w.usable, args, w.log, lib).log, w.stmts[i].handle);
      assert w.stmts[i := w.stmts[i]] == w.stmts;
    }
  }

  lemma {:induction false} InvQuery(w: World, i: nat, args: seq<Argument>, columns: nat, lib: Library)
    requires Inv(w) && Finite(lib)
    ensures Inv(Step(w, QueryOp(i, args, columns), lib))
  {
    if i < |w.stmts| && !w.stmts[i].ephemeral {
      QueryUses(w.stmts[i], w.usable, args, columns, w.log, lib);
      StmtHandleUsable(w, i);
      InvUses(w, QueryStmt(w.stmts[i], w.usable, args, columns, w.log, lib).0, w.stmts[i].handle);
      MoreRows(w, i);
    }
  }

  lemma {:induction false} InvClose(w: World, i: nat, lib: Library)
    requires Inv(w) && Finite(lib)
    ensures Inv(Step(w, CloseOp(i), lib))
  {
    if i < |w.stmts| && !w.stmts[i].ephemeral {
      if w.stmts[i].closed {
        assert w.stmts[i := w.stmts[i]] == w.stmts;
      } else {
        HandleFinalized(w.stmts, w.log, i, lib);
        NotEphemeralChanged(w, i, CloseStmt(w.stmts[i], w.log, lib).stmt);
      }
    }
  }

  lemma {:induction false} NotEphemeralChanged(w: World, i: nat, s: Stmt)
    requires IndexesOk(w) && EphemeralInv(w) && i < |w.stmts| && !w.stmts[i].ephemeral && !s.ephemeral
    ensures EphemeralInv(w.(stmts := w.stmts[i := s]))
  {
    var w' := w.(stmts := w.stmts[i := s]);
    forall l | 0 <= l < |w'.stmts| && w'.stmts[l].ephemeral
      ensures HasRows(w'.rows, l)
    {
      assert HasRows(w.rows, l);
    }
  }

  lemma {:induction false} MoreRows(w: World, i: nat)
    requires EphemeralInv(w) && i < |w.stmts| && !w.stmts[i].ephemeral
    ensures EphemeralInv(w.(rows := w.rows + [RowsOf(i, false)]))
  {
    var w' := w.(rows := w.rows + [RowsOf(i, false)]);
    forall k | 0 <= k < |w.rows| ensures w'.rows[k] == w.rows[k] {}
    forall l | 0 <= l < |w.stmts| && w.stmts[l].ephemeral
      ensures HasRows(w'.rows, l)
    {
      assert HasRows(w.rows, l);
      HasRowsKept(w.rows, w'.rows, l);
    }
  }

  lemma {:induction false} InvStep(w: World, op: Op, lib: Library)
    requires Inv(w) && Finite(lib)
    ensures Inv(Step(w, op, lib))
  {
    match op {
      case PrepareOp(ctxDone, emptyText) => InvPrepare(w, ctxDone, emptyText, lib);
      case ExecOp(i, args) => InvExec(w, i, args, lib);
      case QueryOp(i, args, columns) => InvQuery(w, i, args, columns, lib);
      case CountOp(i) =>
        if i < |w.stmts| {
          StmtHandleUsable(w, i);
          InvUses(w, w.log + [ParameterCount(w.stmts[i].handle)], w.stmts[i].handle);
        }
      case CloseOp(i) => InvClose(w, i, lib);
      case ConnExecOp(ctxDone, emptyText, args) => InvConnExec(w, ctxDone, emptyText, args, lib);
      case ConnQueryOp(ctxDone, emptyText, args, columns) =>
        InvQueryTransient(w, ctxDone, emptyText, args, columns, lib);
      case NextOp(j, cells) => InvNext(w, j, cells, lib);
      case CloseRowsOp(j) =>
        if j < |w.rows| {
          var i := w.rows[j].stmt;
          if w.rows[j].closed {
            assert w.stmts[i := w.stmts[i]] == w.stmts && w.rows[j := RowsOf(i, true)] == w.rows;
          } else {
            InvRowsClosed(w, j, lib);
          }
        }
      case CloseConnOp =>
    }
  }

  const FRESH := World([], [], true, [])

  /** The operations lead from a fresh connection to `w`. */
  ghost predicate Reaches(ops: seq<Op>, w: World, lib: Library)
    requires Finite(lib)
  {
    if ops == [] then w == FRESH
    else exists before ::
      Reaches(ops[..|ops| - 1], before, lib) && IndexesOk(before) && w == Step(before, ops[|ops| - 1], lib)
  }

  lemma {:induction false} ReachesInv(ops: seq<Op>, w: World, lib: Library)
    requires Finite(lib) && Reaches(ops, w, lib)
    ensures Inv(w)
  {
    if ops != [] {
      var before :| Reaches(ops[..|ops| - 1], before, lib) && IndexesOk(before)
                 && w == Step(before, ops[|ops| - 1], lib);
      ReachesInv(ops[..|ops| - 1], before, lib);
      InvStep(before, ops[|ops| - 1], lib);
    }
  }

  /** Every list of operations leads somewhere. */
  lemma {:induction false} RunExists(ops: seq<Op>, lib: Library) returns (w: World)
    requires Finite(lib)
    ensures Inv(w) && Reaches(ops, w, lib)
  {
    if ops == [] {
      w := FRESH;
    } else {
      var before := RunExists(ops[..|ops| - 1], lib);
      InvStep(before, ops[|ops| - 1], lib);
      w := Step(before, ops[|ops| - 1], lib);
      assert Reaches(ops[..|ops| - 1], before, lib) && IndexesOk(before) && w == Step(before, ops[|ops| - 1], lib);
    }
  }

  // ---- what every run guarantees ----

  lemma {:induction false} UsedGrows(log: seq<Call>, n: nat)
    requires n <= |log| && ObserveAll(log).Some?
    ensures ObserveAll(log[..n]).Some?
    ensures ObserveAll(log[..n]).value.used <= ObserveAll(log).value.used
    ensures forall h :: h in ObserveAll(log[..n]).value.used && h !in ObserveAll(log[..n]).value.live ==>
      h !in ObserveAll(log).value.live
  {
    if n == |log| {
      assert log[..n] == log;
    } else {
      var init := log[..|log| - 1];
      assert init[..n] == log[..n];
      UsedGrows(init, n);
    }
  }

  /** What finalising a live handle leaves: the handle was given out and is not live. */
  lemma {:induction false} FinalizedIsDead(log: seq<Call>, h: nat)
    requires h != 0 && ObserveAll(log + [Finalize(h)]).Some?
    ensures h in ObserveAll(log + [Finalize(h)]).value.used
    ensures h !in ObserveAll(log + [Finalize(h)]).value.live
  {
    ObserveSnoc(log, Finalize(h));
    LiveIsUsed(log);
  }

  /** A dead handle admits no call. */
  lemma {:induction false} DeadAdmitsNoCall(log: seq<Call>, c: Call)
    requires ObserveAll(log + [c]).Some? && ObserveAll(log).Some? && c.handle != 0
    ensures c.handle !in ObserveAll(log).value.used || c.handle in ObserveAll(log).value.live
  {
    ObserveSnoc(log, c);
  }

  lemma {:induction false} FinalizedStays(log: seq<Call>, i: nat, j: nat)
    requires ObserveAll(log).Some?
    requires i < j < |log| && log[i].Finalize? && log[i].handle != 0
    ensures log[j].handle != log[i].handle
  {
    var h := log[i].handle;
    UsedGrows(log, j + 1);
    UsedGrows(log, j);
    UsedGrows(log[..j], i + 1);
    assert log[..j][..i + 1] == log[..i] + [Finalize(h)];
    FinalizedIsDead(log[..i], h);
    assert log[..j + 1] == log[..j] + [log[j]];
    if log[j].handle == h {
      DeadAdmitsNoCall(log[..j], log[j]);
    }
  }

  /** A finalised handle never appears in a later call: no second finalisation, no use after it. */
  lemma {:induction false} NoCallAfterFinalize(ops: seq<Op>, w: World, lib: Library, i: nat, j: nat)
    requires Finite(lib) && Reaches(ops, w, lib)
    requires i < j < |w.log| && w.log[i].Finalize? && w.log[i].handle != 0
    ensures w.log[j].handle != w.log[i].handle
  {
    ReachesInv(ops, w, lib);
    FinalizedStays(w.log, i, j);
  }

  lemma {:induction false} LiveIsUsed(log: seq<Call>)
    requires ObserveAll(log).Some?
    ensures ObserveAll(log).value.live <= ObserveAll(log).value.used
  {
    if log != [] {
      LiveIsUsed(log[..|log| - 1]);
    }
  }

  /** The client closed everything it holds. */
  ghost predicate ClientClosed(w: World) {
    && (forall i {:trigger w.stmts[i]} :: 0 <= i < |w.stmts| && !w.stmts[i].ephemeral ==> w.stmts[i].closed)
    && (forall j {:trigger w.rows[j]} :: 0 <= j < |w.rows| ==> w.rows[j].closed)
  }

  lemma {:induction false} EphemeralIsClosed(w: World, i: nat)
    requires EphemeralInv(w) && ClientClosed(w) && i < |w.stmts|
    ensures w.stmts[i].closed
  {
    if w.stmts[i].ephemeral {
      assert HasRows(w.rows, i);
      var j :| 0 <= j < |w.rows| && w.rows[j].stmt == i;
      assert w.rows[j].closed;
    }
  }

  /** Exactly the handles of open statements are live; once the client has closed its statements and
      rows every handle ever given out has been finalised. */
  lemma {:induction false} NothingLeaks(ops: seq<Op>, w: World, lib: Library)
    requires Finite(lib) && Reaches(ops, w, lib)
    ensures ObserveAll(w.log).Some? && ObserveAll(w.log).value.live == OpenHandles(w.stmts)
    ensures ClientClosed(w) ==> ObserveAll(w.log).value.live == {}
  {
    ReachesInv(ops, w, lib);
    if ClientClosed(w) {
      forall i | 0 <= i < |w.stmts| ensures w.stmts[i].closed {
        EphemeralIsClosed(w, i);
      }
    }
  }

  // ---- the nil handle ----

  /** Calls for which SQLite does not document that a nil statement is accepted. */
  predicate WantsStatement(c: Call) {
    !(c.Reset? || c.StepCall? || c.Finalize? || c.Prepare?)
  }

  /** Between two logs some call that wants a statement got the nil handle. */
  ghost predicate NilReaches(log: seq<Call>, log': seq<Call>) {
    exists k {:trigger log'[k]} :: |log| <= k < |log'| && log'[k].handle == 0 && WantsStatement(log'[k])
  }

  lemma {:induction false} UsesOtherHandle(log: seq<Call>, log': seq<Call>, handle: nat)
    requires Uses(log, log', handle) && handle != 0
    ensures !NilReaches(log, log')
  {
  }

  /** Binding clears the bindings as soon as the connection is usable and the reset succeeds. */
  lemma {:induction false} BindClears(s: Stmt, usable: bool, args: seq<Argument>, log: seq<Call>, lib: Library)
    ensures var log' := BindStmt(s, usable, args, log, lib).0;
      if usable && lib.reply(|log|) == OK then |log'| > |log| + 1 && log'[|log| + 1] == ClearBindings(s.handle)
      else log' == log || log' == log + [Reset(s.handle)]
    ensures BindStmt(s, usable, args, log, lib).1 ==> usable && lib.reply(|log|) == OK
  {
    var cleared := log + [Reset(s.handle), ClearBindings(s.handle)];
    BindAllUses(s.handle, args, cleared, lib);
    assert cleared[|log| + 1] == ClearBindings(s.handle);
  }

  /** Binding passes the nil handle on exactly for a statement without a handle, once the connection is
      usable and the reset of nil reports success; so do querying, and executing a statement that the
      client keeps. */
  lemma {:induction false} NilReachesExactly(
    s: Stmt, usable: bool, args: seq<Argument>, columns: nat, log: seq<Call>, lib: Library)
    requires Finite(lib)
    ensures NilReaches(log, BindStmt(s, usable, args, log, lib).0) <==>
      s.handle == 0 && usable && lib.reply(|log|) == OK
    ensures NilReaches(log, QueryStmt(s, usable, args, columns, log, lib).0) <==>
      s.handle == 0 && usable && lib.reply(|log|) == OK
    ensures !s.ephemeral ==>
      (NilReaches(log, ExecStmt(s, usable, args, log, lib).log) <==>
        s.handle == 0 && usable && lib.reply(|log|) == OK)
  {
    BindClears(s, usable, args, log, lib);
    BindUses(s, usable, args, log, lib);
    QueryUses(s, usable, args, columns, log, lib);
    var bound := BindStmt(s, usable, args, log, lib).0;
    NilCleared(s, usable, log, bound, bound, lib);
    NilCleared(s, usable, log, bound, QueryStmt(s, usable, args, columns, log, lib).0, lib);
    if !s.ephemeral {
      ExecUses(s, usable, args, log, lib);
      ExecExtendsBind(s, usable, args, log, lib);
      NilCleared(s, usable, log, bound, ExecStmt(s, usable, args, log, lib).log, lib);
    }
  }

  lemma {:induction false} NilCleared(
    s: Stmt, usable: bool, log: seq<Call>, bound: seq<Call>, log': seq<Call>, lib: Library)
    requires Uses(log, log', s.handle) && bound <= log'
    requires
      if usable && lib.reply(|log|) == OK then |bound| > |log| + 1 && bound[|log| + 1] == ClearBindings(s.handle)
      else log' == bound && (bound == log || bound == log + [Reset(s.handle)])
    ensures NilReaches(log, log') <==> s.handle == 0 && usable && lib.reply(|log|) == OK
  {
    if s.handle != 0 {
      UsesOtherHandle(log, log', s.handle);
    } else if usable && lib.reply(|log|) == OK {
      assert log'[|log| + 1] == bound[|log| + 1];
      assert WantsStatement(log'[|log| + 1]);
    }
  }

  lemma {:induction false} ExecExtendsBind(s: Stmt, usable: bool, args: seq<Argument>, log: seq<Call>, lib: Library)
    requires Finite(lib) && !s.ephemeral
    ensures var (bound, ok) := BindStmt(s, usable, args, log, lib);
      bound <= ExecStmt(s, usable, args, log, lib).log && (!ok ==> ExecStmt(s, usable, args, log, lib).log == bound)
  {
    var (bound, ok) := BindStmt(s, usable, args, log, lib);
    if ok {
      StepAllUses(s.handle, bound, lib, lib.horizon(|bound|));
      ResetUses(s, ExecBoundStmt(s.handle, bound, lib).0, lib);
    }
  }

  /** A row of a statement without a handle is read from nil. */
  lemma {:induction false} NilReadExactly(closed: bool, s: Stmt, cells: nat, log: seq<Call>, lib: Library)
    ensures NilReaches(log, NextRows(closed, s, cells, log, lib).0.log) <==>
      !closed && s.handle == 0 && lib.reply(|log|) == ROW && cells > 0
  {
    var log' := NextRows(closed, s, cells, log, lib).0.log;
    if !closed && lib.reply(|log|) == ROW && cells > 0 {
      assert log'[|log| + 1] == ReadColumn(s.handle);
    }
  }

  /** Around the calls of one statement only its preparation and finalisation were logged. */
  lemma {:induction false} NilBetween(log: seq<Call>, handle: nat, mid: seq<Call>)
    requires log + [Prepare(handle)] <= mid
    ensures NilReaches(log, mid) <==> NilReaches(log + [Prepare(handle)], mid)
    ensures NilReaches(log, mid + [Finalize(handle)]) <==> NilReaches(log + [Prepare(handle)], mid)
  {
    var all := mid + [Finalize(handle)];
    if NilReaches(log + [Prepare(handle)], mid) {
      var k :| |log| < k < |mid| && mid[k].handle == 0 && WantsStatement(mid[k]);
      assert all[k] == mid[k];
    }
    if NilReaches(log, all) {
      var k :| |log| <= k < |all| && all[k].handle == 0 && WantsStatement(all[k]);
      assert k < |mid| && mid[k] == all[k] && mid[|log|] == Prepare(handle);
    }
  }

  /** Through the connection the nil handle is passed on exactly for an empty text, once the
      preparation and the reset of nil report success. */
  lemma {:induction false} NilTransientExactly(usable: bool, ctxDone: bool, emptyText: bool, args: seq<Argument>,
                                               columns: nat, log: seq<Call>, lib: Library)
    requires Finite(lib)
    ensures NilReaches(log, ExecTransient(usable, ctxDone, emptyText, args, log, lib).0) <==>
      usable && !ctxDone && emptyText && lib.reply(|log|) == OK && lib.reply(|log| + 1) == OK
    ensures NilReaches(log, QueryTransient(usable, ctxDone, emptyText, args, columns, log, lib).1) <==>
      usable && !ctxDone && emptyText && lib.reply(|log|) == OK && lib.reply(|log| + 1) == OK
  {
    var (prepared, log1) := PrepareStmt(usable, ctxDone, emptyText, true, log, lib);
    if prepared.Some? {
      var s := prepared.value;
      NilReachesExactly(s, usable, args, columns, log1, lib);
      NilExecBound(s, usable, args, log1, lib);
      var (bound, ok) := BindStmt(s, usable, args, log1, lib);
      BindUses(s, usable, args, log1, lib);
      QueryUses(s, usable, args, columns, log1, lib);
      NilBetween(log, s.handle, bound);
      NilBetween(log, s.handle, QueryStmt(s, usable, args, columns, log1, lib).0);
      if ok {
        NilBetween(log, s.handle, ExecBoundStmt(s.handle, bound, lib).0);
      }
    }
  }

  /** Stepping after binding makes no difference. */
  lemma {:induction false} NilExecBound(s: Stmt, usable: bool, args: seq<Argument>, log: seq<Call>, lib: Library)
    requires Finite(lib)
    ensures var (bound, ok) := BindStmt(s, usable, args, log, lib);
      ok ==>
        && bound <= ExecBoundStmt(s.handle, bound, lib).0 && log <= bound
        && (NilReaches(log, ExecBoundStmt(s.handle, bound, lib).0) <==>
              s.handle == 0 && usable && lib.reply(|log|) == OK)
  {
    var (bound, ok) := BindStmt(s, usable, args, log, lib);
    BindUses(s, usable, args, log, lib);
    BindClears(s, usable, args, log, lib);
    if ok {
      StepAllUses(s.handle, bound, lib, lib.horizon(|bound|));
      NilCleared(s, usable, log, bound, ExecBoundStmt(s.handle, bound, lib).0, lib);
    }
  }

  /** When an operation of a client passes the nil handle to a call that wants a statement. */
  ghost predicate PassesNil(w: World, op: Op, lib: Library)
    requires IndexesOk(w)
  {
    var n := |w.log|;
    match op
    case ExecOp(i, _) =>
      i < |w.stmts| && !w.stmts[i].ephemeral && w.stmts[i].handle == 0 && w.usable && lib.reply(n) == OK
    case QueryOp(i, _, _) =>
      i < |w.stmts| && !w.stmts[i].ephemeral && w.stmts[i].handle == 0 && w.usable && lib.reply(n) == OK
    case CountOp(i) => i < |w.stmts| && !w.stmts[i].ephemeral && w.stmts[i].handle == 0
    case ConnExecOp(ctxDone, emptyText, _) =>
      w.usable && !ctxDone && emptyText && lib.reply(n) == OK && lib.reply(n + 1) == OK
    case ConnQueryOp(ctxDone, emptyText, _, _) =>
      w.usable && !ctxDone && emptyText && lib.reply(n) == OK && lib.reply(n + 1) == OK
    case NextOp(j, cells) =>
      j < |w.rows| && !w.rows[j].closed && w.stmts[w.rows[j].stmt].handle == 0 && lib.reply(n) == ROW && cells > 0
    case _ => false
  }

  /** The exact condition, for every operation in every state. */
  lemma {:induction false} NilStepExactly(w: World, op: Op, lib: Library)
    requires IndexesOk(w) && Finite(lib)
    ensures NilReaches(w.log, Step(w, op, lib).log) <==> PassesNil(w, op, lib)
  {
    match op {
      case ExecOp(i, args) =>
        if i < |w.stmts| {
          NilReachesExactly(w.stmts[i], w.usable, args, 0, w.log, lib);
        }
      case QueryOp(i, args, columns) =>
        if i < |w.stmts| {
          NilReachesExactly(w.stmts[i], w.usable, args, columns, w.log, lib);
        }
      case CountOp(i) =>
        if i < |w.stmts| {
          assert (w.log + [ParameterCount(w.stmts[i].handle)])[|w.log|] == ParameterCount(w.stmts[i].handle);
        }
      case ConnExecOp(ctxDone, emptyText, args) =>
        NilTransientExactly(w.usable, ctxDone, emptyText, args, 0, w.log, lib);
      case ConnQueryOp(ctxDone, emptyText, args, columns) =>
        NilTransientExactly(w.usable, ctxDone, emptyText, args, columns, w.log, lib);
      case NextOp(j, cells) =>
        if j < |w.rows| {
          NilReadExactly(w.rows[j].closed, w.stmts[w.rows[j].stmt], cells, w.log, lib);
        }
      case _ =>
    }
  }

  /** `conn.Exec("")` on a fresh connection, and executing a statement prepared from an empty text. */
  lemma {:induction false} NilInstances(lib: Library)
    requires Finite(lib) && lib.reply(0) == OK && lib.reply(1) == OK
    ensures NilReaches([], Step(FRESH, ConnExecOp(false, true, []), lib).log)
    ensures var w := Step(FRESH, PrepareOp(false, true), lib);
      w.log == [Prepare(0)] && NilReaches(w.log, Step(w, ExecOp(0, []), lib).log)
  {
    NilStepExactly(FRESH, ConnExecOp(false, true, []), lib);
    var w := Step(FRESH, PrepareOp(false, true), lib);
    assert w.stmts == [Stmt(0, false, false)] && w.log == [Prepare(0)];
    NilStepExactly(w, ExecOp(0, []), lib);
  }

  /** A statement has no handle from its preparation on exactly for an empty text, and otherwise from
      the moment it is closed. */
  lemma {:induction false} NilHandleExactly(w: World, op: Op, lib: Library, i: nat)
    requires Inv(w) && Finite(lib) && i < |Step(w, op, lib).stmts|
    ensures Inv(Step(w, op, lib))
    ensures var s := Step(w, op, lib).stmts[i];
      if i < |w.stmts| then s.handle == 0 <==> w.stmts[i].handle == 0 || s.closed
      else (op.PrepareOp? || op.ConnQueryOp?) && !s.closed && (s.handle == 0 <==> op.emptyText)
  {
    InvStep(w, op, lib);
  }
}
