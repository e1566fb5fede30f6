/** When the operations of the SQLite driver report success, in terms of what the native library
    answered to their calls (sqlite3/sqlite3.go). Call k of a log is answered by `lib.reply(k)`. */
module SqliteOutcomes {
  import opened SqliteStatements
  import opened SqliteLifecycle
  import opened Options

  /** The calls from `from` up to `to` were all answered so. */
  ghost predicate AllAnswered(lib: Library, from: nat, to: int, code: int) {
    forall k: nat :: from <= k < to ==> lib.reply(k) == code
  }

  // ---- binding ----

  /** The calls of one argument that was bound: up to four questions for the index of a named one, of
      which the last is answered, and a Bind that succeeds. */
  ghost predicate Bound(handle: nat, arg: Argument, log: seq<Call>, log': seq<Call>, lib: Library) {
    && arg.supported
    && exists tries: nat ::
         && (if arg.named then 1 <= tries <= 4 else tries == 0)
         && log' == log + Questions(handle, tries) + [Bind(handle)]
         && AllAnswered(lib, |log|, |log| + tries - 1, 0)
         && (tries > 0 ==> lib.reply(|log| + tries - 1) != 0)
         && lib.reply(|log| + tries) == OK
  }

  function Questions(handle: nat, n: nat): (calls: seq<Call>)
    ensures |calls| == n
  {
    seq(n, i => ParameterIndex(handle))
  }

  ghost predicate AllBound(handle: nat, args: seq<Argument>, log: seq<Call>, log': seq<Call>, lib: Library) {
    if args == [] then log' == log
    else
      var init, last := args[..|args| - 1], args[|args| - 1];
      exists mid :: AllBound(handle, init, log, mid, lib) && Bound(handle, last, mid, log', lib)
  }

  /** The questions are asked until one is answered or `tries` were. */
  lemma {:induction false} ResolveExact(handle: nat, tries: nat, log: seq<Call>, lib: Library) returns (n: nat)
    ensures var (log', found) := ResolveName(handle, tries, log, lib);
      && n <= tries && log' == log + Questions(handle, n)
      && AllAnswered(lib, |log|, |log| + n - 1, 0)
      && (found ==> n > 0 && lib.reply(|log| + n - 1) != 0)
      && (!found ==> n == tries && AllAnswered(lib, |log|, |log| + n, 0))
    decreases tries
  {
    if tries == 0 {
      n := 0;
      assert log + Questions(handle, 0) == log;
    } else if lib.reply(|log|) != 0 {
      n := 1;
      assert Questions(handle, 1) == [ParameterIndex(handle)];
    } else {
      var next := log + [ParameterIndex(handle)];
      n := ResolveExact(handle, tries - 1, next, lib);
      assert next + Questions(handle, n) == log + Questions(handle, n + 1);
      n := n + 1;
    }
  }

  /** Whether an argument is bound is decided by the answers, and so are the calls. */
  lemma {:induction false} BindOneExact(handle: nat, arg: Argument, log: seq<Call>, lib: Library)
    ensures var (log', ok) := BindOne(handle, arg, log, lib);
      && (ok <==> Bound(handle, arg, log, log', lib))
      && forall other :: Bound(handle, arg, log, other, lib) ==> ok && other == log'
  {
    var tries := 0;
    if arg.named {
      tries := ResolveExact(handle, 4, log, lib);
    } else {
      assert log + Questions(handle, 0) == log;
    }
    var (log', ok) := BindOne(handle, arg, log, lib);
    if ok {
      assert log' == log + Questions(handle, tries) + [Bind(handle)];
      assert Bound(handle, arg, log, log', lib);
    }
    forall other | Bound(handle, arg, log, other, lib) ensures ok && other == log' {
      var n: nat :| (if arg.named then 1 <= n <= 4 else n == 0)
        && other == log + Questions(handle, n) + [Bind(handle)]
        && AllAnswered(lib, |log|, |log| + n - 1, 0)
        && (n > 0 ==> lib.reply(|log| + n - 1) != 0)
        && lib.reply(|log| + n) == OK;
      assert n == tries;
    }
  }

  lemma {:induction false} BindAllExact(handle: nat, args: seq<Argument>, log: seq<Call>, lib: Library)
    ensures var (log', ok) := BindAll(handle, args, log, lib);
      && (ok <==> AllBound(handle, args, log, log', lib))
      && forall other :: AllBound(handle, args, log, other, lib) ==> ok && other == log'
  {
    if args != [] {
      var init, last := args[..|args| - 1], args[|args| - 1];
      BindAllExact(handle, init, log, lib);
      var (before, fine) := BindAll(handle, init, log, lib);
      BindOneExact(handle, last, before, lib);
      forall other | AllBound(handle, args, log, other, lib)
        ensures fine && Bound(handle, last, before, other, lib)
      {
        var mid :| AllBound(handle, init, log, mid, lib) && Bound(handle, last, mid, other, lib);
      }
    }
  }

  /** The calls of one argument that was not bound: four vain questions, an answered one for a type
      that is not supported, or a Bind that fails. */
  ghost predicate NotBound(handle: nat, arg: Argument, log: seq<Call>, log': seq<Call>, lib: Library) {
    || (arg.named && log' == log + Questions(handle, 4) && AllAnswered(lib, |log|, |log| + 4, 0))
    || exists tries: nat ::
         && (if arg.named then 1 <= tries <= 4 else tries == 0)
         && AllAnswered(lib, |log|, |log| + tries - 1, 0)
         && (tries > 0 ==> lib.reply(|log| + tries - 1) != 0)
         && (if arg.supported
             then log' == log + Questions(handle, tries) + [Bind(handle)] && lib.reply(|log| + tries) != OK
             else log' == log + Questions(handle, tries))
  }

  lemma {:induction false} NotBoundExact(handle: nat, arg: Argument, log: seq<Call>, lib: Library)
    ensures var (log', ok) := BindOne(handle, arg, log, lib); !ok ==> NotBound(handle, arg, log, log', lib)
  {
    var tries := 0;
    if arg.named {
      tries := ResolveExact(handle, 4, log, lib);
    } else {
      assert log + Questions(handle, 0) == log;
    }
  }

  /** A failed binding of the arguments ends at the first one that is not bound. */
  lemma {:induction false} BindAllFails(handle: nat, args: seq<Argument>, log: seq<Call>, lib: Library)
    returns (k: nat, mid: seq<Call>)
    requires !BindAll(handle, args, log, lib).1
    ensures k < |args| && AllBound(handle, args[..k], log, mid, lib)
    ensures NotBound(handle, args[k], mid, BindAll(handle, args, log, lib).0, lib)
  {
    var n := |args| - 1;
    BindAllExact(handle, args[..n], log, lib);
    var (before, ok) := BindAll(handle, args[..n], log, lib);
    if ok {
      k, mid := n, before;
      NotBoundExact(handle, args[n], before, lib);
    } else {
      k, mid := BindAllFails(handle, args[..n], log, lib);
      assert args[..n][..k] == args[..k];
    }
  }

  /** The calls of a failed binding: none, a failed reset, a failed clear, or up to an argument. */
  lemma {:induction false} BindFails(s: Stmt, usable: bool, args: seq<Argument>, log: seq<Call>, lib: Library)
    requires !BindStmt(s, usable, args, log, lib).1
    ensures var log' := BindStmt(s, usable, args, log, lib).0; var start := [Reset(s.handle), ClearBindings(s.handle)];
      if !usable then log' == log
      else if lib.reply(|log|) != OK then log' == log + start[..1]
      else if lib.reply(|log| + 1) != OK then log' == log + start
      else exists k, mid :: 0 <= k < |args| && AllBound(s.handle, args[..k], log + start, mid, lib)
                         && NotBound(s.handle, args[k], mid, log', lib)
  {
    var start := [Reset(s.handle), ClearBindings(s.handle)];
    assert start[..1] == [Reset(s.handle)];
    if usable && lib.reply(|log|) == OK && lib.reply(|log| + 1) == OK {
      var k, mid := BindAllFails(s.handle, args, log + start, lib);
    }
  }

  /** Binding on a usable connection: reset and clear succeed, and every argument is bound. */
  ghost predicate BindsTo(
    handle: nat, usable: bool, args: seq<Argument>, log: seq<Call>, bound: seq<Call>, lib: Library)
  {
    && usable && lib.reply(|log|) == OK && lib.reply(|log| + 1) == OK
    && AllBound(handle, args, log + [Reset(handle), ClearBindings(handle)], bound, lib)
  }

  lemma {:induction false} BindExact(s: Stmt, usable: bool, args: seq<Argument>, log: seq<Call>, lib: Library)
    ensures var (bound, ok) := BindStmt(s, usable, args, log, lib);
      && (ok <==> BindsTo(s.handle, usable, args, log, bound, lib))
      && forall other :: BindsTo(s.handle, usable, args, log, other, lib) ==> ok && other == bound
  {
    BindAllExact(s.handle, args, log + [Reset(s.handle), ClearBindings(s.handle)], lib);
  }

  // ---- stepping ----

  /** `n` rows and then the end. */
  ghost predicate StepsToDone(log: seq<Call>, n: nat, lib: Library) {
    && AllAnswered(lib, |log|, |log| + n, ROW)
    && lib.reply(|log| + n) == DONE
  }

  function Steps(handle: nat, n: nat): (calls: seq<Call>)
    ensures |calls| == n
  {
    seq(n, i => StepCall(handle))
  }

  /** Rows are skipped; the first other answer ends the loop, well exactly when it is DONE. */
  lemma {:induction false} StepExact(handle: nat, log: seq<Call>, lib: Library, last: nat) returns (n: nat)
    requires lib.reply(last) != ROW && |log| <= last
    ensures var (log', done) := StepAll(handle, log, lib, last);
      && log' == log + Steps(handle, n + 1)
      && AllAnswered(lib, |log|, |log| + n, ROW)
      && lib.reply(|log| + n) != ROW
      && (done <==> lib.reply(|log| + n) == DONE)
    decreases last - |log|
  {
    if lib.reply(|log|) == ROW {
      var next := log + [StepCall(handle)];
      n := StepExact(handle, next, lib, last);
      assert next + Steps(handle, n + 1) == log + Steps(handle, n + 2);
      n := n + 1;
    } else {
      n := 0;
      assert Steps(handle, 1) == [StepCall(handle)];
    }
  }

  lemma {:induction false} ExecBoundExact(handle: nat, log: seq<Call>, lib: Library)
    requires Finite(lib)
    ensures var (log', done) := ExecBoundStmt(handle, log, lib);
      && (done <==> exists n: nat :: StepsToDone(log, n, lib))
      && forall n: nat :: StepsToDone(log, n, lib) ==> log' == log + Steps(handle, n + 1)
  {
    var n := StepExact(handle, log, lib, lib.horizon(|log|));
    assert forall m: nat :: StepsToDone(log, m, lib) ==> m == n;
    if lib.reply(|log| + n) == DONE {
      assert StepsToDone(log, n, lib);
    }
  }

  // ---- closing and resetting ----

  /** Closing succeeds a second time, and otherwise when finalising does. */
  lemma {:induction false} CloseExact(s: Stmt, log: seq<Call>, lib: Library)
    ensures CloseStmt(s, log, lib).ok <==> s.closed || lib.reply(|log|) == OK
    ensures CloseStmt(s, log, lib).log == if s.closed then log else log + [Finalize(s.handle)]
  {
  }

  /** The answers that let a reset succeed, call `k` being the first. */
  predicate ResetAnswers(s: Stmt, k: nat, lib: Library) {
    s.closed || s.handle == 0
    || (lib.reply(k) == OK && lib.reply(k + 1) == OK && (s.ephemeral ==> lib.reply(k + 2) == OK))
  }

  /** The calls of a reset go up to the first that fails; an ephemeral statement is finalised last. */
  lemma {:induction false} ResetExact(s: Stmt, log: seq<Call>, lib: Library)
    ensures ResetStmt(s, log, lib).ok <==> ResetAnswers(s, |log|, lib)
    ensures var calls := [Reset(s.handle), ClearBindings(s.handle), Finalize(s.handle)];
      ResetStmt(s, log, lib).log == log +
        if s.closed || s.handle == 0 then []
        else if lib.reply(|log|) != OK then calls[..1]
        else if lib.reply(|log| + 1) != OK || !s.ephemeral then calls[..2]
        else calls
  {
    var calls := [Reset(s.handle), ClearBindings(s.handle), Finalize(s.handle)];
    assert calls[..1] == [Reset(s.handle)] && calls[..2] == [Reset(s.handle), ClearBindings(s.handle)];
    assert log + [] == log;
    assert log + calls[..2] + [Finalize(s.handle)] == log + calls;
  }

  // ---- executing ----

  /** The calls of an execution that went well up to the end of its rows. */
  lemma {:induction false} ExecCalls(
    s: Stmt, usable: bool, args: seq<Argument>, log: seq<Call>, bound: seq<Call>, n: nat, lib: Library)
    requires Finite(lib) && BindsTo(s.handle, usable, args, log, bound, lib) && StepsToDone(bound, n, lib)
    ensures ExecStmt(s, usable, args, log, lib).log
         == ResetStmt(s, bound + Steps(s.handle, n + 1), lib).log
    ensures !s.closed && s.handle != 0 && ResetAnswers(s, |bound| + n + 1, lib) ==>
      ExecStmt(s, usable, args, log, lib).log
      == bound + Steps(s.handle, n + 1) + [Reset(s.handle), ClearBindings(s.handle)]
         + if s.ephemeral then [Finalize(s.handle)] else []
  {
    BindExact(s, usable, args, log, lib);
    ExecBoundExact(s.handle, bound, lib);
    var stepped := bound + Steps(s.handle, n + 1);
    if !s.closed && s.handle != 0 && ResetAnswers(s, |stepped|, lib) && !s.ephemeral {
      assert stepped + [Reset(s.handle), ClearBindings(s.handle)] + []
          == stepped + [Reset(s.handle), ClearBindings(s.handle)];
    }
  }

  /** Executing a statement reports success exactly when it was bound, stepped to the end, and reset. */
  lemma {:induction false} ExecExact(s: Stmt, usable: bool, args: seq<Argument>, log: seq<Call>, lib: Library)
    requires Finite(lib)
    ensures ExecStmt(s, usable, args, log, lib).ok <==>
      exists bound, n: nat :: BindsTo(s.handle, usable, args, log, bound, lib) && StepsToDone(bound, n, lib)
                           && ResetAnswers(s, |bound| + n + 1, lib)
  {
    var (bound, ok) := BindStmt(s, usable, args, log, lib);
    BindExact(s, usable, args, log, lib);
    if ok {
      ExecBoundExact(s.handle, bound, lib);
      ResetExact(s, ExecBoundStmt(s.handle, bound, lib).0, lib);
    }
  }

  /** Executing a text through the connection: also prepared; how finalising ends makes no difference. */
  lemma {:induction false} ExecTransientExact(
    usable: bool, ctxDone: bool, emptyText: bool, args: seq<Argument>, log: seq<Call>, lib: Library)
    requires Finite(lib)
    ensures ExecTransient(usable, ctxDone, emptyText, args, log, lib).1 <==>
      usable && !ctxDone && lib.reply(|log|) == OK &&
      var handle := if emptyText then 0 else |log| + 1;
      exists bound, n: nat :: BindsTo(handle, usable, args, log + [Prepare(handle)], bound, lib)
                           && StepsToDone(bound, n, lib)
  {
    var (prepared, log1) := PrepareStmt(usable, ctxDone, emptyText, true, log, lib);
    if prepared.Some? {
      var s := prepared.value;
      BindExact(s, usable, args, log1, lib);
      var (bound, ok) := BindStmt(s, usable, args, log1, lib);
      if ok {
        ExecBoundExact(s.handle, bound, lib);
      }
    }
  }

  /** A query that went well asks for the number of columns, and each column's name and type. */
  lemma {:induction false} QueryCalls(
    s: Stmt, usable: bool, args: seq<Argument>, columns: nat, log: seq<Call>, bound: seq<Call>, lib: Library)
    requires BindsTo(s.handle, usable, args, log, bound, lib)
    ensures var log' := QueryStmt(s, usable, args, columns, log, lib).0;
      && bound <= log' && |log'| == |bound| + 1 + columns + columns
      && forall k :: |bound| <= k < |log'| ==> log'[k] == ColumnInfo(s.handle)
  {
    BindExact(s, usable, args, log, lib);
  }

  /** There are rows exactly when the statement, of the text or kept, was bound. */
  lemma {:induction false} QueryExact(
    s: Stmt, usable: bool, ctxDone: bool, emptyText: bool, args: seq<Argument>, columns: nat, log: seq<Call>,
    lib: Library)
    ensures QueryStmt(s, usable, args, columns, log, lib).1 <==>
      exists bound :: BindsTo(s.handle, usable, args, log, bound, lib)
    ensures QueryTransient(usable, ctxDone, emptyText, args, columns, log, lib).0.Some? <==>
      usable && !ctxDone && lib.reply(|log|) == OK &&
      var handle := if emptyText then 0 else |log| + 1;
      exists bound :: BindsTo(handle, usable, args, log + [Prepare(handle)], bound, lib)
  {
    BindExact(s, usable, args, log, lib);
    var (prepared, log1) := PrepareStmt(usable, ctxDone, emptyText, true, log, lib);
    if prepared.Some? {
      BindExact(prepared.value, usable, args, log1, lib);
    }
  }

  // ---- rows ----

  /** A row exactly for ROW, the end exactly for DONE or when closed before, an error otherwise; rows
      stay open for a row only. */
  lemma {:induction false} NextExact(closed: bool, s: Stmt, cells: nat, log: seq<Call>, lib: Library)
    ensures var (after, r) := NextRows(closed, s, cells, log, lib);
      && (r.NextRow? <==> !closed && lib.reply(|log|) == ROW)
      && (r.NextEof? <==> closed || lib.reply(|log|) == DONE)
      && (after.closed <==> !r.NextRow?)
      && (r.NextRow? || closed ==> after.ok)
  {
  }

  lemma {:induction false} CloseRowsExact(closed: bool, s: Stmt, log: seq<Call>, lib: Library)
    ensures CloseRows(closed, s, log, lib).ok <==>
      || closed
      || (s.ephemeral && (s.closed || lib.reply(|log|) == OK))
      || (!s.ephemeral && ResetAnswers(s, |log|, lib))
  {
  }

  // ---- what a client gets ----

  /** The operation opens rows: on a kept statement that is bound, or on a text that is prepared and
      bound. */
  ghost predicate OpensRows(w: World, op: Op, lib: Library) {
    match op
    case QueryOp(i, args, _) =>
      i < |w.stmts| && !w.stmts[i].ephemeral
      && exists bound :: BindsTo(w.stmts[i].handle, w.usable, args, w.log, bound, lib)
    case ConnQueryOp(ctxDone, emptyText, args, _) =>
      w.usable && !ctxDone && lib.reply(|w.log|) == OK &&
      var handle := if emptyText then 0 else |w.log| + 1;
      exists bound :: BindsTo(handle, w.usable, args, w.log + [Prepare(handle)], bound, lib)
    case _ => false
  }

  /** Rows, statements and the usability of the connection change exactly so, for every operation. */
  lemma {:induction false} ClientExact(w: World, op: Op, lib: Library)
    requires IndexesOk(w) && Finite(lib)
    ensures var w' := Step(w, op, lib);
      && |w'.rows| == |w.rows| + (if OpensRows(w, op, lib) then 1 else 0)
      && |w'.stmts| == |w.stmts|
           + (if (op.ConnQueryOp? && OpensRows(w, op, lib))
                 || (op.PrepareOp? && w.usable && !op.ctxDone && lib.reply(|w.log|) == OK) then 1 else 0)
      && (w'.usable <==> w.usable && !op.CloseConnOp?)
  {
    match op {
      case QueryOp(i, args, columns) =>
        if i < |w.stmts| {
          QueryExact(w.stmts[i], w.usable, false, false, args, columns, w.log, lib);
        }
      case ConnQueryOp(ctxDone, emptyText, args, columns) =>
        QueryExact(Stmt(0, true, false), w.usable, ctxDone, emptyText, args, columns, w.log, lib);
      case _ =>
    }
  }

  // ---- instances ----

  /** An INSERT: DONE is success, SQLITE_CONSTRAINT is not. */
  lemma {:induction false} InsertOutcomes(code: int, lib: Library)
    requires Finite(lib) && code == lib.reply(2) && code != ROW
    requires lib.reply(0) == OK && lib.reply(1) == OK && lib.reply(3) == OK && lib.reply(4) == OK
    ensures ExecStmt(Stmt(7, false, false), true, [], [], lib).ok <==> code == DONE
  {
    var s := Stmt(7, false, false);
    var bound := [] + [Reset(7), ClearBindings(7)];
    ExecExact(s, true, [], [], lib);
    assert BindsTo(7, true, [], [], bound, lib);
    if code == DONE {
      assert StepsToDone(bound, 0, lib) && ResetAnswers(s, |bound| + 0 + 1, lib);
    } else {
      forall other, n: nat | BindsTo(7, true, [], [], other, lib) ensures !StepsToDone(other, n, lib) {
        assert other == bound && lib.reply(|bound| + 0) == code;
      }
    }
  }
}
