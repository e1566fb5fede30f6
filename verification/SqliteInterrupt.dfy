/** The goroutine that interrupts a running statement when its context is cancelled, racing with
    `stop()` (sqlite3/sqlite3.go). Every event below is one atomic step of a goroutine; a run is any
    interleaving of them. */
module SqliteInterrupt {
  import opened Options

  /** The watcher goroutine: in its `select`, awake because the context is done, with the flag stored,
      or gone. */
  datatype WatcherPc = Selecting | Awake | Flagged | Exited

  /** One `cancelState` with its goroutine; `closes` and `interrupts` count what happened to it. */
  datatype Watcher = Watcher(
    pc: WatcherPc,
    context: nat,
    doneClosed: bool,
    interrupted: bool,
    closes: nat,
    interrupts: nat)

  datatype Kind = Exec | Next

  datatype Code = RowCode | DoneCode | InterruptCode | ErrorCode(code: int)

  /** Where the driver is in `execBound` or `Rows.Next`. `own` records that the Step was interrupted
      after the operation's own watcher had called Interrupt. */
  datatype Driver =
    | Idle
    | BeforeStep(kind: Kind)
    | InStep(kind: Kind)
    | Stopping(code: Code, own: bool)
    | Loading(code: Code, own: bool)
    | Deciding(code: Code, own: bool, flag: bool)

  datatype Result = NoResult | ContextError | NativeError(code: Code) | RowResult | DoneResult

  /** The watcher of the current operation is the last one; `stale` counts the calls of Interrupt on
      the pointer of the database after that was closed. */
  datatype State = State(
    watchers: seq<Watcher>,
    driver: Driver,
    cancelled: set<nat>,
    result: Result,
    resultOwn: bool,
    closed: bool,
    stale: nat)

  datatype Event =
    | Begin(kind: Kind, context: nat, watchable: bool)
    | Cancel(context: nat)
    | Wake(w: nat)
    | SeeDone(w: nat)
    | StoreFlag(w: nat)
    | CallInterrupt(w: nat)
    | CallStep
    | StepReturns(code: Code)
    | CloseDone
    | LoadFlag
    | Decide
    | CloseConnection

  const INITIAL := State([], Idle, {}, NoResult, false, false, 0)

  /** `interruptWatcher`: without a context that can end, or without a database, the channel is closed
      at once and no goroutine starts. A watcher keeps the database pointer it was started with. */
  function NewWatcher(context: nat, watchable: bool): Watcher {
    if watchable then Watcher(Selecting, context, false, false, 0, 0)
    else Watcher(Exited, context, true, false, 1, 0)
  }

  function SetWatcher(s: State, i: nat, w: Watcher): State
    requires i < |s.watchers|
  {
    s.(watchers := s.watchers[i := w])
  }

  /** The switch on the code of the Step, with the value `stop()` returned. */
  function ResultOf(code: Code, flag: bool, contextDone: bool): Result {
    match code
    case RowCode => RowResult
    case DoneCode => DoneResult
    case InterruptCode => if flag && contextDone then ContextError else NativeError(code)
    case ErrorCode(_) => NativeError(code)
  }

  /** The state after an event, or `None` when the event cannot happen now. */
  function Apply(s: State, e: Event): Option<State> {
    match e
    case Begin(kind, context, watchable) =>
      if s.driver.Idle? then
        Some(s.(watchers := s.watchers + [NewWatcher(context, watchable && !s.closed)], driver := BeforeStep(kind),
                result := NoResult, resultOwn := false))
      else None
    case Cancel(context) => Some(s.(cancelled := s.cancelled + {context}))
    case Wake(i) =>
      if i < |s.watchers| && s.watchers[i].pc.Selecting? && s.watchers[i].context in s.cancelled
      then Some(SetWatcher(s, i, s.watchers[i].(pc := Awake))) else None
    case SeeDone(i) =>
      if i < |s.watchers| && s.watchers[i].pc.Selecting? && s.watchers[i].doneClosed
      then Some(SetWatcher(s, i, s.watchers[i].(pc := Exited))) else None
    case StoreFlag(i) =>
      if i < |s.watchers| && s.watchers[i].pc.Awake?
      then Some(SetWatcher(s, i, s.watchers[i].(pc := Flagged, interrupted := true))) else None
    case CallInterrupt(i) =>
      if i < |s.watchers| && s.watchers[i].pc.Flagged?
      then
        var s' := SetWatcher(s, i, s.watchers[i].(pc := Exited, interrupts := s.watchers[i].interrupts + 1));
        Some(s'.(stale := if s.closed then s.stale + 1 else s.stale))
      else None
    case CallStep =>
      if s.driver.BeforeStep? then Some(s.(driver := InStep(s.driver.kind))) else None
    case StepReturns(code) =>
      if s.driver.InStep? && s.watchers != [] then
        if s.driver.kind.Exec? && code.RowCode? then Some(s.(driver := BeforeStep(Exec)))
        else Some(s.(driver := Stopping(code, code.InterruptCode? && s.watchers[|s.watchers| - 1].interrupts > 0)))
      else None
    case CloseDone =>
      if s.driver.Stopping? && s.watchers != [] then
        var n := |s.watchers| - 1;
        var w := s.watchers[n];
        var s' := if w.doneClosed then s else SetWatcher(s, n, w.(doneClosed := true, closes := w.closes + 1));
        Some(s'.(driver := Loading(s.driver.code, s.driver.own)))
      else None
    case LoadFlag =>
      if s.driver.Loading? && s.watchers != [] then
        Some(s.(driver := Deciding(s.driver.code, s.driver.own, s.watchers[|s.watchers| - 1].interrupted)))
      else None
    case Decide =>
      if s.driver.Deciding? && s.watchers != [] then
        Some(s.(driver := Idle, resultOwn := s.driver.own,
                result := ResultOf(s.driver.code, s.driver.flag, s.watchers[|s.watchers| - 1].context in s.cancelled)))
      else None
    case CloseConnection => if s.driver.Idle? then Some(s.(closed := true)) else None
  }

  function RunFrom(s: State, events: seq<Event>): Option<State> {
    if events == [] then Some(s)
    else match RunFrom(s, events[..|events| - 1])
         case None => None
         case Some(t) => Apply(t, events[|events| - 1])
  }

  ghost predicate Reachable(s: State) {
    exists events :: RunFrom(INITIAL, events) == Some(s)
  }

  // ---- the invariant ----

  predicate WatcherInv(w: Watcher, cancelled: set<nat>) {
    && w.closes == (if w.doneClosed then 1 else 0)
    && (w.pc.Selecting? || w.pc.Awake? ==> !w.interrupted && w.interrupts == 0)
    && (w.pc.Flagged? ==> w.interrupted && w.interrupts == 0)
    && (w.pc.Awake? || w.interrupted ==> w.context in cancelled)
    && w.interrupts <= 1
    && (w.interrupts == 1 ==> w.interrupted && w.pc.Exited?)
    && (w.pc.Exited? ==> w.doneClosed || w.interrupts == 1)
  }

  /** The watchers of finished operations have been told to stop. */
  predicate ClosedUpTo(watchers: seq<Watcher>, n: nat) {
    forall i {:trigger watchers[i]} :: 0 <= i < n && i < |watchers| ==> watchers[i].doneClosed
  }

  predicate DriverInv(s: State) {
    match s.driver
    case Idle =>
      && ClosedUpTo(s.watchers, |s.watchers|)
      && (s.resultOwn ==> s.result == ContextError)
      && (s.result == ContextError ==>
            s.watchers != [] && var w := s.watchers[|s.watchers| - 1]; w.interrupted && w.context in s.cancelled)
    case BeforeStep(_) => s.watchers != [] && ClosedUpTo(s.watchers, |s.watchers| - 1)
    case InStep(_) => s.watchers != [] && ClosedUpTo(s.watchers, |s.watchers| - 1)
    case Stopping(code, own) =>
      && s.watchers != [] && ClosedUpTo(s.watchers, |s.watchers| - 1)
      && (own ==> code.InterruptCode? && s.watchers[|s.watchers| - 1].interrupted)
    case Loading(code, own) =>
      && s.watchers != [] && ClosedUpTo(s.watchers, |s.watchers|)
      && (own ==> code.InterruptCode? && s.watchers[|s.watchers| - 1].interrupted)
    case Deciding(code, own, flag) =>
      && s.watchers != [] && ClosedUpTo(s.watchers, |s.watchers|)
      && (own ==> code.InterruptCode? && flag)
      && (flag ==> s.watchers[|s.watchers| - 1].interrupted)
  }

  predicate Inv(s: State) {
    && (forall i {:trigger s.watchers[i]} :: 0 <= i < |s.watchers| ==> WatcherInv(s.watchers[i], s.cancelled))
    && DriverInv(s)
  }

  lemma {:induction false} InvKept(s: State, e: Event)
    requires Inv(s) && Apply(s, e).Some?
    ensures Inv(Apply(s, e).value)
  {
    match e {
      case Wake(_) => WatcherKeepsInv(s, e);
      case SeeDone(_) => WatcherKeepsInv(s, e);
      case StoreFlag(_) => WatcherKeepsInv(s, e);
      case CallInterrupt(_) => WatcherKeepsInv(s, e);
      case Begin(_, _, _) => BeginKeepsInv(s, e);
      case CloseDone => CloseDoneKeepsInv(s);
      case _ => DriverKeepsInv(s, e);
    }
  }

  lemma {:induction false} WatcherKeepsInv(s: State, e: Event)
    requires Inv(s) && Apply(s, e).Some? && (e.Wake? || e.SeeDone? || e.StoreFlag? || e.CallInterrupt?)
    ensures Inv(Apply(s, e).value)
  {
    WatcherMoves(s, e.w, Apply(s, e).value.watchers[e.w]);
  }

  lemma {:induction false} BeginKeepsInv(s: State, e: Event)
    requires Inv(s) && Apply(s, e).Some? && e.Begin?
    ensures Inv(Apply(s, e).value)
  {
    var s' := Apply(s, e).value;
    assert forall i {:trigger s'.watchers[i]} :: 0 <= i < |s.watchers| ==> s'.watchers[i] == s.watchers[i];
  }

  lemma {:induction false} CloseDoneKeepsInv(s: State)
    requires Inv(s) && Apply(s, CloseDone).Some?
    ensures Inv(Apply(s, CloseDone).value)
  {
    var s' := Apply(s, CloseDone).value;
    assert forall i {:trigger s'.watchers[i]} :: 0 <= i < |s.watchers| - 1 ==> s'.watchers[i] == s.watchers[i];
  }

  /** The other events leave the watchers alone. */
  lemma {:induction false} DriverKeepsInv(s: State, e: Event)
    requires Inv(s) && Apply(s, e).Some?
    requires e.Cancel? || e.CallStep? || e.StepReturns? || e.LoadFlag? || e.Decide? || e.CloseConnection?
    ensures Inv(Apply(s, e).value)
  {
  }

  /** A step of one watcher keeps what the driver relies on. */
  lemma {:induction false} WatcherMoves(s: State, i: nat, w: Watcher)
    requires Inv(s) && i < |s.watchers| && WatcherInv(w, s.cancelled)
    requires w.context == s.watchers[i].context && w.doneClosed == s.watchers[i].doneClosed
    requires s.watchers[i].interrupted ==> w.interrupted
    ensures Inv(SetWatcher(s, i, w))
  {
    var s' := SetWatcher(s, i, w);
    assert forall j {:trigger s'.watchers[j]} :: 0 <= j < |s.watchers| && j != i ==> s'.watchers[j] == s.watchers[j];
  }

  lemma {:induction false} RunKeepsInv(s: State, events: seq<Event>)
    requires Inv(s) && RunFrom(s, events).Some?
    ensures Inv(RunFrom(s, events).value)
  {
    if events != [] {
      RunKeepsInv(s, events[..|events| - 1]);
      InvKept(RunFrom(s, events[..|events| - 1]).value, events[|events| - 1]);
    }
  }

  lemma {:induction false} ReachableInv(s: State)
    requires Reachable(s)
    ensures Inv(s)
  {
    var events :| RunFrom(INITIAL, events) == Some(s);
    RunKeepsInv(INITIAL, events);
  }

  // ---- what every run guarantees ----

  /** Each watcher interrupts at most once, only after its context is done and its flag is stored;
      its channel is closed at most once, and exactly once when its operation is over. */
  lemma {:induction false} WatcherSafety(s: State, i: nat)
    requires Reachable(s) && i < |s.watchers|
    ensures var w := s.watchers[i];
      && w.interrupts <= 1
      && (w.interrupts == 1 ==> w.interrupted && w.context in s.cancelled)
      && w.closes <= 1
      && (i < |s.watchers| - 1 || s.driver.Idle? ==> w.closes == 1)
  {
    ReachableInv(s);
  }

  /** An operation whose Step was ended by its own watcher returns the context's error, and it returns
      the context's error only when its own watcher stored the flag after the context was done. */
  lemma {:induction false} OwnInterruptMeansContextError(s: State)
    requires Reachable(s) && s.driver.Idle?
    ensures s.resultOwn ==> s.result == ContextError
    ensures s.result == ContextError ==>
      s.watchers != [] && var w := s.watchers[|s.watchers| - 1]; w.interrupted && w.context in s.cancelled
  {
    ReachableInv(s);
  }

  /** What an operation returns: a row for ROW and the end for DONE; for an interrupt the error of the
      context when the own watcher had stored its flag and the context is done; otherwise the error of
      the native code. */
  lemma {:induction false} ResultExact(s: State)
    requires Apply(s, Decide).Some?
    ensures var r := Apply(s, Decide).value.result; var code := s.driver.code;
            var done := s.watchers[|s.watchers| - 1].context in s.cancelled;
      && (r == RowResult <==> code == RowCode)
      && (r == DoneResult <==> code == DoneCode)
      && (r == ContextError <==> code == InterruptCode && s.driver.flag && done)
      && (r.NativeError? ==> r.code == code)
      && (r.NativeError? <==> code.ErrorCode? || (code == InterruptCode && !(s.driver.flag && done)))
  {
  }

  // ---- the goroutine ends ----

  function Rank(pc: WatcherPc): nat {
    match pc case Selecting => 3 case Awake => 2 case Flagged => 1 case Exited => 0
  }

  predicate IsStepOf(e: Event, i: nat) {
    e == Wake(i) || e == SeeDone(i) || e == StoreFlag(i) || e == CallInterrupt(i)
  }

  /** No event brings a watcher back, and each of its own events brings it nearer to its end. */
  lemma {:induction false} RankDecreases(s: State, e: Event, i: nat)
    requires Apply(s, e).Some? && i < |s.watchers|
    ensures i < |Apply(s, e).value.watchers|
    ensures Rank(Apply(s, e).value.watchers[i].pc) <= Rank(s.watchers[i].pc)
    ensures IsStepOf(e, i) ==> Rank(Apply(s, e).value.watchers[i].pc) < Rank(s.watchers[i].pc)
    ensures s.watchers[i].doneClosed ==> Apply(s, e).value.watchers[i].doneClosed
  {
  }

  /** The number of events of watcher i in a list. */
  function StepsOf(events: seq<Event>, i: nat): nat {
    if events == [] then 0
    else StepsOf(events[..|events| - 1], i) + if IsStepOf(events[|events| - 1], i) then 1 else 0
  }

  /** However the others interleave, a watcher takes at most three steps, and after `stop()` it can
      always take one until it has exited: so it exits once it has been scheduled three times. */
  lemma {:induction false} WatcherEnds(s: State, events: seq<Event>, i: nat)
    requires i < |s.watchers| && RunFrom(s, events).Some?
    ensures i < |RunFrom(s, events).value.watchers|
    ensures Rank(RunFrom(s, events).value.watchers[i].pc) + StepsOf(events, i) <= Rank(s.watchers[i].pc) <= 3
    ensures s.watchers[i].doneClosed ==> RunFrom(s, events).value.watchers[i].doneClosed
  {
    if events != [] {
      WatcherEnds(s, events[..|events| - 1], i);
      RankDecreases(RunFrom(s, events[..|events| - 1]).value, events[|events| - 1], i);
    }
  }

  lemma {:induction false} StoppedWatcherCanMove(s: State, i: nat) returns (e: Event)
    requires i < |s.watchers| && s.watchers[i].doneClosed && !s.watchers[i].pc.Exited?
    ensures IsStepOf(e, i) && Apply(s, e).Some?
  {
    e := match s.watchers[i].pc
         case Selecting => SeeDone(i)
         case Awake => StoreFlag(i)
         case Flagged => CallInterrupt(i)
         case Exited => Decide;
  }

  ghost predicate CanMove(s: State, i: nat) {
    exists e :: IsStepOf(e, i) && Apply(s, e).Some?
  }

  ghost predicate Leads(s: State, e: Event, s': State) {
    Apply(s, e) == Some(s')
  }

  /** A run without end. */
  ghost predicate Run(states: nat -> State, events: nat -> Event) {
    forall n: nat :: Leads(states(n), events(n), states(n + 1))
  }

  /** From step n on, watcher i moves once more or comes to a point where it cannot. */
  ghost predicate GetsItsTurn(states: nat -> State, events: nat -> Event, i: nat, n: nat) {
    exists m: nat {:trigger states(m)} :: n <= m && (IsStepOf(events(m), i) || !CanMove(states(m), i))
  }

  /** A goroutine that can move is not passed over forever. */
  ghost predicate Fair(states: nat -> State, events: nat -> Event, i: nat) {
    forall n: nat :: GetsItsTurn(states, events, i, n)
  }

  predicate Stopped(s: State, i: nat) {
    i < |s.watchers| && s.watchers[i].doneClosed
  }

  lemma {:induction false} RanksUntil(states: nat -> State, events: nat -> Event, i: nat, n: nat, m: nat)
    requires Run(states, events) && n <= m && Stopped(states(n), i)
    ensures Stopped(states(m), i) && Rank(states(m).watchers[i].pc) <= Rank(states(n).watchers[i].pc)
    decreases m - n
  {
    if n < m {
      assert Leads(states(n), events(n), states(n + 1));
      RankDecreases(states(n), events(n), i);
      RanksUntil(states, events, i, n + 1, m);
    }
  }

  lemma {:induction false} OwnEventDescends(states: nat -> State, events: nat -> Event, i: nat, m: nat)
    requires Run(states, events) && Stopped(states(m), i) && IsStepOf(events(m), i)
    ensures Stopped(states(m + 1), i) && Rank(states(m + 1).watchers[i].pc) < Rank(states(m).watchers[i].pc)
  {
    assert Leads(states(m), events(m), states(m + 1));
    RankDecreases(states(m), events(m), i);
  }

  lemma {:induction false} StuckHasExited(s: State, i: nat)
    requires Stopped(s, i) && !CanMove(s, i)
    ensures s.watchers[i].pc.Exited?
  {
    if !s.watchers[i].pc.Exited? {
      var e := StoppedWatcherCanMove(s, i);
      assert CanMove(s, i);
    }
  }

  /** Later than n the watcher has exited or is nearer to its end. */
  ghost predicate ComesNearer(states: nat -> State, i: nat, n: nat)
    requires Stopped(states(n), i)
  {
    exists m: nat :: n <= m && Stopped(states(m), i)
      && (states(m).watchers[i].pc.Exited? || Rank(states(m).watchers[i].pc) < Rank(states(n).watchers[i].pc))
  }

  lemma {:induction false} NextTurn(states: nat -> State, events: nat -> Event, i: nat, n: nat)
    requires Run(states, events) && GetsItsTurn(states, events, i, n) && Stopped(states(n), i)
    ensures ComesNearer(states, i, n)
  {
    var m: nat :| n <= m && (IsStepOf(events(m), i) || !CanMove(states(m), i));
    RanksUntil(states, events, i, n, m);
    if IsStepOf(events(m), i) {
      OwnEventDescends(states, events, i, m);
    } else {
      StuckHasExited(states(m), i);
    }
  }

  lemma {:induction false} Ends(states: nat -> State, i: nat, n: nat) returns (m: nat)
    requires forall k: nat {:trigger Stopped(states(k), i)} :: Stopped(states(k), i) ==> ComesNearer(states, i, k)
    requires Stopped(states(n), i)
    ensures n <= m && Stopped(states(m), i) && states(m).watchers[i].pc.Exited?
    decreases Rank(states(n).watchers[i].pc)
  {
    assert ComesNearer(states, i, n);
    m :| n <= m && Stopped(states(m), i)
      && (states(m).watchers[i].pc.Exited? || Rank(states(m).watchers[i].pc) < Rank(states(n).watchers[i].pc));
    if !states(m).watchers[i].pc.Exited? {
      m := Ends(states, i, m);
    }
  }

  /** After `stop()` a watcher exits, in every run that does not pass its goroutine over forever. */
  lemma {:induction false} StoppedWatcherExits(states: nat -> State, events: nat -> Event, i: nat, n: nat)
    returns (m: nat)
    requires Run(states, events) && Fair(states, events, i) && Stopped(states(n), i)
    ensures n <= m && Stopped(states(m), i) && states(m).watchers[i].pc.Exited?
  {
    forall k: nat | Stopped(states(k), i) ensures ComesNearer(states, i, k) {
      assert GetsItsTurn(states, events, i, k);
      NextTurn(states, events, i, k);
    }
    m := Ends(states, i, n);
  }

  // ---- what no run can promise ----

  lemma {:induction false} RunSnoc(s: State, events: seq<Event>, e: Event)
    ensures RunFrom(s, events + [e]) == match RunFrom(s, events) case None => None case Some(t) => Apply(t, e)
  {
    assert (events + [e])[..|events|] == events;
  }

  lemma {:induction false} Extend(events: seq<Event>, s: State, e: Event) returns (longer: seq<Event>, s': State)
    requires RunFrom(INITIAL, events) == Some(s) && Apply(s, e).Some?
    ensures longer == events + [e] && RunFrom(INITIAL, longer) == Some(s') && Some(s') == Apply(s, e)
  {
    longer, s' := events + [e], Apply(s, e).value;
    RunSnoc(INITIAL, events, e);
  }

  /** The last operation failed with the plain interrupt error although its own context is not done
      and its own watcher did not interrupt. */
  ghost predicate HitByAnother(s: State) {
    && s.driver.Idle? && |s.watchers| == 2
    && s.watchers[0].interrupts == 1 && s.watchers[1].interrupts == 0
    && s.watchers[1].context !in s.cancelled && s.result == NativeError(InterruptCode)
  }

  /** An operation runs to its end; its context is cancelled meanwhile, and its watcher sleeps on. */
  lemma {:induction false} CancelledOperation() returns (events: seq<Event>, s: State)
    ensures RunFrom(INITIAL, events) == Some(s)
    ensures s == State([Watcher(Selecting, 0, true, false, 1, 0)], Idle, {0}, DoneResult, false, false, 0)
  {
    events, s := [], INITIAL;
    events, s := Extend(events, s, Begin(Exec, 0, true));
    events, s := Extend(events, s, CallStep);
    events, s := Extend(events, s, Cancel(0));
    events, s := Extend(events, s, StepReturns(DoneCode));
    events, s := Extend(events, s, CloseDone);
    events, s := Extend(events, s, LoadFlag);
    events, s := Extend(events, s, Decide);
  }

  /** The intended case: a running statement is interrupted by its own watcher, and its operation
      returns the error of the context. */
  lemma {:induction false} OwnInterruptIsPossible() returns (s: State)
    ensures Reachable(s) && s.driver.Idle? && s.resultOwn && s.result == ContextError
  {
    var events: seq<Event>;
    events, s := [], INITIAL;
    events, s := Extend(events, s, Begin(Next, 0, true));
    events, s := Extend(events, s, CallStep);
    events, s := Extend(events, s, Cancel(0));
    events, s := Extend(events, s, Wake(0));
    events, s := Extend(events, s, StoreFlag(0));
    events, s := Extend(events, s, CallInterrupt(0));
    events, s := Extend(events, s, StepReturns(InterruptCode));
    events, s := FinishedOperation(events, s);
  }

  lemma {:induction false} FinishedOperation(events: seq<Event>, s: State) returns (longer: seq<Event>, s': State)
    requires RunFrom(INITIAL, events) == Some(s)
    requires s.driver.Stopping? && s.driver.code == InterruptCode && s.driver.own && |s.watchers| == 1
    requires s.watchers[0].interrupted && s.watchers[0].context in s.cancelled
    ensures RunFrom(INITIAL, longer) == Some(s')
    ensures s'.driver.Idle? && s'.resultOwn && s'.result == ContextError
  {
    longer, s' := Extend(events, s, CloseDone);
    longer, s' := Extend(longer, s', LoadFlag);
    longer, s' := Extend(longer, s', Decide);
  }

  /** Only now does it wake up and interrupt, while the second operation is in Step. */
  lemma {:induction false} LateWatcher(events: seq<Event>, s: State) returns (longer: seq<Event>, s': State)
    requires RunFrom(INITIAL, events) == Some(s)
    requires s == State([Watcher(Selecting, 0, true, false, 1, 0)], Idle, {0}, DoneResult, false, false, 0)
    ensures RunFrom(INITIAL, longer) == Some(s')
    ensures s' == State([Watcher(Exited, 0, true, true, 1, 1), Watcher(Selecting, 1, false, false, 0, 0)],
                        InStep(Exec), {0}, NoResult, false, false, 0)
  {
    longer, s' := Extend(events, s, Begin(Exec, 1, true));
    longer, s' := Extend(longer, s', CallStep);
    longer, s' := Extend(longer, s', Wake(0));
    longer, s' := Extend(longer, s', StoreFlag(0));
    longer, s' := Extend(longer, s', CallInterrupt(0));
  }

  // ---- who can still interrupt ----

  /** The watcher has seen its context done, or still can; stopped or not makes no difference. */
  predicate MayInterrupt(w: Watcher, cancelled: set<nat>) {
    w.pc.Awake? || w.pc.Flagged? || (w.pc.Selecting? && w.context in cancelled)
  }

  ghost predicate WithoutCancel(events: seq<Event>, context: nat) {
    forall k {:trigger events[k]} :: 0 <= k < |events| ==> events[k] != Cancel(context)
  }

  /** A run from `s`, without another end of the watcher's context, in which it calls Interrupt. */
  ghost predicate Interrupts(s: State, events: seq<Event>, i: nat)
    requires i < |s.watchers|
  {
    && WithoutCancel(events, s.watchers[i].context)
    && RunFrom(s, events).Some? && i < |RunFrom(s, events).value.watchers|
    && RunFrom(s, events).value.watchers[i].interrupts > s.watchers[i].interrupts
  }

  lemma {:induction false} StaysQuiet(s: State, e: Event, i: nat)
    requires i < |s.watchers| && !MayInterrupt(s.watchers[i], s.cancelled)
    requires e != Cancel(s.watchers[i].context) && Apply(s, e).Some?
    ensures var s' := Apply(s, e).value;
      && i < |s'.watchers| && !MayInterrupt(s'.watchers[i], s'.cancelled)
      && s'.watchers[i].context == s.watchers[i].context && s'.watchers[i].interrupts == s.watchers[i].interrupts
  {
  }

  lemma {:induction false} RunStaysQuiet(s: State, events: seq<Event>, i: nat)
    requires i < |s.watchers| && !MayInterrupt(s.watchers[i], s.cancelled)
    requires WithoutCancel(events, s.watchers[i].context) && RunFrom(s, events).Some?
    ensures var s' := RunFrom(s, events).value;
      && i < |s'.watchers| && !MayInterrupt(s'.watchers[i], s'.cancelled)
      && s'.watchers[i].context == s.watchers[i].context && s'.watchers[i].interrupts == s.watchers[i].interrupts
  {
    if events != [] {
      var n := |events| - 1;
      forall k | 0 <= k < n ensures events[..n][k] == events[k] {}
      RunStaysQuiet(s, events[..n], i);
      StaysQuiet(RunFrom(s, events[..n]).value, events[n], i);
    }
  }

  /** The watcher's own remaining steps, taken at once. */
  function OwnSteps(pc: WatcherPc, i: nat): seq<Event> {
    match pc
    case Selecting => [Wake(i)] + [StoreFlag(i)] + [CallInterrupt(i)]
    case Awake => [StoreFlag(i)] + [CallInterrupt(i)]
    case Flagged => [CallInterrupt(i)]
    case Exited => []
  }

  lemma {:induction false} RunOne(s: State, e: Event)
    ensures RunFrom(s, [e]) == Apply(s, e)
  {
    assert [e][..0] == [];
  }

  lemma {:induction false} SetTwice(s: State, i: nat, a: Watcher, b: Watcher)
    requires i < |s.watchers|
    ensures SetWatcher(SetWatcher(s, i, a), i, b) == SetWatcher(s, i, b)
  {
    assert s.watchers[i := a][i := b] == s.watchers[i := b];
  }

  /** Where a watcher's own steps lead. */
  lemma {:induction false} OwnStepsRun(s: State, i: nat)
    requires i < |s.watchers| && MayInterrupt(s.watchers[i], s.cancelled)
    ensures var w := s.watchers[i];
      RunFrom(s, OwnSteps(w.pc, i)) ==
        Some(SetWatcher(s, i, w.(pc := Exited, interrupted := w.interrupted || !w.pc.Flagged?,
                                 interrupts := w.interrupts + 1))
             .(stale := if s.closed then s.stale + 1 else s.stale))
  {
    var w := s.watchers[i];
    var last := w.(pc := Exited, interrupted := w.interrupted || !w.pc.Flagged?, interrupts := w.interrupts + 1);
    SetTwice(s, i, w.(pc := Flagged, interrupted := true), last);
    SetTwice(s, i, w.(pc := Awake), w.(pc := Flagged, interrupted := true));
    match w.pc {
      case Flagged => RunOne(s, CallInterrupt(i));
      case Awake =>
        RunOne(s, StoreFlag(i));
        RunSnoc(s, [StoreFlag(i)], CallInterrupt(i));
      case Selecting =>
        RunOne(s, Wake(i));
        RunSnoc(s, [Wake(i)], StoreFlag(i));
        RunSnoc(s, [Wake(i)] + [StoreFlag(i)], CallInterrupt(i));
    }
  }

  lemma {:induction false} OwnStepsInterrupt(s: State, i: nat)
    requires i < |s.watchers| && MayInterrupt(s.watchers[i], s.cancelled)
    ensures Interrupts(s, OwnSteps(s.watchers[i].pc, i), i)
  {
    OwnStepsRun(s, i);
  }

  /** When a watcher, stopped or not, can still call Interrupt although its context is not cancelled
      from now on: exactly when it is awake, or selecting with its context done already. */
  lemma {:induction false} InterruptsExactly(s: State, i: nat)
    requires i < |s.watchers|
    ensures (exists events :: Interrupts(s, events, i)) <==> MayInterrupt(s.watchers[i], s.cancelled)
  {
    if MayInterrupt(s.watchers[i], s.cancelled) {
      OwnStepsInterrupt(s, i);
    } else if events :| Interrupts(s, events, i) {
      RunStaysQuiet(s, events, i);
    }
  }

  // ---- after the connection was closed ----

  /** A run from `s` in which some watcher calls Interrupt on the closed database. */
  ghost predicate HitsClosed(s: State, events: seq<Event>) {
    RunFrom(s, events).Some? && RunFrom(s, events).value.stale > s.stale
  }

  ghost predicate NoCancel(events: seq<Event>) {
    forall k {:trigger events[k]} :: 0 <= k < |events| ==> !events[k].Cancel?
  }

  ghost predicate SomeAlive(s: State) {
    exists i {:trigger s.watchers[i]} :: 0 <= i < |s.watchers| && !s.watchers[i].pc.Exited?
  }

  ghost predicate SomeMayInterrupt(s: State) {
    exists i {:trigger s.watchers[i]} :: 0 <= i < |s.watchers| && MayInterrupt(s.watchers[i], s.cancelled)
  }

  /** On a closed connection no new goroutine starts, and a harmless state stays harmless. */
  lemma {:induction false} ClosedStaysQuiet(s: State, e: Event)
    requires s.closed && Apply(s, e).Some?
    ensures var s' := Apply(s, e).value;
      && s'.closed
      && (!SomeAlive(s) ==> !SomeAlive(s') && s'.stale == s.stale)
      && (!SomeMayInterrupt(s) && !e.Cancel? ==> !SomeMayInterrupt(s') && s'.stale == s.stale)
  {
    var s' := Apply(s, e).value;
    forall i | 0 <= i < |s'.watchers|
      ensures i >= |s.watchers| ==> s'.watchers[i].pc.Exited?
      ensures i < |s.watchers| && s.watchers[i].pc.Exited? ==> s'.watchers[i].pc.Exited?
      ensures i < |s.watchers| && !e.Cancel? && !MayInterrupt(s.watchers[i], s.cancelled) ==>
        !MayInterrupt(s'.watchers[i], s'.cancelled)
    {
    }
  }

  lemma {:induction false} ClosedRunStaysQuiet(s: State, events: seq<Event>)
    requires s.closed && RunFrom(s, events).Some?
    ensures var s' := RunFrom(s, events).value;
      && s'.closed
      && (!SomeAlive(s) ==> !SomeAlive(s') && s'.stale == s.stale)
      && (!SomeMayInterrupt(s) && NoCancel(events) ==> !SomeMayInterrupt(s') && s'.stale == s.stale)
  {
    if events != [] {
      var n := |events| - 1;
      forall k | 0 <= k < n ensures events[..n][k] == events[k] {}
      ClosedRunStaysQuiet(s, events[..n]);
      ClosedStaysQuiet(RunFrom(s, events[..n]).value, events[n]);
    }
  }

  lemma {:induction false} RunConcat(s: State, e: Event, events: seq<Event>)
    requires Apply(s, e).Some?
    ensures RunFrom(s, [e] + events) == RunFrom(Apply(s, e).value, events)
  {
    if events == [] {
      RunOne(s, e);
      assert [e] + events == [e];
    } else {
      var n := |events| - 1;
      RunConcat(s, e, events[..n]);
      assert ([e] + events)[..n + 1] == [e] + events[..n] && ([e] + events)[n + 1] == events[n];
    }
  }

  /** When a goroutine can call Interrupt on the database of a closed connection: if contexts may
      still be cancelled, exactly when one has not exited; otherwise exactly when one is past its
      `select`, or in it with its context done already. */
  lemma {:induction false} ClosedInterruptExactly(s: State)
    requires s.closed
    ensures (exists events :: HitsClosed(s, events)) <==> SomeAlive(s)
    ensures (exists events :: HitsClosed(s, events) && NoCancel(events)) <==> SomeMayInterrupt(s)
  {
    if events :| HitsClosed(s, events) {
      ClosedRunStaysQuiet(s, events);
    }
    if events :| HitsClosed(s, events) && NoCancel(events) {
      ClosedRunStaysQuiet(s, events);
    }
    if i :| 0 <= i < |s.watchers| && MayInterrupt(s.watchers[i], s.cancelled) {
      OwnStepsRun(s, i);
      assert HitsClosed(s, OwnSteps(s.watchers[i].pc, i)) && NoCancel(OwnSteps(s.watchers[i].pc, i));
    }
    if i :| 0 <= i < |s.watchers| && !s.watchers[i].pc.Exited? {
      CancelAndInterrupt(s, i);
    }
  }

  lemma {:induction false} CancelAndInterrupt(s: State, i: nat)
    requires s.closed && i < |s.watchers| && !s.watchers[i].pc.Exited?
    ensures HitsClosed(s, [Cancel(s.watchers[i].context)] + OwnSteps(s.watchers[i].pc, i))
  {
    var s' := Apply(s, Cancel(s.watchers[i].context)).value;
    RunConcat(s, Cancel(s.watchers[i].context), OwnSteps(s.watchers[i].pc, i));
    OwnStepsRun(s', i);
  }

  /** The operation of `CancelledOperation` is over and the connection is closed; then its watcher
      wakes up and calls Interrupt on the closed database. */
  lemma {:induction false} ClosedInterruptIsPossible() returns (s: State)
    ensures Reachable(s) && s.closed && s.stale == 1
  {
    var events, first := CancelledOperation();
    events, s := Extend(events, first, CloseConnection);
    events, s := Extend(events, s, Wake(0));
    events, s := Extend(events, s, StoreFlag(0));
    events, s := Extend(events, s, CallInterrupt(0));
  }

  /** A watcher may still interrupt after `stop()` returned, and then hit the next operation. */
  lemma {:induction false} LateInterruptIsPossible() returns (s: State)
    ensures Reachable(s) && HitByAnother(s)
  {
    var events, first := CancelledOperation();
    events, s := LateWatcher(events, first);
    events, s := Extend(events, s, StepReturns(InterruptCode));
    events, s := Extend(events, s, CloseDone);
    events, s := Extend(events, s, LoadFlag);
    events, s := Extend(events, s, Decide);
  }
}
