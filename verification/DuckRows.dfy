/** The row iterator over DuckDB's chunked results (duckdb/duckdb.go). */
module DuckRows {
  import opened Options

  // ---- the native library ----

  /** Native calls; chunk handle 0 is the null chunk. */
  datatype Call =
    | FetchChunk(handle: nat)
    | GetSize(handle: nat)
    | ReadValue(handle: nat)
    | DestroyChunk(handle: nat)
    | DestroyResult
    | DestroyPrepare

  /** What the native library has to keep track of. */
  datatype Monitor = Monitor(liveChunk: nat, resultLive: bool, statementLive: bool)

  /** The rules of use: one live chunk at a time, only the live chunk is read or destroyed, the result
      is destroyed once and last, after its chunks, and the statement at most once. */
  function Observe(m: Monitor, c: Call): Option<Monitor> {
    match c
    case FetchChunk(h) => if m.resultLive && m.liveChunk == 0 then Some(m.(liveChunk := h)) else None
    case GetSize(h) => if m.resultLive && h != 0 && m.liveChunk == h then Some(m) else None
    case ReadValue(h) => if m.resultLive && h != 0 && m.liveChunk == h then Some(m) else None
    case DestroyChunk(h) => if m.resultLive && h != 0 && m.liveChunk == h then Some(m.(liveChunk := 0)) else None
    case DestroyResult => if m.resultLive && m.liveChunk == 0 then Some(m.(resultLive := false)) else None
    case DestroyPrepare => if !m.resultLive && m.statementLive then Some(m.(statementLive := false)) else None
  }

  function ObserveAll(log: seq<Call>): Option<Monitor> {
    if log == [] then Some(Monitor(0, true, true))
    else match ObserveAll(log[..|log| - 1])
         case None => None
         case Some(m) => Observe(m, log[|log| - 1])
  }

  /** The chunks handed out, and those given back, in order. */
  function Fetched(log: seq<Call>): seq<nat> {
    if log == [] then []
    else
      var last := log[|log| - 1];
      Fetched(log[..|log| - 1]) + if last.FetchChunk? && last.handle != 0 then [last.handle] else []
  }

  function Destroyed(log: seq<Call>): seq<nat> {
    if log == [] then []
    else
      var last := log[|log| - 1];
      Destroyed(log[..|log| - 1]) + if last.DestroyChunk? then [last.handle] else []
  }

  function ResultDestructions(log: seq<Call>): nat {
    if log == [] then 0
    else ResultDestructions(log[..|log| - 1]) + if log[|log| - 1].DestroyResult? then 1 else 0
  }

  // ---- the iterator as a value ----

  type Chunk<V> = seq<seq<V>>

  datatype Rows<V> = Rows(
    chunks: seq<Chunk<V>>,  // what the library will deliver
    columns: nat,
    ephemeral: bool,
    fetches: nat,
    chunk: nat,
    chunkSize: nat,
    chunkRow: nat,
    closed: bool,
    log: seq<Call>)

  datatype Outcome<V> = Row(values: seq<V>) | Eof

  function Opened<V>(chunks: seq<Chunk<V>>, columns: nat, ephemeral: bool): Rows<V> {
    Rows(chunks, columns, ephemeral, 0, 0, 0, 0, false, [])
  }

  function WithoutChunk<V>(r: Rows<V>): Rows<V> {
    if r.chunk == 0 then r else r.(chunk := 0, log := r.log + [DestroyChunk(r.chunk)])
  }

  function Closed<V>(r: Rows<V>): Rows<V> {
    if r.closed then r
    else
      var w := WithoutChunk(r.(closed := true));
      w.(log := w.log + [DestroyResult] + if r.ephemeral then [DestroyPrepare] else [])
  }

  /** The handle of the next chunk: its number, or null behind the last one. */
  function NextHandle<V>(r: Rows<V>): nat {
    if r.fetches < |r.chunks| then r.fetches + 1 else 0
  }

  function WithFetched<V>(r: Rows<V>): Rows<V> {
    var h := NextHandle(r);
    if h == 0 then r.(fetches := r.fetches + 1, chunk := 0, log := r.log + [FetchChunk(0)])
    else r.(fetches := r.fetches + 1, chunk := h, chunkSize := |r.chunks[h - 1]|, chunkRow := 0,
            log := r.log + [FetchChunk(h), GetSize(h)])
  }

  function Reads(handle: nat, n: nat): seq<Call> {
    seq(n, i => ReadValue(handle))
  }

  predicate HasRow<V>(r: Rows<V>) {
    0 < r.chunk <= |r.chunks| && r.chunkRow < r.chunkSize && r.chunkSize == |r.chunks[r.chunk - 1]|
  }

  function AfterRow<V>(r: Rows<V>): Rows<V> {
    r.(chunkRow := r.chunkRow + 1, log := r.log + Reads(r.chunk, r.columns))
  }

  /** One call of Next: the state after it and what it returns. */
  function AfterNext<V>(r: Rows<V>): (Rows<V>, Outcome<V>) {
    if r.closed then (r, Eof)
    else if HasRow(r) then (AfterRow(r), Row(r.chunks[r.chunk - 1][r.chunkRow]))
    else
      var f := WithFetched(WithoutChunk(r));
      if f.chunk == 0 then (Closed(f), Eof)
      else if !HasRow(f) then (Closed(WithoutChunk(f)), Eof)
      else (AfterRow(f), Row(f.chunks[f.chunk - 1][0]))
  }

  // ---- the iterator as an object ----

  class NativeResult<V> {
    const chunks: seq<Chunk<V>>
    const columns: nat
    var fetches: nat
    var log: seq<Call>

    ghost predicate Rectangular() {
      forall i, j :: 0 <= i < |chunks| && 0 <= j < |chunks[i]| ==> |chunks[i][j]| == columns
    }

    constructor (chunks: seq<Chunk<V>>, columns: nat)
      ensures this.chunks == chunks && this.columns == columns && fetches == 0 && log == []
    {
      this.chunks, this.columns, fetches, log := chunks, columns, 0, [];
    }

    method Fetch() returns (handle: nat)
      modifies this
      ensures handle == if old(fetches) < |chunks| then old(fetches) + 1 else 0
      ensures fetches == old(fetches) + 1 && log == old(log) + [FetchChunk(handle)]
    {
      handle := if fetches < |chunks| then fetches + 1 else 0;
      fetches := fetches + 1;
      log := log + [FetchChunk(handle)];
    }

    method Size(handle: nat) returns (n: nat)
      requires 0 < handle <= |chunks|
      modifies this`log
      ensures n == |chunks[handle - 1]| && log == old(log) + [GetSize(handle)]
    {
      n := |chunks[handle - 1]|;
      log := log + [GetSize(handle)];
    }

    method Read(handle: nat, column: nat, row: nat) returns (value: V)
      requires 0 < handle <= |chunks| && row < |chunks[handle - 1]| && column < |chunks[handle - 1][row]|
      modifies this`log
      ensures value == chunks[handle - 1][row][column] && log == old(log) + [ReadValue(handle)]
    {
      value := chunks[handle - 1][row][column];
      log := log + [ReadValue(handle)];
    }

    method Note(c: Call)
      modifies this`log
      ensures log == old(log) + [c]
    {
      log := log + [c];
    }
  }

  class DuckDBRows<V> {
    const native: NativeResult<V>
    const ephemeral: bool
    var closeOnceDone: bool
    var closed: bool
    var chunk: nat
    var chunkSize: nat
    var chunkRow: nat

    ghost function Value(): Rows<V>
      reads this, native
    {
      Rows(native.chunks, native.columns, ephemeral, native.fetches, chunk, chunkSize, chunkRow, closed, native.log)
    }

    ghost predicate Valid()
      reads this, native
    {
      && native.Rectangular()
      && closeOnceDone == closed
      && (chunk != 0 ==> chunk <= |native.chunks| && chunkSize == |native.chunks[chunk - 1]|)
    }

    constructor (native: NativeResult<V>, ephemeral: bool)
      requires native.Rectangular() && native.fetches == 0 && native.log == []
      ensures Valid() && this.native == native
      ensures Value() == Opened(native.chunks, native.columns, ephemeral)
    {
      this.native, this.ephemeral := native, ephemeral;
      closeOnceDone, closed, chunk, chunkSize, chunkRow := false, false, 0, 0, 0;
    }

    method DestroyHeldChunk()
      requires Valid()
      modifies this, native
      ensures Valid() && Value() == WithoutChunk(old(Value()))
    {
      if chunk != 0 {
        native.Note(DestroyChunk(chunk));
        chunk := 0;
      }
    }

    method Close()
      requires Valid()
      modifies this, native
      ensures Valid() && Value() == Closed(old(Value()))
    {
      if closeOnceDone {
        return;
      }
      closeOnceDone := true;
      closed := true;
      DestroyHeldChunk();
      native.Note(DestroyResult);
      if ephemeral {
        native.Note(DestroyPrepare);
      }
      assert native.log == WithoutChunk(old(Value()).(closed := true)).log + [DestroyResult]
                           + if ephemeral then [DestroyPrepare] else [];
    }

    /** Copies one row into `dest`, column by column. */
    method ReadRow(dest: array<V>)
      requires Valid() && HasRow(Value()) && dest.Length >= native.columns
      modifies native`log, dest
      ensures native.log == old(native.log) + Reads(chunk, native.columns)
      ensures dest[..native.columns] == native.chunks[chunk - 1][chunkRow]
    {
      var row := native.chunks[chunk - 1][chunkRow];
      for col := 0 to native.columns
        invariant native.log == old(native.log) + Reads(chunk, col)
        invariant dest[..col] == row[..col]
      {
        var value := native.Read(chunk, col, chunkRow);
        dest[col] := value;
        assert Reads(chunk, col) + [ReadValue(chunk)] == Reads(chunk, col + 1);
        assert row[..col + 1] == row[..col] + [row[col]];
      }
      assert row[..native.columns] == row;
    }

    /** The part of Next behind the exhausted chunk: gives it back and fetches another one; closes
        the rows when there is none or it is empty. */
    method Advance() returns (more: bool)
      requires Valid() && !closed
      modifies this, native
      ensures Valid()
      ensures var f := WithFetched(WithoutChunk(old(Value())));
        more == HasRow(f)
        && Value() == if more then f else if f.chunk == 0 then Closed(f) else Closed(WithoutChunk(f))
    {
      DestroyHeldChunk();
      ghost var given := Value();
      chunk := native.Fetch();
      if chunk == 0 {
        assert Value() == WithFetched(given);
        Close();
        return false;
      }
      chunkSize := native.Size(chunk);
      chunkRow := 0;
      assert native.log == given.log + [FetchChunk(chunk), GetSize(chunk)];
      assert Value() == WithFetched(given);
      if chunkSize == 0 {
        DestroyHeldChunk();
        Close();
        return false;
      }
      return true;
    }

    method Next(dest: array<V>) returns (eof: bool)
      requires Valid() && dest.Length >= native.columns
      modifies this, native, dest
      ensures Valid()
      ensures Value() == AfterNext(old(Value())).0
      ensures eof <==> AfterNext(old(Value())).1.Eof?
      ensures !eof ==> dest[..native.columns] == AfterNext(old(Value())).1.values
      ensures eof ==> dest[..] == old(dest[..])
    {
      if closed {
        return true;
      }
      ghost var start := Value();
      ghost var fetched := false;
      while true
        invariant Valid() && !closed
        invariant dest[..] == old(dest[..])
        invariant !fetched ==> Value() == start
        invariant fetched ==> !HasRow(start) && Value() == WithFetched(WithoutChunk(start)) && HasRow(Value())
        decreases if fetched then 0 else 1
      {
        if chunk != 0 && chunkRow < chunkSize {
          ReadRow(dest);
          chunkRow := chunkRow + 1;
          return false;
        }
        var more := Advance();
        if !more {
          return true;
        }
        fetched := true;
      }
    }
  }

  // ---- runs ----

  datatype Op = CallNext | CallClose

  function Step<V>(r: Rows<V>, op: Op): (Rows<V>, seq<Outcome<V>>) {
    match op
    case CallNext => var (r', o) := AfterNext(r); (r', [o])
    case CallClose => (Closed(r), [])
  }

  function Run<V>(r: Rows<V>, ops: seq<Op>): (Rows<V>, seq<Outcome<V>>) {
    if ops == [] then (r, [])
    else
      var (r1, os) := Run(r, ops[..|ops| - 1]);
      var (r2, o) := Step(r1, ops[|ops| - 1]);
      (r2, os + o)
  }

  /** The rows among the outcomes, in order. */
  function Delivered<V>(outcomes: seq<Outcome<V>>): seq<seq<V>> {
    if outcomes == [] then []
    else
      var last := outcomes[|outcomes| - 1];
      Delivered(outcomes[..|outcomes| - 1]) + match last case Row(values) => [values] case Eof => []
  }

  /** The rows of the first n chunks. */
  function Flatten<V>(chunks: seq<Chunk<V>>, n: nat): seq<seq<V>>
    requires n <= |chunks|
  {
    if n == 0 then [] else Flatten(chunks, n - 1) + chunks[n - 1]
  }

  /** The number of chunks before the first empty one. */
  function Filled<V>(chunks: seq<Chunk<V>>): (n: nat)
    ensures n <= |chunks|
    ensures forall i :: 0 <= i < n ==> chunks[i] != []
    ensures n < |chunks| ==> chunks[n] == []
  {
    if chunks == [] || chunks[0] == [] then 0 else 1 + Filled(chunks[1..])
  }

  function AllRows<V>(chunks: seq<Chunk<V>>): seq<seq<V>> {
    Flatten(chunks, Filled(chunks))
  }

  lemma {:induction false} FlattenPrefix<V>(chunks: seq<Chunk<V>>, m: nat, n: nat)
    requires m <= n <= |chunks|
    ensures Flatten(chunks, m) <= Flatten(chunks, n)
  {
    if m < n {
      FlattenPrefix(chunks, m, n - 1);
    }
  }

  /** What has been delivered while the rows are open: all chunks given back, and the held chunk up
      to the current row. */
  ghost predicate Position<V>(r: Rows<V>, delivered: seq<seq<V>>) {
    && !r.closed
    && r.chunk == r.fetches <= Filled(r.chunks)
    && (r.chunk == 0 ==> delivered == [])
    && (r.chunk > 0 ==>
          r.chunkSize == |r.chunks[r.chunk - 1]| && 1 <= r.chunkRow <= r.chunkSize
          && delivered == Flatten(r.chunks, r.chunk - 1) + r.chunks[r.chunk - 1][..r.chunkRow])
  }

  /** The held chunk's rows are a prefix of all rows. */
  lemma {:induction false} PositionIsPrefix<V>(r: Rows<V>, delivered: seq<seq<V>>)
    requires Position(r, delivered)
    ensures delivered <= AllRows(r.chunks)
    ensures r.chunk == 0 || r.chunkRow == r.chunkSize ==> delivered == Flatten(r.chunks, r.chunk)
  {
    if r.chunk > 0 {
      FlattenPrefix(r.chunks, r.chunk, Filled(r.chunks));
      var before, held := Flatten(r.chunks, r.chunk - 1), r.chunks[r.chunk - 1];
      assert held == held[..r.chunkRow] + held[r.chunkRow..];
      assert Flatten(r.chunks, r.chunk) == delivered + held[r.chunkRow..];
      assert r.chunkRow == r.chunkSize ==> held[r.chunkRow..] == [];
    }
  }

  /** The held chunk is exhausted: the next filled chunk starts, or every row was delivered. */
  lemma {:induction false} FetchAdvances<V>(r: Rows<V>, delivered: seq<seq<V>>)
    requires Position(r, delivered) && !HasRow(r)
    ensures var f := WithFetched(WithoutChunk(r));
      if HasRow(f) then Position(AfterRow(f), delivered + [f.chunks[f.chunk - 1][0]])
      else delivered == AllRows(r.chunks)
  {
    PositionIsPrefix(r, delivered);
    var f := WithFetched(WithoutChunk(r));
    if r.fetches < Filled(r.chunks) {
      var held := r.chunks[r.fetches];
      assert held[..1] == [held[0]] && HasRow(f);
    } else {
      assert !HasRow(f);
    }
  }

  /** One Next moves one row on, or reports the end when every row was delivered. */
  lemma {:induction false} NextAdvances<V>(r: Rows<V>, delivered: seq<seq<V>>)
    requires Position(r, delivered)
    ensures AfterNext(r).0.chunks == r.chunks
    ensures AfterNext(r).1.Row? ==> Position(AfterNext(r).0, delivered + [AfterNext(r).1.values])
    ensures AfterNext(r).1.Eof? ==> AfterNext(r).0.closed && delivered == AllRows(r.chunks)
  {
    if HasRow(r) {
      var held := r.chunks[r.chunk - 1];
      assert held[..r.chunkRow + 1] == held[..r.chunkRow] + [held[r.chunkRow]];
    } else {
      FetchAdvances(r, delivered);
    }
  }

  function RowOf<V>(o: Outcome<V>): seq<seq<V>> {
    match o case Row(values) => [values] case Eof => []
  }

  lemma {:induction false} DeliveredSnoc<V>(os: seq<Outcome<V>>, o: Outcome<V>)
    ensures Delivered(os + [o]) == Delivered(os) + RowOf(o)
  {
    assert (os + [o])[..|os|] == os;
  }

  /** One Next keeps the position, or closes the rows when all were delivered. */
  lemma {:induction false} NextPosition<V>(r: Rows<V>, delivered: seq<seq<V>>)
    requires Position(r, delivered)
    ensures var (r', o) := AfterNext(r);
      && r'.chunks == r.chunks
      && delivered + RowOf(o) <= AllRows(r.chunks)
      && (!r'.closed ==> Position(r', delivered + RowOf(o)))
  {
    NextAdvances(r, delivered);
    var (r', o) := AfterNext(r);
    if o.Row? {
      PositionIsPrefix(r', delivered + [o.values]);
    } else {
      assert delivered + [] == delivered;
    }
  }

  lemma {:induction false} RunPosition<V>(chunks: seq<Chunk<V>>, columns: nat, ephemeral: bool, ops: seq<Op>)
    ensures var (r, os) := Run(Opened(chunks, columns, ephemeral), ops);
      && r.chunks == chunks
      && Delivered(os) <= AllRows(chunks)
      && (!r.closed ==> Position(r, Delivered(os)))
  {
    if ops != [] {
      var n := |ops| - 1;
      RunPosition(chunks, columns, ephemeral, ops[..n]);
      var (r, os) := Run(Opened(chunks, columns, ephemeral), ops[..n]);
      if ops[n].CallNext? {
        DeliveredSnoc(os, AfterNext(r).1);
        if r.closed {
          assert Delivered(os) + [] == Delivered(os);
        } else {
          NextPosition(r, Delivered(os));
        }
      } else {
        assert os + [] == os;
      }
    }
  }

  /** Any run delivers a prefix of all rows, in order and once each. */
  lemma {:induction false} DeliveredInOrder<V>(chunks: seq<Chunk<V>>, columns: nat, ephemeral: bool, ops: seq<Op>)
    ensures Delivered(Run(Opened(chunks, columns, ephemeral), ops).1) <= AllRows(chunks)
  {
    RunPosition(chunks, columns, ephemeral, ops);
  }

  /** EOF comes only when the rows were closed or all of them were delivered. */
  lemma {:induction false} EofOnlyAtEnd<V>(chunks: seq<Chunk<V>>, columns: nat, ephemeral: bool, ops: seq<Op>)
    ensures var (r, os) := Run(Opened(chunks, columns, ephemeral), ops);
      AfterNext(r).1.Eof? <==> r.closed || Delivered(os) == AllRows(chunks)
  {
    RunPosition(chunks, columns, ephemeral, ops);
    var (r, os) := Run(Opened(chunks, columns, ephemeral), ops);
    if !r.closed {
      NextAdvances(r, Delivered(os));
      var (r', o) := AfterNext(r);
      if o.Row? {
        PositionIsPrefix(r', Delivered(os) + [o.values]);
      }
    }
  }

  // ---- resources ----

  /** The rules were kept so far, and exactly the held chunk is live. */
  ghost predicate Balanced<V>(r: Rows<V>) {
    && (r.closed ==> r.chunk == 0)
    && ObserveAll(r.log) == Some(Monitor(r.chunk, !r.closed, !(r.closed && r.ephemeral)))
    && Fetched(r.log) == Destroyed(r.log) + (if r.chunk != 0 then [r.chunk] else [])
    && ResultDestructions(r.log) == (if r.closed then 1 else 0)
  }

  lemma {:induction false} LogSnoc(log: seq<Call>, c: Call)
    ensures ObserveAll(log + [c]) ==
      match ObserveAll(log) case None => None case Some(m) => Observe(m, c)
    ensures Fetched(log + [c]) == Fetched(log) + if c.FetchChunk? && c.handle != 0 then [c.handle] else []
    ensures Destroyed(log + [c]) == Destroyed(log) + if c.DestroyChunk? then [c.handle] else []
    ensures ResultDestructions(log + [c]) == ResultDestructions(log) + if c.DestroyResult? then 1 else 0
  {
    assert (log + [c])[..|log|] == log;
  }

  lemma {:induction false} BalancedWithoutChunk<V>(r: Rows<V>)
    requires Balanced(r) && !r.closed
    ensures Balanced(WithoutChunk(r))
  {
    if r.chunk != 0 {
      LogSnoc(r.log, DestroyChunk(r.chunk));
    }
  }

  /** The calls of Close once no chunk is live. */
  lemma {:induction false} LogClosed(log: seq<Call>, ephemeral: bool)
    requires ObserveAll(log) == Some(Monitor(0, true, true))
    ensures var log' := log + [DestroyResult] + if ephemeral then [DestroyPrepare] else [];
      && ObserveAll(log') == Some(Monitor(0, false, !ephemeral))
      && Fetched(log') == Fetched(log) && Destroyed(log') == Destroyed(log)
      && ResultDestructions(log') == ResultDestructions(log) + 1
  {
    LogSnoc(log, DestroyResult);
    if ephemeral {
      LogSnoc(log + [DestroyResult], DestroyPrepare);
    } else {
      assert log + [DestroyResult] + [] == log + [DestroyResult];
    }
  }

  lemma {:induction false} BalancedClosed<V>(r: Rows<V>)
    requires Balanced(r)
    ensures Balanced(Closed(r)) && Closed(r).closed
  {
    if !r.closed {
      BalancedWithoutChunk(r);
      LogClosed(WithoutChunk(r).log, r.ephemeral);
    }
  }

  lemma {:induction false} BalancedFetched<V>(r: Rows<V>)
    requires Balanced(r) && !r.closed && r.chunk == 0
    ensures Balanced(WithFetched(r))
  {
    var h := NextHandle(r);
    LogSnoc(r.log, FetchChunk(h));
    if h != 0 {
      LogSnoc(r.log + [FetchChunk(h)], GetSize(h));
      assert WithFetched(r).log == r.log + [FetchChunk(h)] + [GetSize(h)];
    }
  }

  lemma {:induction false} BalancedReads<V>(r: Rows<V>, n: nat)
    requires Balanced(r) && !r.closed && r.chunk != 0
    ensures Balanced(r.(log := r.log + Reads(r.chunk, n)))
  {
    if n == 0 {
      assert r.log + Reads(r.chunk, 0) == r.log;
    } else {
      BalancedReads(r, n - 1);
      var log := r.log + Reads(r.chunk, n - 1);
      assert r.log + Reads(r.chunk, n) == log + [ReadValue(r.chunk)];
      LogSnoc(log, ReadValue(r.chunk));
    }
  }

  lemma {:induction false} BalancedAfterNext<V>(r: Rows<V>)
    requires Balanced(r)
    ensures Balanced(AfterNext(r).0)
  {
    if !r.closed {
      if HasRow(r) {
        BalancedReads(r, r.columns);
      } else {
        BalancedWithoutChunk(r);
        var f := WithFetched(WithoutChunk(r));
        BalancedFetched(WithoutChunk(r));
        if HasRow(f) {
          BalancedReads(f, f.columns);
        } else if f.chunk == 0 {
          BalancedClosed(f);
        } else {
          BalancedWithoutChunk(f);
          BalancedClosed(WithoutChunk(f));
        }
      }
    }
  }

  /** In any run the native rules hold: the chunks given back are those fetched, in order and once
      each, except the one held; at most one is live; the result is destroyed once, exactly when the
      rows are closed; and nothing but the statement is touched afterwards. */
  lemma {:induction false} ResourcesConserved<V>(chunks: seq<Chunk<V>>, columns: nat, ephemeral: bool, ops: seq<Op>)
    ensures Balanced(Run(Opened(chunks, columns, ephemeral), ops).0)
  {
    if ops != [] {
      var n := |ops| - 1;
      ResourcesConserved(chunks, columns, ephemeral, ops[..n]);
      var r := Run(Opened(chunks, columns, ephemeral), ops[..n]).0;
      if ops[n].CallNext? {
        BalancedAfterNext(r);
      } else {
        BalancedClosed(r);
      }
    }
  }

  datatype Counted = Values | Fetches

  /** The values read from chunks, or the chunks asked for. */
  function Count(log: seq<Call>, what: Counted): nat {
    if log == [] then 0
    else Count(log[..|log| - 1], what) + if IsCounted(log[|log| - 1], what) then 1 else 0
  }

  predicate IsCounted(c: Call, what: Counted) {
    match what case Values => c.ReadValue? case Fetches => c.FetchChunk?
  }

  lemma {:induction false} CountConcat(log: seq<Call>, more: seq<Call>, what: Counted)
    ensures Count(log + more, what) == Count(log, what) + Count(more, what)
  {
    if more == [] {
      assert log + more == log;
    } else {
      CountConcat(log, more[..|more| - 1], what);
      assert (log + more)[..|log + more| - 1] == log + more[..|more| - 1];
    }
  }

  lemma {:induction false} CountReads(handle: nat, n: nat)
    ensures Count(Reads(handle, n), Values) == n && Count(Reads(handle, n), Fetches) == 0
  {
    if n > 0 {
      CountReads(handle, n - 1);
      assert Reads(handle, n)[..n - 1] == Reads(handle, n - 1);
    }
  }

  lemma {:induction false} CountNone(more: seq<Call>, what: Counted)
    requires forall i :: 0 <= i < |more| ==> !IsCounted(more[i], what)
    ensures Count(more, what) == 0
  {
    if more != [] {
      CountNone(more[..|more| - 1], what);
    }
  }

  lemma {:induction false} CountWithout<V>(r: Rows<V>, what: Counted)
    ensures Count(WithoutChunk(r).log, what) == Count(r.log, what)
  {
    var destroy := [DestroyChunk(r.chunk)];
    CountNone(destroy, what);
    CountConcat(r.log, destroy, what);
  }

  lemma {:induction false} CountClosed<V>(r: Rows<V>, what: Counted)
    ensures Count(Closed(r).log, what) == Count(r.log, what)
  {
    if !r.closed {
      var w := WithoutChunk(r.(closed := true));
      var last := if r.ephemeral then [DestroyPrepare] else [];
      CountWithout(r.(closed := true), what);
      CountNone([DestroyResult], what);
      CountNone(last, what);
      CountConcat(w.log, [DestroyResult], what);
      CountConcat(w.log + [DestroyResult], last, what);
    }
  }

  lemma {:induction false} CountFetched<V>(r: Rows<V>, what: Counted)
    ensures Count(WithFetched(r).log, what) == Count(r.log, what) + if what.Fetches? then 1 else 0
  {
    var h := NextHandle(r);
    CountConcat(r.log, [FetchChunk(h)], what);
    assert [FetchChunk(h)][..0] == [];
    if h != 0 {
      var fetched := r.log + [FetchChunk(h)];
      CountNone([GetSize(h)], what);
      CountConcat(fetched, [GetSize(h)], what);
      assert r.log + [FetchChunk(h), GetSize(h)] == fetched + [GetSize(h)];
    }
  }

  lemma {:induction false} CountRow<V>(r: Rows<V>, what: Counted)
    ensures Count(AfterRow(r).log, what) == Count(r.log, what) + if what.Values? then r.columns else 0
  {
    CountConcat(r.log, Reads(r.chunk, r.columns), what);
    CountReads(r.chunk, r.columns);
  }

  /** A delivered row was read column by column, and nothing else was read; every fetch is one call. */
  lemma {:induction false} NextCounts<V>(r: Rows<V>, what: Counted)
    ensures var (r', o) := AfterNext(r);
      && r'.columns == r.columns && r'.fetches >= r.fetches
      && Count(r'.log, what) == Count(r.log, what)
           + match what case Values => (if o.Row? then r.columns else 0) case Fetches => r'.fetches - r.fetches
  {
    if !r.closed {
      if HasRow(r) {
        CountRow(r, what);
      } else {
        CountWithout(r, what);
        CountFetched(WithoutChunk(r), what);
        CountBehindFetch(WithFetched(WithoutChunk(r)), what);
      }
    }
  }

  /** Behind a fetch the first row is read, or the rows are closed. */
  lemma {:induction false} CountBehindFetch<V>(f: Rows<V>, what: Counted)
    ensures f.chunk == 0 ==> Count(Closed(f).log, what) == Count(f.log, what)
    ensures Count(Closed(WithoutChunk(f)).log, what) == Count(f.log, what)
    ensures Count(AfterRow(f).log, what) == Count(f.log, what) + if what.Values? then f.columns else 0
  {
    CountClosed(f, what);
    CountWithout(f, what);
    CountClosed(WithoutChunk(f), what);
    CountRow(f, what);
  }

  /** In any run each delivered row costs one read per column, nothing else is read, and each chunk, the
      null one included, is asked for by one call. */
  lemma {:induction false} RowsReadOnce<V>(chunks: seq<Chunk<V>>, columns: nat, ephemeral: bool, ops: seq<Op>)
    ensures var (r, os) := Run(Opened(chunks, columns, ephemeral), ops);
      r.columns == columns && Count(r.log, Values) == columns * |Delivered(os)| && Count(r.log, Fetches) == r.fetches
  {
    if ops != [] {
      var n := |ops| - 1;
      RowsReadOnce(chunks, columns, ephemeral, ops[..n]);
      var (r, os) := Run(Opened(chunks, columns, ephemeral), ops[..n]);
      if ops[n].CallNext? {
        NextCounts(r, Values);
        NextCounts(r, Fetches);
        DeliveredSnoc(os, AfterNext(r).1);
        OneMore(columns, |Delivered(os)|);
      } else {
        CountClosed(r, Values);
        CountClosed(r, Fetches);
        assert os + [] == os;
      }
    }
  }

  lemma {:induction false} OneMore(a: nat, b: nat)
    ensures a * (b + 1) == a * b + a
  {
  }

  /** Where n calls of Next lead: all rows are delivered by then, or the first n. */
  ghost predicate Drained<V>(r: Rows<V>, delivered: seq<seq<V>>, all: seq<seq<V>>, n: nat) {
    if n <= |all| then delivered == all[..n] && Position(r, delivered)
    else delivered == all && r.closed
  }

  lemma {:induction false} DrainStep<V>(r: Rows<V>, delivered: seq<seq<V>>, n: nat)
    requires Drained(r, delivered, AllRows(r.chunks), n)
    ensures AfterNext(r).0.chunks == r.chunks
    ensures var (r', o) := AfterNext(r);
      Drained(r', delivered + match o case Row(values) => [values] case Eof => [], AllRows(r.chunks), n + 1)
  {
    if !r.closed {
      NextAdvances(r, delivered);
      var (r', o) := AfterNext(r);
      if o.Row? {
        PositionIsPrefix(r', delivered + [o.values]);
        assert delivered + [o.values] == AllRows(r.chunks)[..n + 1];
      } else {
        assert delivered + [] == delivered;
      }
    } else {
      assert delivered + [] == delivered;
    }
  }

  function Nexts(n: nat): seq<Op> {
    seq(n, i => CallNext)
  }

  /** One more call of Next. */
  function Advanced<V>(p: (Rows<V>, seq<Outcome<V>>)): (Rows<V>, seq<Outcome<V>>) {
    var (r', o) := AfterNext(p.0);
    (r', p.1 + [o])
  }

  lemma {:induction false} RunNextSnoc<V>(r: Rows<V>, n: nat)
    ensures Run(r, Nexts(n + 1)) == Advanced(Run(r, Nexts(n)))
  {
    assert Nexts(n + 1)[..n] == Nexts(n);
  }

  ghost predicate DrainedRun<V>(p: (Rows<V>, seq<Outcome<V>>), chunks: seq<Chunk<V>>, n: nat) {
    p.0.chunks == chunks && Drained(p.0, Delivered(p.1), AllRows(chunks), n)
  }

  lemma {:induction false} RunNone<V>(r: Rows<V>)
    ensures Run(r, Nexts(0)) == (r, []) && Delivered<V>([]) == []
  {
    assert Nexts(0) == [];
  }

  lemma {:induction false} DrainPair<V>(p: (Rows<V>, seq<Outcome<V>>), chunks: seq<Chunk<V>>, n: nat)
    requires DrainedRun(p, chunks, n)
    ensures DrainedRun(Advanced(p), chunks, n + 1)
  {
    DrainStep(p.0, Delivered(p.1), n);
    assert (p.1 + [AfterNext(p.0).1])[..|p.1|] == p.1;
  }

  lemma {:induction false} Draining<V>(r: Rows<V>, n: nat)
    requires DrainedRun((r, []), r.chunks, 0)
    ensures DrainedRun(Run(r, Nexts(n)), r.chunks, n)
  {
    if n == 0 {
      RunNone(r);
    } else {
      Draining(r, n - 1);
      DrainPair(Run(r, Nexts(n - 1)), r.chunks, n - 1);
      RunNextSnoc(r, n - 1);
    }
  }

  /** Calling Next once more than there are rows delivers them all and releases everything. */
  lemma {:induction false} DrainingReleases<V>(chunks: seq<Chunk<V>>, columns: nat, ephemeral: bool, n: nat)
    ensures var (r, os) := Run(Opened(chunks, columns, ephemeral), Nexts(n));
      && (n <= |AllRows(chunks)| ==> Delivered(os) == AllRows(chunks)[..n] && !r.closed)
      && (n > |AllRows(chunks)| ==>
            Delivered(os) == AllRows(chunks) && r.closed && Fetched(r.log) == Destroyed(r.log))
  {
    Draining(Opened(chunks, columns, ephemeral), n);
    ResourcesConserved(chunks, columns, ephemeral, Nexts(n));
  }
}
