/**
  The node loaders of the graph: rows newer than a saved watermark are read in timestamp order and merged
  into the graph batch by batch; the watermark is written once, after the last batch.  A run may be cut
  between any two batches, and the source may be updated at any time.
 */
module IncrementalLoader {
  import opened Prelude

  type Key = string

  /** A source row, or the properties of the node it became; snapTs is the Iceberg write timestamp. */
  datatype Row = Row(snapTs: int, data: string)

  /** A result row of the loader's query. */
  datatype Fetched = Fetched(key: Key, row: Row)

  type Table = map<Key, Row>
  type Graph = map<Key, Row>
  type Watermark = Option<int>

  // ---- Writing rows ----

  /** MERGE on the key and SET of every property, row after row. */
  function Upsert(graph: Graph, rows: seq<Fetched>): Graph {
    if rows == [] then graph
    else
      var last := rows[|rows| - 1];
      Upsert(graph, rows[..|rows| - 1])[last.key := last.row]
  }

  /** What a run leaves as the watermark: the timestamp of the last row written, if there was one. */
  function LastTs(rows: seq<Fetched>, wm: Watermark): Watermark {
    if rows == [] then wm else Some(rows[|rows| - 1].row.snapTs)
  }

  lemma {:induction false} UpsertConcat(graph: Graph, a: seq<Fetched>, b: seq<Fetched>)
    ensures Upsert(graph, a + b) == Upsert(Upsert(graph, a), b)
  {
    if b == [] {
      assert a + b == a;
    } else {
      assert (a + b)[..|a + b| - 1] == a + b[..|b| - 1];
      UpsertConcat(graph, a, b[..|b| - 1]);
    }
  }

  lemma {:induction false} UpsertAt(graph: Graph, rows: seq<Fetched>, key: Key)
    requires forall i, j :: 0 <= i < j < |rows| ==> rows[i].key != rows[j].key
    ensures forall i :: 0 <= i < |rows| && rows[i].key == key ==>
              key in Upsert(graph, rows) && Upsert(graph, rows)[key] == rows[i].row
    ensures (forall i :: 0 <= i < |rows| ==> rows[i].key != key) ==>
              (key in Upsert(graph, rows) <==> key in graph) &&
              (key in graph ==> Upsert(graph, rows)[key] == graph[key])
  {
    if rows != [] {
      UpsertAt(graph, rows[..|rows| - 1], key);
    }
  }

  class Memgraph {
    var nodes: Graph

    constructor ()
      ensures nodes == map[]
    {
      nodes := map[];
    }

    method RunCypherBatch(batch: seq<Fetched>)
      modifies this
      ensures nodes == Upsert(old(nodes), batch)
    {
      for i := 0 to |batch|
        invariant nodes == Upsert(old(nodes), batch[..i])
      {
        assert batch[..i + 1][..i] == batch[..i];
        nodes := nodes[batch[i].key := batch[i].row];
      }
      assert batch[..|batch|] == batch;
    }
  }

  class WatermarkFile {
    var saved: Watermark

    constructor ()
      ensures saved == None
    {
      saved := None;
    }
  }

  /** The rows that are written when a run is cut after some number of batches. */
  function Written(rows: seq<Fetched>, batchSize: nat, batches: nat): seq<Fetched> {
    if batches == 0 then []
    else if |rows| <= batchSize then rows
    else rows[..batchSize] + Written(rows[batchSize..], batchSize, batches - 1)
  }

  lemma {:induction false} WrittenIsPrefix(rows: seq<Fetched>, batchSize: nat, batches: nat)
    ensures Written(rows, batchSize, batches) <= rows
  {
    if batches > 0 && |rows| > batchSize {
      WrittenIsPrefix(rows[batchSize..], batchSize, batches - 1);
      assert rows == rows[..batchSize] + rows[batchSize..];
    }
  }

  /** What a run writes when it dies after cutAfter batches, or when it does not die. */
  function Target(rows: seq<Fetched>, batchSize: nat, cutAfter: Option<nat>): seq<Fetched> {
    if cutAfter.Some? then Written(rows, batchSize, cutAfter.value) else rows
  }

  /** So many batches' rows, from the front, or all of them. */
  lemma {:induction false} TargetMeans(rows: seq<Fetched>, batchSize: nat, cutAfter: Option<nat>)
    ensures cutAfter == None ==> Target(rows, batchSize, cutAfter) == rows
    ensures cutAfter.Some? && batchSize > 0 ==>
              var n := cutAfter.value * batchSize;
              Target(rows, batchSize, cutAfter) == if n < |rows| then rows[..n] else rows
  {
    if cutAfter.Some? && batchSize > 0 {
      WrittenIs(rows, batchSize, cutAfter.value);
    }
  }

  lemma {:induction false} WrittenIs(rows: seq<Fetched>, batchSize: nat, batches: nat)
    requires batchSize > 0
    ensures Written(rows, batchSize, batches) ==
            if batches * batchSize < |rows| then rows[..batches * batchSize] else rows
  {
    if batches > 0 {
      var more := (batches - 1) * batchSize;
      assert batches * batchSize == batchSize + more && more >= 0;
      if |rows| > batchSize {
        WrittenIs(rows[batchSize..], batchSize, batches - 1);
        FrontThenMore(rows, batchSize, more);
      }
    }
  }

  lemma {:induction false} FrontThenMore(rows: seq<Fetched>, n: nat, more: nat)
    requires n < |rows|
    ensures rows[..n] + (if more < |rows| - n then rows[n..][..more] else rows[n..]) ==
            if n + more < |rows| then rows[..n + more] else rows
  {
  }

  /** What fetchmany returns next. */
  function NextBatch(rest: seq<Fetched>, batchSize: nat): seq<Fetched> {
    if |rest| < batchSize then rest else rest[..batchSize]
  }

  function OneLess(left: Option<nat>): Option<nat> {
    if left.Some? && left.value > 0 then Some(left.value - 1) else left
  }

  /**
    The batch loop.  cutAfter tells after how many batches the process dies, if it does; the watermark is
    saved only by a run that reaches its end.
   */
  method BatchLoad(graph: Memgraph, file: WatermarkFile, rows: seq<Fetched>, batchSize: nat, cutAfter: Option<nat>)
    requires batchSize > 0
    modifies graph, file
    ensures graph.nodes == Upsert(old(graph.nodes), Target(rows, batchSize, cutAfter))
    ensures file.saved == if cutAfter.Some? then old(file.saved) else LastTs(rows, old(file.saved))
  {
    var lastTs: Watermark := None;
    var rest, left := rows, cutAfter;
    while true
      invariant left.Some? <==> cutAfter.Some?
      invariant Upsert(graph.nodes, Target(rest, batchSize, left)) ==
                Upsert(old(graph.nodes), Target(rows, batchSize, cutAfter))
      invariant LastTs(rest, lastTs) == LastTs(rows, None)
      invariant file.saved == old(file.saved)
      decreases |rest|
    {
      if left == Some(0) {
        return;
      }
      var batch := NextBatch(rest, batchSize);
      if batch == [] {
        break;
      }
      BatchStep(graph.nodes, rest, batchSize, left);
      graph.RunCypherBatch(batch);
      lastTs := Some(batch[|batch| - 1].row.snapTs);
      rest := rest[|batch|..];
      left := OneLess(left);
    }
    if cutAfter.None? && lastTs.Some? {
      file.saved := lastTs;
    }
  }

  /** Writing one batch changes neither what the loop will have written nor the last timestamp. */
  lemma {:induction false} BatchStep(nodes: Graph, rest: seq<Fetched>, batchSize: nat, left: Option<nat>)
    requires NextBatch(rest, batchSize) != [] && left != Some(0)
    ensures var batch := NextBatch(rest, batchSize);
            var rest' := rest[|batch|..];
            && Upsert(Upsert(nodes, batch), Target(rest', batchSize, OneLess(left))) ==
               Upsert(nodes, Target(rest, batchSize, left))
            && forall wm :: LastTs(rest', Some(batch[|batch| - 1].row.snapTs)) == LastTs(rest, wm)
  {
    var batch := NextBatch(rest, batchSize);
    TargetStep(rest, batchSize, left);
    UpsertConcat(nodes, batch, Target(rest[|batch|..], batchSize, OneLess(left)));
  }

  lemma {:induction false} TargetStep(rest: seq<Fetched>, batchSize: nat, left: Option<nat>)
    requires NextBatch(rest, batchSize) != [] && left != Some(0)
    ensures var batch := NextBatch(rest, batchSize);
            Target(rest, batchSize, left) == batch + Target(rest[|batch|..], batchSize, OneLess(left))
  {
    if |rest| <= batchSize {
      assert rest[|rest|..] == [] && rest + [] == rest;
    } else {
      assert rest[..batchSize] + rest[batchSize..] == rest;
    }
  }

  // ---- Which rows a run reads ----

  datatype Mode = Full | Incremental

  /** Is this row of the table selected by the query? */
  predicate Wanted(wm: Watermark, mode: Mode, row: Row) {
    mode == Full || wm.None? || row.snapTs > wm.value
  }

  /** The result of the query: each selected row once, oldest first, ties in any order. */
  ghost predicate IsResult(rows: seq<Fetched>, table: Table, wm: Watermark, mode: Mode) {
    && (forall i, j :: 0 <= i < j < |rows| ==> rows[i].key != rows[j].key && rows[i].row.snapTs <= rows[j].row.snapTs)
    && (forall f :: f in rows ==> f.key in table && table[f.key] == f.row && Wanted(wm, mode, f.row))
    && (forall k :: k in table && Wanted(wm, mode, table[k]) ==> Fetched(k, table[k]) in rows)
  }

  // ---- The loader as a state machine ----

  /** A run in progress: the table its query saw, what it has written, and what is left. */
  datatype Session = Session(seen: Table, mode: Mode, done: seq<Fetched>, rest: seq<Fetched>)

  datatype State = State(table: Table, graph: Graph, saved: Watermark, session: Option<Session>)

  datatype Event =
    | Update(key: Key, row: Row)
    | Begin(mode: Mode, rows: seq<Fetched>)
    | Batch(size: nat)
    | Cut
    | Complete

  /** Later than the watermark and than every row that a run in progress has seen; updates may tie with each other. */
  ghost predicate IsNewest(s: State, ts: int) {
    && (s.saved.Some? ==> s.saved.value < ts)
    && (s.session.Some? ==> forall k :: k in s.session.value.seen ==> s.session.value.seen[k].snapTs < ts)
  }

  ghost predicate Enabled(s: State, e: Event) {
    match e
    case Update(key, row) => IsNewest(s, row.snapTs)
    case Begin(mode, rows) => s.session.None? && IsResult(rows, s.table, s.saved, mode)
    case Batch(size) => s.session.Some? && 0 < size <= |s.session.value.rest|
    case Cut => s.session.Some?
    case Complete => s.session.Some? && s.session.value.rest == []
  }

  ghost function Next(s: State, e: Event): State
    requires Enabled(s, e)
  {
    match e
    case Update(key, row) => s.(table := s.table[key := row])
    case Begin(mode, rows) => s.(session := Some(Session(s.table, mode, [], rows)))
    case Batch(size) =>
      var run := s.session.value;
      s.(graph := Upsert(s.graph, run.rest[..size]),
         session := Some(run.(done := run.done + run.rest[..size], rest := run.rest[size..])))
    case Cut => s.(session := None)
    case Complete => s.(saved := LastTs(s.session.value.done, s.saved), session := None)
  }

  /** A run of the system: each event is enabled where it happens. */
  ghost predicate IsRun(s: State, events: seq<Event>, s': State)
    decreases |events|
  {
    if events == [] then s == s' else Enabled(s, events[0]) && IsRun(Next(s, events[0]), events[1..], s')
  }

  const START := State(map[], map[], None, None)

  /** Every row at or below the watermark is in the graph with its current values. */
  ghost predicate Loaded(table: Table, graph: Graph, wm: Watermark) {
    wm.Some? ==> forall k :: k in table && table[k].snapTs <= wm.value ==> k in graph && graph[k] == table[k]
  }

  /** The table has only grown newer since a run read it. */
  ghost predicate Newer(seen: Table, table: Table, wm: Watermark) {
    && (forall k :: k in seen ==> k in table)
    && (forall k :: k in table && !(k in seen && table[k] == seen[k]) ==> IsAfter(seen, wm, table[k].snapTs))
  }

  ghost predicate IsAfter(seen: Table, wm: Watermark, ts: int) {
    (forall k :: k in seen ==> seen[k].snapTs < ts) && (wm.Some? ==> wm.value < ts)
  }

  /** Some row is as new as the watermark. */
  ghost predicate Reaches(table: Table, wm: Watermark) {
    wm.Some? ==> exists k :: k in table && table[k].snapTs >= wm.value
  }

  ghost predicate SessionInv(s: State, run: Session) {
    && IsResult(run.done + run.rest, run.seen, s.saved, run.mode)
    && Newer(run.seen, s.table, s.saved)
    && Loaded(run.seen, s.graph, s.saved)
    && Reaches(run.seen, s.saved)
    && (forall f :: f in run.done ==> f.key in s.graph && s.graph[f.key] == f.row)
  }

  ghost predicate Inv(s: State) {
    && Loaded(s.table, s.graph, s.saved)
    && Reaches(s.table, s.saved)
    && (s.session.Some? ==> SessionInv(s, s.session.value))
  }

  lemma {:induction false} NewerLoaded(seen: Table, table: Table, graph: Graph, wm: Watermark)
    requires Newer(seen, table, wm) && Loaded(seen, graph, wm)
    ensures Loaded(table, graph, wm)
  {
  }

  /** Writing rows of seen makes the graph agree with seen on them and leaves the rest alone. */
  lemma {:induction false} WriteKeepsLoaded(seen: Table, graph: Graph, wm: Watermark, batch: seq<Fetched>)
    requires forall i, j :: 0 <= i < j < |batch| ==> batch[i].key != batch[j].key
    requires forall f :: f in batch ==> f.key in seen && seen[f.key] == f.row
    ensures forall f :: f in batch ==> f.key in Upsert(graph, batch) && Upsert(graph, batch)[f.key] == f.row
    ensures forall k :: k in seen && k in graph && graph[k] == seen[k] ==>
              k in Upsert(graph, batch) && Upsert(graph, batch)[k] == seen[k]
  {
    forall f | f in batch ensures f.key in Upsert(graph, batch) && Upsert(graph, batch)[f.key] == f.row {
      UpsertAt(graph, batch, f.key);
    }
    forall k | k in seen && k in graph && graph[k] == seen[k]
      ensures k in Upsert(graph, batch) && Upsert(graph, batch)[k] == seen[k]
    {
      UpsertAt(graph, batch, k);
      if i :| 0 <= i < |batch| && batch[i].key == k {
        assert batch[i] in batch;
      }
    }
  }

  lemma {:induction false} PartOfResult(rows: seq<Fetched>, table: Table, wm: Watermark, mode: Mode, lo: nat, hi: nat)
    requires IsResult(rows, table, wm, mode) && lo <= hi <= |rows|
    ensures forall i, j :: 0 <= i < j < hi - lo ==> rows[lo..hi][i].key != rows[lo..hi][j].key
    ensures forall f :: f in rows[lo..hi] ==> f.key in table && table[f.key] == f.row
  {
    forall f | f in rows[lo..hi] ensures f in rows {
    }
  }

  lemma {:induction false} BatchKeepsInv(s: State, size: nat)
    requires Inv(s) && Enabled(s, Batch(size))
    ensures Inv(Next(s, Batch(size)))
  {
    var run, s' := s.session.value, Next(s, Batch(size));
    var batch := run.rest[..size];
    BatchOfSession(s, run, size);
    WriteKeepsLoaded(run.seen, s.graph, s.saved, batch);
    GraphKeepsLoaded(run.seen, s.graph, s'.graph, s.saved);
    NewerLoaded(run.seen, s.table, s'.graph, s.saved);
    forall f | f in s'.session.value.done ensures f.key in s'.graph && s'.graph[f.key] == f.row {
      assert f in run.done || f in batch;
    }
  }

  lemma {:induction false} GraphKeepsLoaded(seen: Table, graph: Graph, graph': Graph, wm: Watermark)
    requires Loaded(seen, graph, wm)
    requires forall k :: k in seen && k in graph && graph[k] == seen[k] ==> k in graph' && graph'[k] == seen[k]
    ensures Loaded(seen, graph', wm)
  {
  }

  lemma {:induction false} BatchOfSession(s: State, run: Session, size: nat)
    requires SessionInv(s, run) && size <= |run.rest|
    ensures forall i, j :: 0 <= i < j < size ==> run.rest[..size][i].key != run.rest[..size][j].key
    ensures forall f :: f in run.rest[..size] || f in run.done ==> f.key in run.seen && run.seen[f.key] == f.row
    ensures run.done + run.rest[..size] + run.rest[size..] == run.done + run.rest
  {
    var rows, n := run.done + run.rest, |run.done|;
    PartOfResult(rows, run.seen, s.saved, run.mode, n, n + size);
    PartOfResult(rows, run.seen, s.saved, run.mode, 0, n);
    assert rows[n..n + size] == run.rest[..size];
    assert rows[0..n] == run.done;
    assert run.rest[..size] + run.rest[size..] == run.rest;
  }

  lemma {:induction false} UpdateKeepsInv(s: State, key: Key, row: Row)
    requires Inv(s) && Enabled(s, Update(key, row))
    ensures Inv(Next(s, Update(key, row)))
  {
    var table := s.table[key := row];
    if s.saved.Some? {
      var k :| k in s.table && s.table[k].snapTs >= s.saved.value;
      assert k in table && table[k].snapTs >= s.saved.value;
    }
    if s.session.Some? {
      var seen := s.session.value.seen;
      forall k | k in seen ensures seen[k].snapTs < row.snapTs {
        assert k in s.table;
      }
      assert Newer(seen, table, s.saved);
    }
  }

  /** A completed run wrote all it selected; the rest of what it saw was loaded before. */
  lemma {:induction false} CompletedRunAgrees(s: State)
    requires Inv(s) && Enabled(s, Complete)
    ensures var seen := s.session.value.seen;
            forall k :: k in seen ==> k in s.graph && s.graph[k] == seen[k]
  {
    var run := s.session.value;
    assert run.done + [] == run.done;
    forall k | k in run.seen ensures k in s.graph && s.graph[k] == run.seen[k] {
      if Wanted(s.saved, run.mode, run.seen[k]) {
        assert Fetched(k, run.seen[k]) in run.done;
      }
    }
  }

  lemma {:induction false} LastIsTop(rows: seq<Fetched>, table: Table, wm: Watermark, mode: Mode)
    requires IsResult(rows, table, wm, mode) && rows != []
    ensures var last := rows[|rows| - 1];
            && last.key in table && table[last.key].snapTs == last.row.snapTs && Wanted(wm, mode, last.row)
            && forall k :: k in table && Wanted(wm, mode, table[k]) ==> table[k].snapTs <= last.row.snapTs
  {
    assert rows[|rows| - 1] in rows;
    forall k | k in table && Wanted(wm, mode, table[k]) ensures table[k].snapTs <= rows[|rows| - 1].row.snapTs {
      var i :| 0 <= i < |rows| && rows[i] == Fetched(k, table[k]);
    }
  }

  lemma {:induction false} NoneIsNewer(s: State)
    requires Inv(s) && Enabled(s, Complete)
    ensures var run, wm := s.session.value, Next(s, Complete).saved;
            forall k :: k in run.seen ==> wm.Some? && run.seen[k].snapTs <= wm.value
  {
    var run, wm := s.session.value, Next(s, Complete).saved;
    assert run.done + [] == run.done;
    if run.done != [] {
      LastIsTop(run.done, run.seen, s.saved, run.mode);
    }
    forall k | k in run.seen ensures wm.Some? && run.seen[k].snapTs <= wm.value {
      if Wanted(s.saved, run.mode, run.seen[k]) {
        assert Fetched(k, run.seen[k]) in run.done;
      } else if run.done != [] {
        assert run.mode == Full || run.done[|run.done| - 1].row.snapTs > s.saved.value;
      }
    }
  }

  /**
    The new watermark is the timestamp of some row that was seen, and no row that was seen is newer; it is at least
    the old one, and after an incremental run that wrote anything it is later.
   */
  lemma {:induction false} WatermarkAdvances(s: State)
    requires Inv(s) && Enabled(s, Complete)
    ensures var run, wm := s.session.value, Next(s, Complete).saved;
            && (s.saved.Some? ==> wm.Some? && wm.value >= s.saved.value)
            && (run.mode == Incremental && run.done != [] && s.saved.Some? ==> wm.value > s.saved.value)
            && (run.done != [] ==> wm.Some? && exists k :: k in run.seen && run.seen[k].snapTs == wm.value)
            && forall k :: k in run.seen ==> wm.Some? && run.seen[k].snapTs <= wm.value
  {
    var run := s.session.value;
    assert run.done + [] == run.done;
    NoneIsNewer(s);
    if run.done != [] {
      LastIsTop(run.done, run.seen, s.saved, run.mode);
      if s.saved.Some? {
        var k :| k in run.seen && run.seen[k].snapTs >= s.saved.value;
        assert run.mode == Full ==> Wanted(s.saved, run.mode, run.seen[k]);
      }
    }
  }

  lemma {:induction false} CompleteKeepsInv(s: State)
    requires Inv(s) && Enabled(s, Complete)
    ensures Inv(Next(s, Complete))
  {
    CompletedRunAgrees(s);
    WatermarkAdvances(s);
    var run, s' := s.session.value, Next(s, Complete);
    if run.done != [] {
      var top :| top in run.seen && run.seen[top].snapTs == s'.saved.value;
      assert top in s.table && s.table[top].snapTs >= s'.saved.value;
      forall k | k in s.table && s.table[k].snapTs <= s'.saved.value ensures k in s.graph && s.graph[k] == s.table[k] {
        assert k in run.seen && s.table[k] == run.seen[k];
      }
    }
  }

  lemma {:induction false} NextKeepsInv(s: State, e: Event)
    requires Inv(s) && Enabled(s, e)
    ensures Inv(Next(s, e))
  {
    match e
    case Update(key, row) => UpdateKeepsInv(s, key, row);
    case Begin(mode, rows) => assert [] + rows == rows;
    case Batch(size) => BatchKeepsInv(s, size);
    case Cut =>
    case Complete => CompleteKeepsInv(s);
  }

  lemma {:induction false} RunKeepsInv(s: State, events: seq<Event>, s': State)
    requires Inv(s) && IsRun(s, events, s')
    ensures Inv(s')
    ensures s.saved.Some? ==> s'.saved.Some? && s'.saved.value >= s.saved.value
    decreases |events|
  {
    if events != [] {
      NextKeepsInv(s, events[0]);
      if events[0].Complete? {
        WatermarkAdvances(s);
      }
      RunKeepsInv(Next(s, events[0]), events[1..], s');
    }
  }

  /**
    Crash safety: through completed runs, cut runs and later-stamped updates in any order, every row at or
    below the saved watermark is in the graph with its current values.
   */
  lemma {:induction false} CrashSafe(events: seq<Event>, s: State)
    requires IsRun(START, events, s)
    ensures Loaded(s.table, s.graph, s.saved)
  {
    RunKeepsInv(START, events, s);
  }

  /** A run that completes, with no update since it began, leaves the graph agreeing with the whole table. */
  lemma {:induction false} CompletedRunIsExact(events: seq<Event>, s: State)
    requires IsRun(START, events, s) && Enabled(s, Complete) && s.session.value.seen == s.table
    ensures forall k :: k in s.table ==> k in Next(s, Complete).graph && Next(s, Complete).graph[k] == s.table[k]
  {
    RunKeepsInv(START, events, s);
    CompletedRunAgrees(s);
  }

  /** And then no row is left for an incremental run to select. */
  lemma {:induction false} NothingLeftToRead(events: seq<Event>, s: State)
    requires IsRun(START, events, s) && Enabled(s, Complete) && s.session.value.seen == s.table
    ensures forall k :: k in s.table ==> !Wanted(Next(s, Complete).saved, Incremental, s.table[k])
  {
    RunKeepsInv(START, events, s);
    NoneIsNewer(s);
  }

  /** No run, in either mode, ever moves the watermark back. */
  lemma {:induction false} WatermarkNeverGoesBack(before: seq<Event>, s: State, after: seq<Event>, s': State)
    requires IsRun(START, before, s) && IsRun(s, after, s')
    ensures s.saved.Some? ==> s'.saved.Some? && s'.saved.value >= s.saved.value
  {
    RunKeepsInv(START, before, s);
    RunKeepsInv(s, after, s');
  }

  lemma {:induction false} RunConcat(s: State, a: seq<Event>, mid: State, b: seq<Event>, s': State)
    requires IsRun(s, a, mid) && IsRun(mid, b, s')
    ensures IsRun(s, a + b, s')
    decreases |a|
  {
    if a == [] {
      assert a + b == b;
    } else {
      assert (a + b)[1..] == a[1..] + b;
      RunConcat(Next(s, a[0]), a[1..], mid, b, s');
    }
  }

  lemma {:induction false} OneStep(s: State, e: Event)
    requires Enabled(s, e)
    ensures IsRun(s, [e], Next(s, e))
  {
    assert [e][1..] == [];
  }

  /** What the batch loop does, cut or completed, is a run of the state machine, for any batch size. */
  lemma {:induction false} BatchLoadIsRun(s: State, mode: Mode, rows: seq<Fetched>, batchSize: nat,
          cutAfter: Option<nat>)
    returns (events: seq<Event>, s': State)
    requires s.session.None? && IsResult(rows, s.table, s.saved, mode) && batchSize > 0
    ensures IsRun(s, events, s') && s'.session.None? && s'.table == s.table
    ensures s'.graph == Upsert(s.graph, Target(rows, batchSize, cutAfter))
    ensures s'.saved == if cutAfter.Some? then s.saved else LastTs(rows, s.saved)
  {
    var written := Target(rows, batchSize, cutAfter);
    if cutAfter.Some? {
      WrittenIsPrefix(rows, batchSize, cutAfter.value);
    }
    assert rows[..|written|] == written;
    var s1 := Next(s, Begin(mode, rows));
    OneStep(s, Begin(mode, rows));
    var middle, s2 := WriteFirst(s1, |written|);
    RunConcat(s, [Begin(mode, rows)], s1, middle, s2);
    var last := if cutAfter.Some? then Cut else Complete;
    OneStep(s2, last);
    s' := Next(s2, last);
    RunConcat(s, [Begin(mode, rows)] + middle, s2, [last], s');
    events := [Begin(mode, rows)] + middle + [last];
  }

  /** A run that has just begun and writes the first n of its rows. */
  lemma {:induction false} WriteFirst(s: State, n: nat) returns (events: seq<Event>, s': State)
    requires s.session.Some? && s.session.value.done == [] && n <= |s.session.value.rest|
    ensures IsRun(s, events, s')
    ensures var run := s.session.value;
            s' == s.(graph := Upsert(s.graph, run.rest[..n]),
                     session := Some(run.(done := run.rest[..n], rest := run.rest[n..])))
  {
    var run := s.session.value;
    if n == 0 {
      assert run.rest[0..] == run.rest && run.rest[..0] == [];
      events, s' := [], s;
    } else {
      assert [] + run.rest[..n] == run.rest[..n];
      OneStep(s, Batch(n));
      events, s' := [Batch(n)], Next(s, Batch(n));
    }
  }

  lemma {:induction false} AppendStep(events: seq<Event>, s: State, e: Event)
    requires IsRun(START, events, s) && Enabled(s, e)
    ensures IsRun(START, events + [e], Next(s, e))
  {
    OneStep(s, e);
    RunConcat(START, events, s, [e], Next(s, e));
  }

  /** Two rows committed under one stamp. */
  lemma {:induction false} CommitTwo(x: Fetched, y: Fetched) returns (events: seq<Event>, s: State)
    requires x.key != y.key && x.row.snapTs == y.row.snapTs
    ensures IsRun(START, events, s)
    ensures s == State(map[x.key := x.row, y.key := y.row], map[], None, None)
  {
    var s1 := Next(START, Update(x.key, x.row));
    AppendStep([], START, Update(x.key, x.row));
    AppendStep([Update(x.key, x.row)], s1, Update(y.key, y.row));
    events, s := [Update(x.key, x.row)] + [Update(y.key, y.row)], Next(s1, Update(y.key, y.row));
    assert [] + [Update(x.key, x.row)] == [Update(x.key, x.row)];
  }

  lemma {:induction false} UpsertOne(f: Fetched)
    ensures Upsert(map[], [f]) == map[f.key := f.row]
  {
    assert [f][..0] == [];
  }

  /** Tables with ties are reachable, and so is a run that is cut between two tied rows. */
  lemma {:induction false} CutBetweenTies(x: Fetched, y: Fetched) returns (events: seq<Event>, s: State)
    requires x.key != y.key && x.row.snapTs == y.row.snapTs
    ensures IsRun(START, events, s)
    ensures s == State(map[x.key := x.row, y.key := y.row], map[x.key := x.row], None, None)
  {
    var commit, s1 := CommitTwo(x, y);
    var rows := [x, y];
    assert rows[0] == x && rows[1] == y;
    assert IsResult(rows, s1.table, None, Full);
    AppendStep(commit, s1, Begin(Full, rows));
    var s2 := Next(s1, Begin(Full, rows));
    AppendStep(commit + [Begin(Full, rows)], s2, Batch(1));
    var s3 := Next(s2, Batch(1));
    UpsertOne(x);
    assert rows[..1] == [x];
    AppendStep(commit + [Begin(Full, rows)] + [Batch(1)], s3, Cut);
    events, s := commit + [Begin(Full, rows)] + [Batch(1)] + [Cut], Next(s3, Cut);
  }

  // ---- Updates that do not come later than the watermark ----

  predicate Holds(graph: Graph, key: Key, row: Row) { key in graph && graph[key] == row }

  /** On any reachable state: an update keeps the promise of the watermark exactly when it is stamped after it. */
  lemma {:induction false} TiedUpdateIsLost(events: seq<Event>, s: State, key: Key, row: Row)
    requires IsRun(START, events, s) && s.saved.Some?
    ensures Loaded(s.table[key := row], s.graph, s.saved) <==> row.snapTs > s.saved.value || Holds(s.graph, key, row)
  {
    RunKeepsInv(START, events, s);
    var table := s.table[key := row];
    if row.snapTs > s.saved.value || Holds(s.graph, key, row) {
      forall k | k in table && table[k].snapTs <= s.saved.value ensures k in s.graph && s.graph[k] == table[k] {
      }
    } else {
      assert key in table && table[key].snapTs <= s.saved.value;
    }
  }

  /** The row is at or below the watermark, not in the graph, and in nothing that is being loaded. */
  ghost predicate Overlooked(s: State, key: Key, row: Row) {
    && s.saved.Some? && row.snapTs <= s.saved.value && Holds(s.table, key, row) && !Holds(s.graph, key, row)
    && (s.session.Some? ==> forall f :: f in s.session.value.done || f in s.session.value.rest ==>
          f != Fetched(key, row) && f.row.snapTs > s.saved.value)
  }

  /** An event of a system that only loads incrementally and does not touch key again. */
  predicate Skips(e: Event, key: Key) {
    match e
    case Update(k, _) => k != key
    case Begin(mode, _) => mode == Incremental
    case _ => true
  }

  lemma {:induction false} UpsertWithout(graph: Graph, rows: seq<Fetched>, key: Key, row: Row)
    requires !Holds(graph, key, row) && forall f :: f in rows ==> f != Fetched(key, row)
    ensures !Holds(Upsert(graph, rows), key, row)
  {
    if rows != [] {
      var n := |rows| - 1;
      assert rows[n] in rows && forall f :: f in rows[..n] ==> f in rows;
      UpsertWithout(graph, rows[..n], key, row);
    }
  }

  lemma {:induction false} StaysOverlooked(s: State, e: Event, key: Key, row: Row)
    requires Overlooked(s, key, row) && Enabled(s, e) && Skips(e, key)
    ensures Overlooked(Next(s, e), key, row)
  {
    match e
    case Update(_, _) =>
    case Begin(_, _) =>
    case Batch(size) =>
      var run := s.session.value;
      forall f | f in run.done + run.rest[..size] || f in run.rest[size..] ensures f in run.done || f in run.rest {
      }
      UpsertWithout(s.graph, run.rest[..size], key, row);
    case Cut =>
    case Complete =>
      var done := s.session.value.done;
      assert done != [] ==> done[|done| - 1] in done;
  }

  /**
    Until the key is updated again or a full run is made, no run ever loads an update that the watermark has
    passed.
   */
  lemma {:induction false} LateUpdateIsNeverLoaded(s: State, events: seq<Event>, s': State, key: Key, row: Row)
    requires Overlooked(s, key, row) && IsRun(s, events, s')
    requires forall e :: e in events ==> Skips(e, key)
    ensures Holds(s'.table, key, row) && !Holds(s'.graph, key, row) && !Loaded(s'.table, s'.graph, s'.saved)
    decreases |events|
  {
    if events != [] {
      assert events[0] in events;
      StaysOverlooked(s, events[0], key, row);
      LateUpdateIsNeverLoaded(Next(s, events[0]), events[1..], s', key, row);
    }
  }
}
