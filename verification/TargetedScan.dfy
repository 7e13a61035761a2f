/**
  The targeted reader: several consumers run at once over ranges of a topic, share one set of wanted keys, and
  stop as soon as it is empty.  A key is taken off the set by the first consumer that meets it.
 */
module TargetedScan {
  import opened Prelude
  import opened TopicScan
  import opened KeyCodec
  import opened Reconciliation

  // ---- The ranges ----

  const TAIL_WINDOW: nat := 2_000_000

  /** What one consumer reads of a partition: count messages from an offset on. */
  datatype Range = Range(from: nat, count: nat)

  predicate Covers(r: Range, offset: int) {
    r.from <= offset < r.from + r.count
  }

  /** The tail and, when there is more, the head of one partition. */
  function RangesOf(endOffset: nat): seq<Range> {
    var tailFrom := if endOffset > TAIL_WINDOW then endOffset - TAIL_WINDOW else 0;
    [Range(tailFrom, endOffset - tailFrom)] + if tailFrom > 0 then [Range(0, tailFrom)] else []
  }

  /** Tail and head tile the partition: every offset is read by one consumer and by one only. */
  lemma {:induction false} RangesTile(endOffset: nat, offset: int)
    ensures (exists i :: 0 <= i < |RangesOf(endOffset)| && Covers(RangesOf(endOffset)[i], offset)) <==>
            0 <= offset < endOffset
    ensures forall i, j :: 0 <= i < j < |RangesOf(endOffset)| ==>
              !(Covers(RangesOf(endOffset)[i], offset) && Covers(RangesOf(endOffset)[j], offset))
  {
    var rs := RangesOf(endOffset);
    if 0 <= offset < endOffset {
      assert Covers(rs[0], offset) || (|rs| == 2 && Covers(rs[1], offset));
    }
  }

  function Lines(log: Partition, r: Range): seq<Msg> {
    log[Clip(r.from, |log|)..Clip(r.from + r.count, |log|)]
  }

  /** The lines of the consumers of one partition; an empty one has none. */
  function StreamsOf(log: Partition): seq<seq<Msg>> {
    var rs := RangesOf(|log|);
    if log == [] then []
    else if |rs| == 1 then [Lines(log, rs[0])]
    else [Lines(log, rs[0]), Lines(log, rs[1])]
  }

  /** The lines of every consumer of a topic. */
  function Streams(topic: Topic): seq<seq<Msg>> {
    if topic == [] then [] else Streams(topic[..|topic| - 1]) + StreamsOf(topic[|topic| - 1])
  }

  ghost predicate OccursIn(streams: seq<seq<Msg>>, pk: Pk) {
    exists i :: 0 <= i < |streams| && Occurs(streams[i], pk)
  }

  lemma {:induction false} OccursInConcat(a: seq<seq<Msg>>, b: seq<seq<Msg>>, pk: Pk)
    ensures OccursIn(a + b, pk) <==> OccursIn(a, pk) || OccursIn(b, pk)
  {
    if i :| 0 <= i < |a| && Occurs(a[i], pk) {
      assert (a + b)[i] == a[i];
    }
    if j :| 0 <= j < |b| && Occurs(b[j], pk) {
      assert (a + b)[|a| + j] == b[j];
    }
  }

  lemma {:induction false} OccursInLines(log: Partition, r: Range, pk: Pk)
    ensures Occurs(Lines(log, r), pk) <==> exists o :: 0 <= o < |log| && Covers(r, o) && log[o].pk == Some(pk)
  {
    var lo := Clip(r.from, |log|);
    if Occurs(Lines(log, r), pk) {
      var k :| 0 <= k < |Lines(log, r)| && Lines(log, r)[k].pk == Some(pk);
      assert Covers(r, lo + k) && log[lo + k].pk == Some(pk);
    }
    if o :| 0 <= o < |log| && Covers(r, o) && log[o].pk == Some(pk) {
      assert Lines(log, r)[o - lo].pk == Some(pk);
    }
  }

  lemma {:induction false} StreamsOfCover(log: Partition, pk: Pk)
    ensures OccursIn(StreamsOf(log), pk) <==> Occurs(log, pk)
  {
    var rs, streams := RangesOf(|log|), StreamsOf(log);
    if log != [] {
      forall i | 0 <= i < |rs|
        ensures streams[i] == Lines(log, rs[i])
        ensures Occurs(streams[i], pk) <==> exists o :: 0 <= o < |log| && Covers(rs[i], o) && log[o].pk == Some(pk)
      {
        OccursInLines(log, rs[i], pk);
      }
      if Occurs(log, pk) {
        var o :| 0 <= o < |log| && log[o].pk == Some(pk);
        RangesTile(|log|, o);
        var i :| 0 <= i < |rs| && Covers(rs[i], o);
        assert Occurs(streams[i], pk);
      }
    }
  }

  // ---- The batches ----

  /** How many partitions are read at once; a setting of 0 asks for all of them. */
  function Concurrency(setting: int, partitions: nat): nat {
    var wish := if setting == 0 then partitions else setting;
    var atLeastOne := if wish > 1 then wish else 1;
    if atLeastOne < partitions then atLeastOne else partitions
  }

  /** Partitions that have messages; the others are not listed. */
  function ListedCount(topic: Topic): nat {
    if topic == [] then 0 else ListedCount(topic[..|topic| - 1]) + if topic[|topic| - 1] == [] then 0 else 1
  }

  /** The batch of the next partition that is listed, and how many are in that batch already. */
  function Slot(topic: Topic, step: nat): (nat, nat) {
    if topic == [] then (0, 0)
    else
      var (batch, taken) := Slot(topic[..|topic| - 1], step);
      if topic[|topic| - 1] == [] then (batch, taken)
      else if taken + 1 < step then (batch, taken + 1)
      else (batch + 1, 0)
  }

  function Repeat(b: nat, n: nat): (r: seq<nat>)
    ensures |r| == n && forall x :: x in r ==> x == b
  {
    seq(n, i => b)
  }

  /** The batch in which each consumer of the topic runs, when partitions are taken step at a time. */
  function BatchesOf(topic: Topic, step: nat): (r: seq<nat>)
    ensures |r| == |Streams(topic)|
  {
    if topic == [] then []
    else
      var init := topic[..|topic| - 1];
      BatchesOf(init, step) + Repeat(Slot(init, step).0, |StreamsOf(topic[|topic| - 1])|)
  }

  /** The consumers of a scan, in the order in which they are started, and the batches in which they run. */
  datatype Plan = Plan(streams: seq<seq<Msg>>, batch: seq<nat>)

  ghost predicate ValidPlan(plan: Plan) {
    |plan.batch| == |plan.streams| && forall i, j :: 0 <= i < j < |plan.batch| ==> plan.batch[i] <= plan.batch[j]
  }

  function PlanOf(topic: Topic, setting: int): Plan {
    Plan(Streams(topic), BatchesOf(topic, Concurrency(setting, ListedCount(topic))))
  }

  lemma {:induction false} BatchesSorted(topic: Topic, step: nat)
    ensures forall b :: b in BatchesOf(topic, step) ==> b <= Slot(topic, step).0
    ensures ValidPlan(Plan(Streams(topic), BatchesOf(topic, step)))
  {
    if topic != [] {
      var init := topic[..|topic| - 1];
      BatchesSorted(init, step);
      AppendSorted(BatchesOf(init, step), Slot(init, step).0, |StreamsOf(topic[|topic| - 1])|);
    }
  }

  lemma {:induction false} AppendSorted(earlier: seq<nat>, b: nat, n: nat)
    requires forall i, j :: 0 <= i < j < |earlier| ==> earlier[i] <= earlier[j]
    requires forall x :: x in earlier ==> x <= b
    ensures var all := earlier + Repeat(b, n);
            (forall i, j :: 0 <= i < j < |all| ==> all[i] <= all[j]) && forall x :: x in all ==> x <= b
  {
    var all := earlier + Repeat(b, n);
    forall i, j | 0 <= i < j < |all| ensures all[i] <= all[j] {
      assert i < |earlier| ==> earlier[i] in earlier;
    }
  }

  // ---- What the plan is ----

  /** A setting of 0 reads all partitions at once, a positive one that many if there are so many, any other one. */
  lemma {:induction false} ConcurrencyMeans(setting: int, partitions: nat)
    requires partitions > 0
    ensures setting == 0 ==> Concurrency(setting, partitions) == partitions
    ensures 0 < setting <= partitions ==> Concurrency(setting, partitions) == setting
    ensures setting > partitions ==> Concurrency(setting, partitions) == partitions
    ensures setting < 0 ==> Concurrency(setting, partitions) == 1
  {
  }

  /** Two million messages from the end are read by one consumer, and what is before them by another. */
  lemma {:induction false} StreamsOfMeans(log: Partition)
    ensures StreamsOf(log) ==
            if log == [] then []
            else if |log| <= 2_000_000 then [log]
            else [log[|log| - 2_000_000..], log[..|log| - 2_000_000]]
  {
    if log == [] {
    } else if |log| <= 2_000_000 {
      assert Lines(log, Range(0, |log|)) == log;
    } else {
      var n := |log| - 2_000_000;
      assert RangesOf(|log|) == [Range(n, 2_000_000), Range(0, n)];
      assert Lines(log, Range(n, 2_000_000)) == log[n..] && Lines(log, Range(0, n)) == log[..n];
    }
  }

  /** How many of the first p partitions have messages. */
  function ListedBefore(topic: Topic, p: nat): nat
    requires p <= |topic|
  {
    if p == 0 then 0 else ListedBefore(topic, p - 1) + if topic[p - 1] != [] then 1 else 0
  }

  lemma {:induction false} ListedIsCount(topic: Topic, p: nat)
    requires p <= |topic|
    ensures ListedBefore(topic, p) == ListedCount(topic[..p])
  {
    if p > 0 {
      ListedIsCount(topic, p - 1);
      assert topic[..p][..p - 1] == topic[..p - 1];
    }
  }

  /** Number n, counted from 0, falls into this batch when each takes step, ... */
  function BatchNumber(n: nat, step: nat): nat
    requires step > 0
  {
    if n < step then 0 else 1 + BatchNumber(n - step, step)
  }

  /** ... where so many are before it. */
  function InBatchBefore(n: nat, step: nat): (r: nat)
    requires step > 0
    ensures r < step
  {
    if n < step then n else InBatchBefore(n - step, step)
  }

  lemma {:induction false} NextNumber(n: nat, step: nat)
    requires step > 0
    ensures BatchNumber(n + 1, step) == BatchNumber(n, step) + if InBatchBefore(n, step) + 1 < step then 0 else 1
    ensures InBatchBefore(n + 1, step) ==
            if InBatchBefore(n, step) + 1 < step then InBatchBefore(n, step) + 1 else 0
  {
    if n >= step {
      NextNumber(n - step, step);
    }
  }

  lemma {:induction false} SlotIsNumber(topic: Topic, step: nat)
    requires step > 0
    ensures Slot(topic, step) == (BatchNumber(ListedCount(topic), step), InBatchBefore(ListedCount(topic), step))
  {
    if topic != [] {
      SlotIsNumber(topic[..|topic| - 1], step);
      NextNumber(ListedCount(topic[..|topic| - 1]), step);
    }
  }

  /** The consumers of partition p stand in the plan behind those of the partitions before it. */
  function FirstConsumer(topic: Topic, p: nat): nat
    requires p <= |topic|
  {
    |Streams(topic[..p])|
  }

  /** A further partition leaves the plan of the earlier ones as it is. */
  lemma {:induction false} PlanGrows(topic: Topic, step: nat, at: nat)
    requires topic != [] && at < |Streams(topic[..|topic| - 1])|
    ensures at < |Streams(topic)| && Streams(topic)[at] == Streams(topic[..|topic| - 1])[at]
    ensures BatchesOf(topic, step)[at] == BatchesOf(topic[..|topic| - 1], step)[at]
  {
  }

  lemma {:induction false} LastPlanned(topic: Topic, step: nat, k: nat)
    requires step > 0 && topic != [] && k < |StreamsOf(topic[|topic| - 1])|
    ensures var at := FirstConsumer(topic, |topic| - 1) + k;
            && at < |Streams(topic)| && Streams(topic)[at] == StreamsOf(topic[|topic| - 1])[k]
            && BatchesOf(topic, step)[at] == BatchNumber(ListedCount(topic[..|topic| - 1]), step)
  {
    SlotIsNumber(topic[..|topic| - 1], step);
  }

  /** Consumer k of partition p, where it stands and which batch it is in. */
  ghost predicate IsPlanned(topic: Topic, step: nat, p: nat, k: nat, at: nat)
    requires step > 0 && p < |topic|
  {
    && k < |StreamsOf(topic[p])| && at < |Streams(topic)|
    && Streams(topic)[at] == StreamsOf(topic[p])[k]
    && BatchesOf(topic, step)[at] == BatchNumber(ListedBefore(topic, p), step)
  }

  lemma {:induction false} StillPlanned(topic: Topic, step: nat, p: nat, k: nat, at: nat)
    requires step > 0 && p < |topic| - 1 && IsPlanned(topic[..|topic| - 1], step, p, k, at)
    ensures IsPlanned(topic, step, p, k, at)
  {
    var init := topic[..|topic| - 1];
    PlanGrows(topic, step, at);
    assert init[..p] == topic[..p];
    ListedIsCount(topic, p);
    ListedIsCount(init, p);
  }

  /**
    The plan of a topic: partition p gives its streams, all in one batch, and the partitions with messages take
    the batches in their order, as many to each as the concurrency allows.
   */
  lemma {:induction false} PlanMeans(topic: Topic, step: nat, p: nat, k: nat)
    requires step > 0 && p < |topic| && k < |StreamsOf(topic[p])|
    ensures IsPlanned(topic, step, p, k, FirstConsumer(topic, p) + k)
  {
    if p < |topic| - 1 {
      PlanMeans(topic[..|topic| - 1], step, p, k);
      SameFirst(topic, p);
      StillPlanned(topic, step, p, k, FirstConsumer(topic, p) + k);
    } else {
      LastIsPlanned(topic, step, k);
    }
  }

  lemma {:induction false} SameFirst(topic: Topic, p: nat)
    requires p < |topic|
    ensures FirstConsumer(topic[..|topic| - 1], p) == FirstConsumer(topic, p)
  {
    assert topic[..|topic| - 1][..p] == topic[..p];
  }

  lemma {:induction false} LastIsPlanned(topic: Topic, step: nat, k: nat)
    requires step > 0 && topic != [] && k < |StreamsOf(topic[|topic| - 1])|
    ensures IsPlanned(topic, step, |topic| - 1, k, FirstConsumer(topic, |topic| - 1) + k)
  {
    ListedIsCount(topic, |topic| - 1);
    LastPlanned(topic, step, k);
  }

  lemma {:induction false} PlanIsValid(topic: Topic, setting: int)
    ensures ValidPlan(PlanOf(topic, setting))
  {
    BatchesSorted(topic, Concurrency(setting, ListedCount(topic)));
  }

  lemma {:induction false} SlotInFirst(topic: Topic, step: nat)
    requires ListedCount(topic) <= step
    ensures Slot(topic, step) == if ListedCount(topic) < step || step == 0 then (0, ListedCount(topic)) else (1, 0)
  {
    if topic != [] {
      SlotInFirst(topic[..|topic| - 1], step);
    }
  }

  /** Taken all at once, the partitions are one batch. */
  lemma {:induction false} OneBatch(topic: Topic, step: nat)
    requires ListedCount(topic) <= step
    ensures forall b :: b in BatchesOf(topic, step) ==> b == 0
  {
    if topic != [] {
      var init := topic[..|topic| - 1];
      OneBatch(init, step);
      SlotInFirst(init, step);
      assert topic[|topic| - 1] == [] ==> StreamsOf(topic[|topic| - 1]) == [];
    }
  }

  /** The consumers together read what the full scan reads. */
  lemma {:induction false} StreamsCover(topic: Topic, pk: Pk)
    ensures OccursIn(Streams(topic), pk) <==> pk in View(topic)
  {
    if topic != [] {
      var n := |topic| - 1;
      StreamsCover(topic[..n], pk);
      StreamsOfCover(topic[n], pk);
      OccursInConcat(Streams(topic[..n]), StreamsOf(topic[n]), pk);
      LastWritesCompact(topic[n], pk);
    }
  }

  // ---- The shared state ----

  /** read[i] counts the lines that consumer i has processed. */
  datatype Search = Search(wanted: set<Pk>, found: PkMap, seen: set<Pk>, read: seq<nat>, aborted: bool)

  /** What one line does to the shared state, when the search is still on. */
  function Take(s: Search, m: Msg): Search {
    if m.pk.None? || m.pk.value !in s.wanted || m.pk.value in s.seen then s
    else s.(wanted := s.wanted - {m.pk.value}, found := s.found[m.pk.value := m.op], seen := s.seen + {m.pk.value})
  }

  class SharedSearch {
    var wanted: set<Pk>
    var found: PkMap
    var seen: set<Pk>
    var aborted: bool

    constructor (wanted: set<Pk>)
      ensures this.wanted == wanted && found == map[] && seen == {} && !aborted
    {
      this.wanted, found, seen, aborted := wanted, map[], {}, false;
    }

    function AsSearch(read: seq<nat>): Search
      reads this
    {
      Search(wanted, found, seen, read, aborted)
    }

    /** The body of a consumer's data handler; killed tells it to stop reading. */
    method OnLine(m: Msg) returns (killed: bool)
      modifies this
      ensures forall read :: AsSearch(read) ==
                if old(aborted) || old(wanted) == {} then old(AsSearch(read)) else Take(old(AsSearch(read)), m)
      ensures killed <==> aborted || wanted == {}
    {
      if aborted || wanted == {} {
        return true;
      }
      if m.pk.None? || m.pk.value !in wanted || m.pk.value in seen {
        return false;
      }
      found := found[m.pk.value := m.op];
      seen := seen + {m.pk.value};
      wanted := wanted - {m.pk.value};
      return wanted == {};
    }
  }

  // ---- Runs ----

  /** Some consumer delivers its next line, or the job is aborted. */
  datatype Event = Line(consumer: nat) | Abort

  function Start(wanted: set<Pk>, consumers: nat): Search {
    Search(wanted, map[], {}, seq(consumers, i => 0), false)
  }

  /** A consumer runs once those of all earlier batches have come to their ends. */
  predicate Open(plan: Plan, s: Search, i: nat)
    requires |plan.batch| == |plan.streams| == |s.read| && i < |plan.streams|
  {
    forall j :: 0 <= j < |plan.streams| && plan.batch[j] < plan.batch[i] ==> s.read[j] == |plan.streams[j]|
  }

  function Deliver(plan: Plan, s: Search, e: Event): (s': Search)
    requires |plan.batch| == |plan.streams| == |s.read|
    ensures |s'.read| == |s.read|
  {
    match e
    case Abort => s.(aborted := true)
    case Line(i) =>
      if i < |plan.streams| && s.read[i] < |plan.streams[i]| && !s.aborted && s.wanted != {} && Open(plan, s, i) then
        Take(s, plan.streams[i][s.read[i]]).(read := s.read[i := s.read[i] + 1])
      else s
  }

  /** A run is any sequence of events, so any interleaving of the consumers. */
  function Exec(plan: Plan, s: Search, events: seq<Event>): (s': Search)
    requires |plan.batch| == |plan.streams| == |s.read|
    ensures |s'.read| == |s.read|
  {
    if events == [] then s
    else Deliver(plan, Exec(plan, s, events[..|events| - 1]), events[|events| - 1])
  }

  /** What a scan for the wanted keys comes to. */
  function Scan(plan: Plan, wanted: set<Pk>, events: seq<Event>): Search
    requires |plan.batch| == |plan.streams|
  {
    Exec(plan, Start(wanted, |plan.streams|), events)
  }

  /** Nothing is left to do: all keys are found, or all ranges are read. */
  ghost predicate Finished(plan: Plan, s: Search) {
    && !s.aborted && |s.read| == |plan.streams|
    && (s.wanted == {} || forall i :: 0 <= i < |plan.streams| ==> s.read[i] == |plan.streams[i]|)
  }

  /** Message k is the first of pk among msgs. */
  predicate IsFirst(msgs: seq<Msg>, pk: Pk, k: int) {
    0 <= k < |msgs| && msgs[k].pk == Some(pk) && forall j :: 0 <= j < k ==> msgs[j].pk != Some(pk)
  }

  /** The consumer meets pk first with operation op, within its first n lines. */
  ghost predicate Meets(stream: seq<Msg>, n: nat, pk: Pk, op: Op) {
    exists k :: IsFirst(stream, pk, k) && k < n && stream[k].op == op
  }

  /** No consumer of an earlier batch meets pk at all. */
  predicate Counts(plan: Plan, pk: Pk, i: nat)
    requires |plan.batch| == |plan.streams| && i < |plan.streams|
  {
    forall j :: 0 <= j < |plan.streams| && plan.batch[j] < plan.batch[i] ==> !Occurs(plan.streams[j], pk)
  }

  ghost predicate MetByOne(plan: Plan, s: Search, pk: Pk, op: Op)
    requires |plan.batch| == |plan.streams| == |s.read|
  {
    exists i :: 0 <= i < |plan.streams| && Counts(plan, pk, i) && Meets(plan.streams[i], s.read[i], pk, op)
  }

  /** Each of the first n lines that carries a wanted key has left its key among the found ones. */
  ghost predicate Settled(stream: seq<Msg>, n: nat, wanted0: set<Pk>, found: PkMap) {
    forall k :: 0 <= k < n && k < |stream| && stream[k].pk.Some? && stream[k].pk.value in wanted0 ==>
      stream[k].pk.value in found
  }

  /** What every reachable state satisfies. */
  ghost predicate Inv(plan: Plan, wanted0: set<Pk>, s: Search) {
    && ValidPlan(plan) && |s.read| == |plan.streams|
    && s.found.Keys + s.wanted == wanted0 && s.found.Keys !! s.wanted && s.seen == s.found.Keys
    && (forall i :: 0 <= i < |plan.streams| ==> s.read[i] <= |plan.streams[i]|)
    && (forall pk :: pk in s.found ==> MetByOne(plan, s, pk, s.found[pk]))
    && (forall i :: 0 <= i < |plan.streams| ==> Settled(plan.streams[i], s.read[i], wanted0, s.found))
  }

  lemma {:induction false} MeetsMore(plan: Plan, s: Search, s': Search, pk: Pk, op: Op)
    requires |plan.batch| == |plan.streams| == |s.read| == |s'.read|
    requires forall i :: 0 <= i < |plan.streams| ==> s.read[i] <= s'.read[i]
    requires MetByOne(plan, s, pk, op)
    ensures MetByOne(plan, s', pk, op)
  {
    var i :| 0 <= i < |plan.streams| && Counts(plan, pk, i) && Meets(plan.streams[i], s.read[i], pk, op);
    var k :| IsFirst(plan.streams[i], pk, k) && k < s.read[i] && plan.streams[i][k].op == op;
    assert Meets(plan.streams[i], s'.read[i], pk, op);
  }

  /** A wanted key that is not among the found ones was on no line read before. */
  lemma {:induction false} NewlyMet(stream: seq<Msg>, n: nat, wanted0: set<Pk>, found: PkMap, pk: Pk)
    requires Settled(stream, n, wanted0, found) && pk in wanted0 && pk !in found
    requires n < |stream| && stream[n].pk == Some(pk)
    ensures IsFirst(stream, pk, n) && Meets(stream, n + 1, pk, stream[n].op)
  {
    assert IsFirst(stream, pk, n);
  }

  /** Nor was it anywhere in the earlier batches. */
  lemma {:induction false} NotInEarlierBatches(plan: Plan, wanted0: set<Pk>, s: Search, i: nat, pk: Pk)
    requires Inv(plan, wanted0, s) && i < |plan.streams| && Open(plan, s, i) && pk in wanted0 && pk !in s.found
    ensures Counts(plan, pk, i)
  {
    forall j | 0 <= j < |plan.streams| && plan.batch[j] < plan.batch[i] ensures !Occurs(plan.streams[j], pk) {
      assert Settled(plan.streams[j], s.read[j], wanted0, s.found);
    }
  }

  lemma {:induction false} FoundByLine(plan: Plan, wanted0: set<Pk>, s: Search, i: nat, s': Search, pk: Pk)
    requires Inv(plan, wanted0, s) && i < |plan.streams| && s.read[i] < |plan.streams[i]| && Open(plan, s, i)
    requires s' == Take(s, plan.streams[i][s.read[i]]).(read := s.read[i := s.read[i] + 1]) && pk in s'.found
    ensures MetByOne(plan, s', pk, s'.found[pk])
  {
    if pk in s.found {
      MeetsMore(plan, s, s', pk, s.found[pk]);
    } else {
      NewlyMet(plan.streams[i], s.read[i], wanted0, s.found, pk);
      NotInEarlierBatches(plan, wanted0, s, i, pk);
      assert Meets(plan.streams[i], s'.read[i], pk, plan.streams[i][s.read[i]].op);
    }
  }

  /** One processed line: a key that it takes off the wanted set was not on any line its consumer read before. */
  lemma {:induction false} LineKeepsInv(plan: Plan, wanted0: set<Pk>, s: Search, i: nat)
    requires Inv(plan, wanted0, s)
    requires i < |plan.streams| && s.read[i] < |plan.streams[i]| && Open(plan, s, i)
    ensures Inv(plan, wanted0, Take(s, plan.streams[i][s.read[i]]).(read := s.read[i := s.read[i] + 1]))
  {
    var m := plan.streams[i][s.read[i]];
    var s' := Take(s, m).(read := s.read[i := s.read[i] + 1]);
    TakeConserves(s, m, wanted0);
    forall pk | pk in s'.found ensures MetByOne(plan, s', pk, s'.found[pk]) {
      FoundByLine(plan, wanted0, s, i, s', pk);
    }
    forall j | 0 <= j < |plan.streams| ensures Settled(plan.streams[j], s'.read[j], wanted0, s'.found) {
      assert Settled(plan.streams[j], s.read[j], wanted0, s.found);
      SettledMore(plan.streams[j], s.read[j], wanted0, s.found, s'.found);
      if j == i {
        SettledLine(plan.streams[i], s.read[i], wanted0, s'.found);
      }
    }
  }

  /** A line moves a key from the wanted to the found ones, and afterwards its key, if wanted at first, is found. */
  lemma {:induction false} TakeConserves(s: Search, m: Msg, wanted0: set<Pk>)
    requires s.found.Keys + s.wanted == wanted0 && s.found.Keys !! s.wanted && s.seen == s.found.Keys
    ensures var s' := Take(s, m);
            && s'.found.Keys + s'.wanted == wanted0 && s'.found.Keys !! s'.wanted && s'.seen == s'.found.Keys
            && s.found.Keys <= s'.found.Keys
            && (m.pk.Some? && m.pk.value in wanted0 ==> m.pk.value in s'.found)
  {
  }

  lemma {:induction false} SettledMore(stream: seq<Msg>, n: nat, wanted0: set<Pk>, found: PkMap, more: PkMap)
    requires Settled(stream, n, wanted0, found) && found.Keys <= more.Keys
    ensures Settled(stream, n, wanted0, more)
  {
  }

  lemma {:induction false} SettledLine(stream: seq<Msg>, n: nat, wanted0: set<Pk>, found: PkMap)
    requires Settled(stream, n, wanted0, found) && n < |stream|
    requires stream[n].pk.Some? && stream[n].pk.value in wanted0 ==> stream[n].pk.value in found
    ensures Settled(stream, n + 1, wanted0, found)
  {
  }

  lemma {:induction false} DeliverKeepsInv(plan: Plan, wanted0: set<Pk>, s: Search, e: Event)
    requires Inv(plan, wanted0, s)
    ensures Inv(plan, wanted0, Deliver(plan, s, e))
  {
    match e
    case Abort => AbortKeepsInv(plan, wanted0, s);
    case Line(i) =>
      if i < |plan.streams| && s.read[i] < |plan.streams[i]| && !s.aborted && s.wanted != {} && Open(plan, s, i) {
        LineKeepsInv(plan, wanted0, s, i);
        DeliverIsTake(plan, s, i);
      } else {
        DeliverIsNothing(plan, s, i);
      }
  }

  lemma {:induction false} DeliverIsTake(plan: Plan, s: Search, i: nat)
    requires |plan.batch| == |plan.streams| == |s.read| && i < |plan.streams| && s.read[i] < |plan.streams[i]|
    requires !s.aborted && s.wanted != {} && Open(plan, s, i)
    ensures Deliver(plan, s, Line(i)) == Take(s, plan.streams[i][s.read[i]]).(read := s.read[i := s.read[i] + 1])
  {
  }

  lemma {:induction false} DeliverIsNothing(plan: Plan, s: Search, i: nat)
    requires |plan.batch| == |plan.streams| == |s.read|
    requires i < |plan.streams| && s.read[i] < |plan.streams[i]| && !s.aborted && s.wanted != {} ==> !Open(plan, s, i)
    ensures Deliver(plan, s, Line(i)) == s
  {
  }

  lemma {:induction false} AbortKeepsInv(plan: Plan, wanted0: set<Pk>, s: Search)
    requires Inv(plan, wanted0, s)
    ensures Inv(plan, wanted0, s.(aborted := true))
  {
    var s' := s.(aborted := true);
    forall pk | pk in s'.found ensures MetByOne(plan, s', pk, s'.found[pk]) {
      MeetsMore(plan, s, s', pk, s.found[pk]);
    }
    forall j | 0 <= j < |plan.streams| ensures Settled(plan.streams[j], s'.read[j], wanted0, s'.found) {
      assert Settled(plan.streams[j], s.read[j], wanted0, s.found);
    }
  }

  lemma {:induction false} ExecKeepsInv(plan: Plan, wanted: set<Pk>, events: seq<Event>)
    requires ValidPlan(plan)
    ensures Inv(plan, wanted, Scan(plan, wanted, events))
  {
    if events != [] {
      var before := events[..|events| - 1];
      ExecKeepsInv(plan, wanted, before);
      DeliverKeepsInv(plan, wanted, Scan(plan, wanted, before), events[|events| - 1]);
    }
  }

  /** Some consumer's first message of pk carries op, and no consumer of an earlier batch meets pk. */
  ghost predicate Reportable(plan: Plan, pk: Pk, op: Op)
    requires |plan.batch| == |plan.streams|
  {
    exists i :: 0 <= i < |plan.streams| && Counts(plan, pk, i) && Meets(plan.streams[i], |plan.streams[i]|, pk, op)
  }

  lemma {:induction false} FoundIsReportable(plan: Plan, wanted: set<Pk>, s: Search, pk: Pk)
    requires Inv(plan, wanted, s) && pk in s.found
    ensures Reportable(plan, pk, s.found[pk]) && OccursIn(plan.streams, pk)
  {
    var i :| 0 <= i < |plan.streams| && Counts(plan, pk, i) && Meets(plan.streams[i], s.read[i], pk, s.found[pk]);
    var k :| IsFirst(plan.streams[i], pk, k) && k < s.read[i] && plan.streams[i][k].op == s.found[pk];
    assert Meets(plan.streams[i], |plan.streams[i]|, pk, s.found[pk]);
    assert Occurs(plan.streams[i], pk);
  }

  /**
    Under every interleaving: nothing is lost or found twice, each found key has the operation of the first
    message of some range, and a finished scan has found exactly the wanted keys that occur.
   */
  lemma {:induction false} ScanSoundAndComplete(plan: Plan, wanted: set<Pk>, events: seq<Event>)
    requires ValidPlan(plan)
    ensures var s := Scan(plan, wanted, events);
            && s.found.Keys + s.wanted == wanted && s.found.Keys !! s.wanted
            && (forall pk :: pk in s.found ==> Reportable(plan, pk, s.found[pk]))
            && (Finished(plan, s) ==> forall pk :: pk in s.found <==> pk in wanted && OccursIn(plan.streams, pk))
  {
    ExecKeepsInv(plan, wanted, events);
    var s := Scan(plan, wanted, events);
    forall pk | pk in s.found ensures Reportable(plan, pk, s.found[pk]) && OccursIn(plan.streams, pk) {
      FoundIsReportable(plan, wanted, s, pk);
    }
    if Finished(plan, s) {
      forall pk | pk in wanted && OccursIn(plan.streams, pk) ensures pk in s.found {
        if s.wanted != {} {
          var i :| 0 <= i < |plan.streams| && Occurs(plan.streams[i], pk);
          var k :| 0 <= k < |plan.streams[i]| && plan.streams[i][k].pk == Some(pk);
        }
      }
    }
  }

  // ---- Building a schedule ----

  lemma {:induction false} ExecConcat(plan: Plan, s: Search, a: seq<Event>, b: seq<Event>)
    requires |plan.batch| == |plan.streams| == |s.read|
    ensures Exec(plan, s, a + b) == Exec(plan, Exec(plan, s, a), b)
  {
    if b == [] {
      assert a + b == a;
    } else {
      assert (a + b)[..|a + b| - 1] == a + b[..|b| - 1];
      ExecConcat(plan, s, a, b[..|b| - 1]);
    }
  }

  lemma {:induction false} ExecOne(plan: Plan, s: Search, e: Event)
    requires |plan.batch| == |plan.streams| == |s.read|
    ensures Exec(plan, s, [e]) == Deliver(plan, s, e)
  {
    assert [e][..0] == [];
  }

  /** No line ever changes what was found, and reading never goes back. */
  ghost predicate Extends(s: Search, s': Search) {
    && |s.read| == |s'.read|
    && (forall pk :: pk in s.found ==> pk in s'.found && s'.found[pk] == s.found[pk])
    && (forall i :: 0 <= i < |s.read| ==> s.read[i] <= s'.read[i])
    && (s.wanted == {} ==> s'.wanted == {})
  }

  lemma {:induction false} DeliverExtends(plan: Plan, wanted: set<Pk>, s: Search, e: Event)
    requires Inv(plan, wanted, s)
    ensures Extends(s, Deliver(plan, s, e))
  {
    if e.Line? && e.consumer < |plan.streams| && s.read[e.consumer] < |plan.streams[e.consumer]| {
      TakeExtends(s, plan.streams[e.consumer][s.read[e.consumer]], e.consumer);
    }
  }

  lemma {:induction false} TakeExtends(s: Search, m: Msg, i: nat)
    requires s.found.Keys !! s.wanted && i < |s.read|
    ensures Extends(s, Take(s, m).(read := s.read[i := s.read[i] + 1]))
  {
  }

  lemma {:induction false} FoundStays(plan: Plan, wanted: set<Pk>, s: Search, events: seq<Event>)
    requires Inv(plan, wanted, s)
    ensures Inv(plan, wanted, Exec(plan, s, events))
    ensures Extends(s, Exec(plan, s, events))
  {
    if events != [] {
      var before := events[..|events| - 1];
      var mid := Exec(plan, s, before);
      FoundStays(plan, wanted, s, before);
      DeliverKeepsInv(plan, wanted, mid, events[|events| - 1]);
      DeliverExtends(plan, wanted, mid, events[|events| - 1]);
    }
  }

  /** A state of the search that is still under way, or done with. */
  ghost predicate Going(plan: Plan, wanted: set<Pk>, s: Search) {
    Inv(plan, wanted, s) && !s.aborted
  }

  ghost predicate OthersAsBefore(s: Search, s': Search, i: nat) {
    |s.read| == |s'.read| && forall j :: 0 <= j < |s.read| && j != i ==> s'.read[j] == s.read[j]
  }

  /** Letting consumer i run alone reads its range up to line n, unless the search ends before. */
  lemma {:induction false} RunOne(plan: Plan, wanted: set<Pk>, s: Search, i: nat, n: nat) returns (events: seq<Event>)
    requires Going(plan, wanted, s) && i < |plan.streams| && s.read[i] <= n <= |plan.streams[i]| && Open(plan, s, i)
    ensures var s' := Exec(plan, s, events);
            && Going(plan, wanted, s') && OthersAsBefore(s, s', i)
            && s'.read[i] <= n && (s'.wanted == {} || s'.read[i] == n)
    decreases n - s.read[i]
  {
    events := [];
    if s.read[i] < n && s.wanted != {} {
      var s1 := Deliver(plan, s, Line(i));
      DeliverKeepsInv(plan, wanted, s, Line(i));
      var rest := RunOne(plan, wanted, s1, i, n);
      ExecOne(plan, s, Line(i));
      ExecConcat(plan, s, [Line(i)], rest);
      events := [Line(i)] + rest;
    }
  }

  ghost predicate ReadThrough(plan: Plan, s: Search, n: nat)
    requires |s.read| == |plan.streams|
  {
    forall i :: 0 <= i < n && i < |plan.streams| ==> s.read[i] == |plan.streams[i]|
  }

  ghost predicate UntouchedFrom(s: Search, s': Search, n: nat) {
    |s.read| == |s'.read| && forall j :: n <= j < |s.read| ==> s'.read[j] == s.read[j]
  }

  /** The first n consumers can be run to their ends, in order, unless the search ends before. */
  lemma {:induction false} RunUpTo(plan: Plan, wanted: set<Pk>, s: Search, done: nat, n: nat)
    returns (events: seq<Event>)
    requires Going(plan, wanted, s) && done <= n <= |plan.streams| && ReadThrough(plan, s, done)
    ensures var s' := Exec(plan, s, events);
            Going(plan, wanted, s') && UntouchedFrom(s, s', n) && (s'.wanted == {} || ReadThrough(plan, s', n))
    decreases n - done
  {
    events := [];
    if done < n && s.wanted != {} {
      var one := RunOne(plan, wanted, s, done, |plan.streams[done]|);
      var s1 := Exec(plan, s, one);
      if s1.wanted == {} {
        events := one;
      } else {
        var rest := RunUpTo(plan, wanted, s1, done + 1, n);
        ExecConcat(plan, s, one, rest);
        events := one + rest;
      }
    }
  }

  lemma {:induction false} NotYetMet(plan: Plan, wanted: set<Pk>, s: Search, pk: Pk, i: nat, k: nat)
    requires Inv(plan, wanted, s) && i < |plan.streams| && Counts(plan, pk, i) && IsFirst(plan.streams[i], pk, k)
    requires s.read[i] <= k
    requires forall j :: 0 <= j < |plan.streams| && j != i && plan.batch[j] >= plan.batch[i] ==> s.read[j] == 0
    ensures pk !in s.found
  {
    MetOnlyWhere(plan, s, pk, i, k);
  }

  lemma {:induction false} MetOnlyWhere(plan: Plan, s: Search, pk: Pk, i: nat, k: nat)
    requires |plan.batch| == |plan.streams| == |s.read|
    requires i < |plan.streams| && Counts(plan, pk, i) && IsFirst(plan.streams[i], pk, k) && s.read[i] <= k
    requires forall j :: 0 <= j < |plan.streams| && j != i && plan.batch[j] >= plan.batch[i] ==> s.read[j] == 0
    ensures forall op :: !MetByOne(plan, s, pk, op)
  {
    forall op, j | 0 <= j < |plan.streams| ensures !Meets(plan.streams[j], s.read[j], pk, op) {
      if j == i {
        StillAhead(plan.streams[i], s.read[i], pk, op, k);
      } else if plan.batch[j] < plan.batch[i] {
        NeverMet(plan.streams[j], s.read[j], pk, op);
      }
    }
  }

  lemma {:induction false} StillAhead(stream: seq<Msg>, n: nat, pk: Pk, op: Op, k: nat)
    requires IsFirst(stream, pk, k) && n <= k
    ensures !Meets(stream, n, pk, op)
  {
  }

  lemma {:induction false} NeverMet(stream: seq<Msg>, n: nat, pk: Pk, op: Op)
    requires !Occurs(stream, pk)
    ensures !Meets(stream, n, pk, op)
  {
  }

  /** The line at which it is met. */
  lemma {:induction false} MeetingLine(stream: seq<Msg>, n: nat, pk: Pk, op: Op) returns (k: nat)
    requires Meets(stream, n, pk, op)
    ensures IsFirst(stream, pk, k) && k < n && stream[k].op == op
  {
    k :| IsFirst(stream, pk, k) && k < n && stream[k].op == op;
  }

  /** Where the batch of consumer i begins. */
  lemma {:induction false} BatchBegins(plan: Plan, i: nat) returns (m: nat)
    requires ValidPlan(plan) && i < |plan.streams|
    ensures m <= i
    ensures forall j :: 0 <= j < |plan.streams| ==> (plan.batch[j] < plan.batch[i] <==> j < m)
  {
    m := i;
    while m > 0 && plan.batch[m - 1] == plan.batch[i]
      invariant m <= i && plan.batch[m] == plan.batch[i]
    {
      m := m - 1;
    }
  }

  /** The earlier batches run to their ends, and then consumer i alone until its first message of pk. */
  lemma {:induction false} ComeToFirst(plan: Plan, wanted: set<Pk>, pk: Pk, i: nat, k: nat) returns (events: seq<Event>)
    requires ValidPlan(plan) && pk in wanted && i < |plan.streams|
    requires Counts(plan, pk, i) && IsFirst(plan.streams[i], pk, k)
    ensures var s := Scan(plan, wanted, events);
            Going(plan, wanted, s) && pk !in s.found && s.read[i] == k && Open(plan, s, i)
  {
    var start := Start(wanted, |plan.streams|);
    ExecKeepsInv(plan, wanted, []);
    var m := BatchBegins(plan, i);
    var earlier := RunUpTo(plan, wanted, start, 0, m);
    var s := Exec(plan, start, earlier);
    NotYetMet(plan, wanted, s, pk, i, k);
    var own := RunOne(plan, wanted, s, i, k);
    ExecConcat(plan, start, earlier, own);
    events := earlier + own;
    NotYetMet(plan, wanted, Scan(plan, wanted, events), pk, i, k);
  }

  lemma {:induction false} TakeFirst(plan: Plan, wanted: set<Pk>, s: Search, pk: Pk, i: nat)
    requires Going(plan, wanted, s) && pk in wanted && pk !in s.found && i < |plan.streams| && Open(plan, s, i)
    requires s.read[i] < |plan.streams[i]| && plan.streams[i][s.read[i]].pk == Some(pk)
    ensures var s' := Deliver(plan, s, Line(i));
            Going(plan, wanted, s') && pk in s'.found && s'.found[pk] == plan.streams[i][s.read[i]].op
  {
    DeliverKeepsInv(plan, wanted, s, Line(i));
  }

  /** What can be reported is what some finished run reports. */
  lemma {:induction false} FirstIsReachable(plan: Plan, wanted: set<Pk>, pk: Pk, op: Op) returns (events: seq<Event>)
    requires ValidPlan(plan) && pk in wanted && Reportable(plan, pk, op)
    ensures var s := Scan(plan, wanted, events);
            Finished(plan, s) && pk in s.found && s.found[pk] == op
  {
    var i :| 0 <= i < |plan.streams| && Counts(plan, pk, i) && Meets(plan.streams[i], |plan.streams[i]|, pk, op);
    var k :| IsFirst(plan.streams[i], pk, k) && plan.streams[i][k].op == op;
    var first := ComeToFirst(plan, wanted, pk, i, k);
    var s := Scan(plan, wanted, first);
    TakeFirst(plan, wanted, s, pk, i);
    ExecOne(plan, s, Line(i));
    ExecConcat(plan, Start(wanted, |plan.streams|), first, [Line(i)]);
    events := RunOn(plan, wanted, first + [Line(i)]);
  }

  /** Any unaborted run can be continued to the end. */
  lemma {:induction false} RunOn(plan: Plan, wanted: set<Pk>, events: seq<Event>) returns (all: seq<Event>)
    requires ValidPlan(plan) && !Scan(plan, wanted, events).aborted
    ensures Finished(plan, Scan(plan, wanted, all))
    ensures Extends(Scan(plan, wanted, events), Scan(plan, wanted, all))
  {
    ExecKeepsInv(plan, wanted, events);
    var s := Scan(plan, wanted, events);
    var rest := RunUpTo(plan, wanted, s, 0, |plan.streams|);
    ExecConcat(plan, Start(wanted, |plan.streams|), events, rest);
    FoundStays(plan, wanted, s, rest);
    all := events + rest;
  }

  // ---- The targeted reader against the full scan ----

  /** The topic as the full scan reads it, and as the targeted reader does. */
  function Full(log: Log): Topic { ReadTopic(AtPair, log) }

  function Targeted(log: Log): Topic { ReadTopic(AtTab, log) }

  /** Record i of partition q carries pk. */
  predicate HoldsKey(log: Log, q: int, i: int, pk: Pk) {
    0 <= q < |log| && 0 <= i < |log[q]| && log[q][i].pk == Some(pk)
  }

  lemma {:induction false} InView(topic: Topic, pk: Pk)
    ensures pk in View(topic) <==> exists q, i :: At(topic, q, i, pk)
  {
    if topic != [] {
      var n := |topic| - 1;
      InView(topic[..n], pk);
      LastWritesCompact(topic[n], pk);
      if q, i :| At(topic, q, i, pk) {
        assert q < n ==> At(topic[..n], q, i, pk);
      }
      if q, i :| At(topic[..n], q, i, pk) {
        assert At(topic, q, i, pk);
      }
      if Occurs(topic[n], pk) {
        var i :| 0 <= i < |topic[n]| && topic[n][i].pk == Some(pk);
        assert At(topic, n, i, pk);
      }
    }
  }

  /** The consumers meet every key of the log; the full scan shows those that some message carries uncut. */
  lemma {:induction false} ReadersDiffer(log: Log, pk: Pk)
    ensures OccursIn(Streams(Targeted(log)), pk) <==> exists q, i :: HoldsKey(log, q, i, pk)
    ensures pk in View(Full(log)) <==> exists q, i :: HoldsKey(log, q, i, pk) && !log[q][i].cut
  {
    StreamsCover(Targeted(log), pk);
    InView(Targeted(log), pk);
    InView(Full(log), pk);
    assert forall q, i :: At(Targeted(log), q, i, pk) <==> HoldsKey(log, q, i, pk);
    assert forall q, i :: At(Full(log), q, i, pk) <==> HoldsKey(log, q, i, pk) && !log[q][i].cut;
  }

  function Restrict(m: PkMap, keys: set<Pk>): PkMap {
    map pk | pk in m && pk in keys :: m[pk]
  }

  /** Whatever can be reported for a wanted key is its operation in the full scan's view. */
  ghost predicate FirstIsLast(log: Log, wanted: set<Pk>, setting: int) {
    forall pk, op :: pk in wanted && Reportable(PlanOf(Targeted(log), setting), pk, op) ==>
      pk in View(Full(log)) && View(Full(log))[pk] == op
  }

  ghost predicate AgreesOn(log: Log, wanted: set<Pk>, setting: int, events: seq<Event>) {
    var plan := PlanOf(Targeted(log), setting);
    var s := Scan(plan, wanted, events);
    Finished(plan, s) ==> s.found == Restrict(View(Full(log)), wanted)
  }

  lemma {:induction false} AgreesWhenFirstIsLast(log: Log, wanted: set<Pk>, setting: int, events: seq<Event>)
    requires FirstIsLast(log, wanted, setting)
    ensures AgreesOn(log, wanted, setting, events)
  {
    var plan := PlanOf(Targeted(log), setting);
    PlanIsValid(Targeted(log), setting);
    ScanSoundAndComplete(plan, wanted, events);
    var s := Scan(plan, wanted, events);
    if Finished(plan, s) {
      forall pk ensures pk in s.found <==> pk in View(Full(log)) && pk in wanted {
        ReadersDiffer(log, pk);
        assert pk in View(Full(log)) ==> OccursIn(plan.streams, pk);
      }
    }
  }

  /**
    At any concurrency, the targeted reader gives the full scan's answer for the wanted keys under every schedule
    exactly when, in the first batch that meets a wanted key, the first message of every range that has it already
    carries the operation that the full scan ends with.
   */
  lemma {:induction false} TargetedAgreesWithFullScan(log: Log, wanted: set<Pk>, setting: int)
    ensures FirstIsLast(log, wanted, setting) <==> forall events :: AgreesOn(log, wanted, setting, events)
  {
    if FirstIsLast(log, wanted, setting) {
      forall events ensures AgreesOn(log, wanted, setting, events) {
        AgreesWhenFirstIsLast(log, wanted, setting, events);
      }
    } else {
      var plan, view := PlanOf(Targeted(log), setting), View(Full(log));
      PlanIsValid(Targeted(log), setting);
      var pk, op :| pk in wanted && Reportable(plan, pk, op) && !(pk in view && view[pk] == op);
      var events := FirstIsReachable(plan, wanted, pk, op);
      assert !AgreesOn(log, wanted, setting, events);
    }
  }

  /** No message of pk is cut by the full scan. */
  ghost predicate Uncut(log: Log, pk: Pk) {
    forall q, i :: HoldsKey(log, q, i, pk) ==> !log[q][i].cut
  }

  ghost predicate OccursOnce(log: Log, pk: Pk) {
    forall q, i, q', i' :: HoldsKey(log, q, i, pk) && HoldsKey(log, q', i', pk) ==> q == q' && i == i'
  }

  lemma {:induction false} ReportableOnce(log: Log, setting: int, pk: Pk, op: Op)
    requires OccursOnce(log, pk) && Uncut(log, pk) && Reportable(PlanOf(Targeted(log), setting), pk, op)
    ensures pk in View(Full(log)) && View(Full(log))[pk] == op
  {
    var plan := PlanOf(Targeted(log), setting);
    var i :| 0 <= i < |plan.streams| && Counts(plan, pk, i) && Meets(plan.streams[i], |plan.streams[i]|, pk, op);
    var k := MeetingLine(plan.streams[i], |plan.streams[i]|, pk, op);
    var q, o := StreamOrigin(Targeted(log), i, k);
    assert HoldsKey(log, q, o, pk);
    assert forall q', o' :: At(Full(log), q', o', pk) ==> HoldsKey(log, q', o', pk);
    OnlyOccurrence(Full(log), pk, q, o);
  }

  /** A key that the full scan does not show and the targeted reader finds, on every finished schedule. */
  lemma {:induction false} CutDisagrees(log: Log, wanted: set<Pk>, setting: int, pk: Pk) returns (events: seq<Event>)
    requires pk in wanted && (exists q, i :: HoldsKey(log, q, i, pk)) && pk !in View(Full(log))
    ensures !AgreesOn(log, wanted, setting, events)
  {
    var plan := PlanOf(Targeted(log), setting);
    PlanIsValid(Targeted(log), setting);
    events := RunOn(plan, wanted, []);
    ScanSoundAndComplete(plan, wanted, events);
    ReadersDiffer(log, pk);
  }

  /** When each wanted key occurs at most once, the two agree exactly when the full scan cuts none of their messages. */
  lemma {:induction false} SingleOccurrenceAgrees(log: Log, wanted: set<Pk>, setting: int)
    requires forall pk :: pk in wanted ==> OccursOnce(log, pk)
    ensures (forall events :: AgreesOn(log, wanted, setting, events)) <==> forall pk :: pk in wanted ==> Uncut(log, pk)
  {
    if pk :| pk in wanted && !Uncut(log, pk) {
      var q, i :| HoldsKey(log, q, i, pk) && log[q][i].cut;
      ReadersDiffer(log, pk);
      var events := CutDisagrees(log, wanted, setting, pk);
    } else {
      forall pk, op | pk in wanted && Reportable(PlanOf(Targeted(log), setting), pk, op)
        ensures pk in View(Full(log)) && View(Full(log))[pk] == op
      {
        ReportableOnce(log, setting, pk, op);
      }
      TargetedAgreesWithFullScan(log, wanted, setting);
    }
  }

  /** With a setting of 0 every consumer counts. */
  lemma {:induction false} AllAtOnce(topic: Topic, pk: Pk, op: Op)
    ensures Reportable(PlanOf(topic, 0), pk, op) <==> FirstSomewhere(Streams(topic), pk, op)
  {
    var plan := PlanOf(topic, 0);
    OneBatch(topic, Concurrency(0, ListedCount(topic)));
    assert forall i :: 0 <= i < |plan.batch| ==> plan.batch[i] in plan.batch;
    if FirstSomewhere(Streams(topic), pk, op) {
      var i :| 0 <= i < |plan.streams| && Meets(plan.streams[i], |plan.streams[i]|, pk, op);
      assert Counts(plan, pk, i);
    }
  }

  ghost predicate FirstSomewhere(streams: seq<seq<Msg>>, pk: Pk, op: Op) {
    exists i :: 0 <= i < |streams| && Meets(streams[i], |streams[i]|, pk, op)
  }

  lemma {:induction false} OnlyOccurrence(topic: Topic, pk: Pk, q: int, o: int)
    requires At(topic, q, o, pk)
    requires forall q', o' :: At(topic, q', o', pk) ==> q' == q && o' == o
    ensures pk in View(topic) && View(topic)[pk] == topic[q][o].op
  {
    assert Occurs(topic[q], pk);
    if OccursAfter(topic, q, pk) {
      var j :| q < j < |topic| && Occurs(topic[j], pk);
      var i :| 0 <= i < |topic[j]| && topic[j][i].pk == Some(pk);
      assert At(topic, j, i, pk);
    }
    assert IsLastPartition(topic, pk, q);
    ViewAt(topic, pk);
    forall j | o < j < |topic[q]| ensures topic[q][j].pk != Some(pk) {
      assert At(topic, q, j, pk) ==> j == o;
    }
    assert IsLast(topic[q], pk, o);
    LastWritesCompact(topic[q], pk);
  }

  /** Where in the topic a line of a consumer comes from. */
  lemma {:induction false} StreamOrigin(topic: Topic, i: nat, k: nat) returns (q: nat, o: nat)
    requires i < |Streams(topic)| && k < |Streams(topic)[i]|
    ensures q < |topic| && o < |topic[q]| && topic[q][o] == Streams(topic)[i][k]
  {
    var n := |topic| - 1;
    var earlier := Streams(topic[..n]);
    if i < |earlier| {
      q, o := StreamOrigin(topic[..n], i, k);
    } else {
      q := n;
      var r := RangesOf(|topic[n]|)[i - |earlier|];
      assert StreamsOf(topic[n])[i - |earlier|] == Lines(topic[n], r);
      o := Clip(r.from, |topic[n]|) + k;
    }
  }

  predicate At(topic: Topic, q: int, i: int, pk: Pk) {
    0 <= q < |topic| && 0 <= i < |topic[q]| && topic[q][i].pk == Some(pk)
  }

  // ---- Compare on top of the targeted reader, whose reading topic is here ----

  /** Compare asks for the source's keys only, so whatever the topic holds it never reports a ghost. */
  lemma {:induction false} TargetedCompareHasNoGhosts(topic: Topic, source: set<Pk>, setting: int, events: seq<Event>,
          missing: seq<Pk>, ghosts: seq<Pk>, matched: int)
    requires IsDiff(source, Scan(PlanOf(topic, setting), source, events).found, missing, ghosts, matched)
    ensures ghosts == []
  {
    assert ghosts != [] ==> ghosts[0] in ghosts;
    PlanIsValid(topic, setting);
    ScanSoundAndComplete(PlanOf(topic, setting), source, events);
  }

  /** Whatever can be reported for a source key tells whether the key is live. */
  ghost predicate FirstTellsLive(topic: Topic, source: set<Pk>, setting: int) {
    forall pk, op :: pk in source && Reportable(PlanOf(topic, setting), pk, op) ==> (op != D <==> pk in Live(topic))
  }

  /** A finished scan makes compare report exactly the source keys that are not live. */
  ghost predicate ReportsMissing(topic: Topic, source: set<Pk>, setting: int, events: seq<Event>) {
    var plan := PlanOf(topic, setting);
    var s := Scan(plan, source, events);
    Finished(plan, s) ==> source - LiveKeys(s.found) == source - Live(topic)
  }

  /** At any concurrency, compare reports exactly the missing rows under every schedule, if and only if firsts tell. */
  lemma {:induction false} TargetedCompareExact(topic: Topic, source: set<Pk>, setting: int)
    ensures FirstTellsLive(topic, source, setting) <==> forall events :: ReportsMissing(topic, source, setting, events)
  {
    if FirstTellsLive(topic, source, setting) {
      forall events ensures ReportsMissing(topic, source, setting, events) {
        ReportsWhenFirstTells(topic, source, setting, events);
      }
    } else {
      var plan := PlanOf(topic, setting);
      PlanIsValid(topic, setting);
      var pk, op :| pk in source && Reportable(plan, pk, op) && !(op != D <==> pk in Live(topic));
      var events := FirstIsReachable(plan, source, pk, op);
      var s := Scan(plan, source, events);
      assert pk in LiveKeys(s.found) <==> op != D;
      assert pk in source - LiveKeys(s.found) <==> pk !in source - Live(topic);
      assert !ReportsMissing(topic, source, setting, events);
    }
  }

  lemma {:induction false} ReportsWhenFirstTells(topic: Topic, source: set<Pk>, setting: int, events: seq<Event>)
    requires FirstTellsLive(topic, source, setting)
    ensures ReportsMissing(topic, source, setting, events)
  {
    var plan := PlanOf(topic, setting);
    PlanIsValid(topic, setting);
    var s := Scan(plan, source, events);
    ScanSoundAndComplete(plan, source, events);
    if Finished(plan, s) {
      forall pk | pk in source ensures pk in LiveKeys(s.found) <==> pk in Live(topic) {
        StreamsCover(topic, pk);
        if pk in s.found {
          assert Reportable(plan, pk, s.found[pk]);
        }
      }
    }
  }

  // ---- What the concurrency changes ----

  /** Key 1 is in the first partition, and in the second it was deleted before it came again. */
  function TwoPartitions(): Topic {
    [[Msg(Some(["1"]), R)], [Msg(Some(["1"]), D), Msg(Some(["1"]), R)]]
  }

  lemma {:induction false} TwoPartitionsRead()
    ensures Streams(TwoPartitions()) == TwoPartitions() && ListedCount(TwoPartitions()) == 2
    ensures BatchesOf(TwoPartitions(), 1) == [0, 1] && BatchesOf(TwoPartitions(), 2) == [0, 0]
    ensures View(TwoPartitions()) == map[["1"] := R]
  {
    var topic := TwoPartitions();
    assert topic[..1] == [topic[0]] && [topic[0]][..0] == [];
    ShortStreams(topic[0]);
    ShortStreams(topic[1]);
    assert Streams([topic[0]]) == [topic[0]] && ListedCount([topic[0]]) == 1;
    assert BatchesOf([topic[0]], 1) == [0] && BatchesOf([topic[0]], 2) == [0];
    TwoPartitionsView();
  }

  lemma {:induction false} TwoPartitionsView()
    ensures View(TwoPartitions()) == map[["1"] := R]
  {
    var topic := TwoPartitions();
    assert topic[..1] == [topic[0]] && [topic[0]][..0] == [] && topic[0][..0] == [];
    assert LastWrites(topic[0]) == map[["1"] := R];
    assert topic[1][..1] == [topic[1][0]] && [topic[1][0]][..0] == [];
    assert LastWrites(topic[1]) == map[["1"] := R];
  }

  lemma {:induction false} ShortStreams(log: Partition)
    requires 0 < |log| <= TAIL_WINDOW
    ensures StreamsOf(log) == [log]
  {
    assert RangesOf(|log|) == [Range(0, |log|)] && Lines(log, Range(0, |log|)) == log;
  }

  /** A consumer that meets pk before any other batch starts is the one that is reported. */
  lemma {:induction false} EarliestDecides(plan: Plan, pk: Pk, i: nat, k: nat, op: Op)
    requires |plan.batch| == |plan.streams| && i < |plan.streams| && IsFirst(plan.streams[i], pk, k)
    requires forall j :: 0 <= j < |plan.streams| && j != i ==> plan.batch[j] > plan.batch[i]
    ensures Reportable(plan, pk, op) <==> op == plan.streams[i][k].op
  {
    assert Occurs(plan.streams[i], pk);
    assert forall j :: 0 <= j < |plan.streams| && j != i ==> !Counts(plan, pk, j);
    assert Counts(plan, pk, i);
    assert Meets(plan.streams[i], |plan.streams[i]|, pk, plan.streams[i][k].op);
  }

  lemma {:induction false} OneAtATimeTells()
    ensures FirstTellsLive(TwoPartitions(), {["1"]}, 1)
  {
    var topic, pk := TwoPartitions(), ["1"];
    TwoPartitionsRead();
    assert IsFirst(topic[0], pk, 0);
    forall op ensures Reportable(PlanOf(topic, 1), pk, op) <==> op == R {
      EarliestDecides(PlanOf(topic, 1), pk, 0, 0, op);
    }
  }

  lemma {:induction false} AllAtOnceMisleads()
    ensures !FirstTellsLive(TwoPartitions(), {["1"]}, 0)
  {
    var topic, pk := TwoPartitions(), ["1"];
    TwoPartitionsRead();
    AllAtOnce(topic, pk, D);
    assert IsFirst(topic[1], pk, 0) && Meets(topic[1], 2, pk, D);
    assert FirstSomewhere(topic, pk, D) && pk in Live(topic);
  }

  /** Compare's default of one partition at a time always reports that key as it is; all at once need not. */
  lemma {:induction false} ConcurrencyMatters()
    ensures FirstTellsLive(TwoPartitions(), {["1"]}, 1) && !FirstTellsLive(TwoPartitions(), {["1"]}, 0)
  {
    OneAtATimeTells();
    AllAtOnceMisleads();
  }

  // ---- The pre-check of a fix ----

  /** The keys that the pre-check reports as already alive, so that the fix leaves them out. */
  function AlreadyAlive(s: Search): set<Pk> { LiveKeys(s.found) }

  function MissingKeys(q: Request): set<Pk> { set pk | pk in q.missing }

  /** The request with what its pre-check, which reads all partitions at once, lets it skip. */
  function PreChecked(q: Request, log: Log, events: seq<Event>): Request {
    Again(q, AlreadyAlive(Scan(PlanOf(Targeted(log), 0), MissingKeys(q), events)))
  }

  ghost predicate PreCheckEnds(q: Request, log: Log, events: seq<Event>) {
    Finished(PlanOf(Targeted(log), 0), Scan(PlanOf(Targeted(log), 0), MissingKeys(q), events))
  }

  /** In every range, the first message of every missing key is a delete. */
  ghost predicate FirstsAreDeletes(q: Request, log: Log) {
    forall pk, op :: pk in q.missing && FirstSomewhere(Streams(Targeted(log)), pk, op) ==> op == D
  }

  lemma {:induction false} SkipMatters(q: Request, skip: set<Pk>)
    requires ValidRequest(q)
    ensures ValidRequest(Again(q, skip)) && (Readable(Again(q, skip)) <==> Readable(q))
    ensures Settles(Again(q, skip)) <==> Settles(Again(q, {})) && forall pk :: pk in q.missing ==> pk !in skip
  {
    if Settles(Again(q, skip)) {
      forall pk | pk in q.missing ensures pk !in skip && Lands(Again(q, {}), pk) {
        assert Lands(Again(q, skip), pk);
      }
      forall pk | pk in q.ghosts ensures Retracts(Again(q, {}), pk) {
        assert Retracts(Again(q, skip), pk);
      }
    }
    if Settles(Again(q, {})) && forall pk :: pk in q.missing ==> pk !in skip {
      forall pk | pk in q.missing ensures Lands(Again(q, skip), pk) {
        assert Lands(Again(q, {}), pk);
      }
      forall pk | pk in q.ghosts ensures Retracts(Again(q, skip), pk) {
        assert Retracts(Again(q, {}), pk);
      }
    }
  }

  lemma {:induction false} NothingSkipped(q: Request, log: Log, events: seq<Event>)
    requires FirstsAreDeletes(q, log)
    ensures forall pk :: pk in q.missing ==> pk !in PreChecked(q, log, events).skip
  {
    var plan := PlanOf(Targeted(log), 0);
    PlanIsValid(Targeted(log), 0);
    ScanSoundAndComplete(plan, MissingKeys(q), events);
    var s := Scan(plan, MissingKeys(q), events);
    forall pk | pk in s.found ensures s.found[pk] == D {
      AllAtOnce(Targeted(log), pk, s.found[pk]);
    }
  }

  /** A missing key whose first message in some range is not a delete is skipped by some finished pre-check. */
  lemma {:induction false} SomethingSkipped(q: Request, log: Log, pk: Pk, op: Op) returns (events: seq<Event>)
    requires pk in q.missing && FirstSomewhere(Streams(Targeted(log)), pk, op) && op != D
    ensures PreCheckEnds(q, log, events) && pk in PreChecked(q, log, events).skip
  {
    PlanIsValid(Targeted(log), 0);
    AllAtOnce(Targeted(log), pk, op);
    events := FirstIsReachable(PlanOf(Targeted(log), 0), MissingKeys(q), pk, op);
  }

  /** The fix converges whatever schedule its pre-check takes. */
  ghost predicate AlwaysConverges(q: Request, log: Log)
    requires ValidRequest(q)
  {
    forall events :: PreCheckEnds(q, log, events) ==> Converges(PreChecked(q, log, events))
  }

  /**
    A fix whose pre-check used the targeted reader converges under every schedule exactly when it would without the
    pre-check and, in every range, the first message of every missing key is a delete: a row that was created and
    then deleted may be skipped for good.
   */
  lemma {:induction false} PreCheckBlocksDeletedRows(q: Request, log: Log)
    requires ValidRequest(q) && ValidRuntime(q.env.rt) && q.topic == ReadTopic(q.env.splitter, log)
    ensures AlwaysConverges(q, log) <==> Converges(Again(q, {})) && FirstsAreDeletes(q, log)
  {
    SkipMatters(q, {});
    FixConverges(Again(q, {}));
    if !FirstsAreDeletes(q, log) {
      var pk, op :| pk in q.missing && FirstSomewhere(Streams(Targeted(log)), pk, op) && op != D;
      var events := SomethingSkipped(q, log, pk, op);
      SkipMatters(q, PreChecked(q, log, events).skip);
      FixConverges(PreChecked(q, log, events));
    } else {
      forall events ensures Converges(PreChecked(q, log, events)) <==> Converges(Again(q, {})) {
        NothingSkipped(q, log, events);
        SkipMatters(q, PreChecked(q, log, events).skip);
        FixConverges(PreChecked(q, log, events));
      }
      PlanIsValid(Targeted(log), 0);
      var some := RunOn(PlanOf(Targeted(log), 0), MissingKeys(q), []);
      assert PreCheckEnds(q, log, some);
    }
  }

  lemma {:induction false} ShortReading(records: seq<Record>, splitter: Splitter)
    ensures ReadTopic(splitter, [records]) == [ReadPartition(splitter, records)]
  {
  }

  /** The first entry is kept, not the latest: a key created and then deleted is reported alive, at any concurrency. */
  lemma {:induction false} KeepsFirstNotLatest(pk: Pk, setting: int)
    ensures var log := [[Record(Some(pk), C, false), Record(Some(pk), D, false)]];
            !FirstIsLast(log, {pk}, setting) && pk !in Live(Full(log))
    ensures !FirstTellsLive([[Msg(Some(pk), C), Msg(Some(pk), D)]], {pk}, setting)
  {
    var records := [Record(Some(pk), C, false), Record(Some(pk), D, false)];
    var msgs := [Msg(Some(pk), C), Msg(Some(pk), D)];
    assert ReadPartition(AtTab, records) == msgs && ReadPartition(AtPair, records) == msgs;
    ShortReading(records, AtTab);
    ShortReading(records, AtPair);
    assert Targeted([records]) == [msgs] && Full([records]) == [msgs];
    CreatedThenDeleted(pk, setting);
    assert Reportable(PlanOf(Targeted([records]), setting), pk, C);
  }

  lemma {:induction false} CreatedThenDeleted(pk: Pk, setting: int)
    ensures var topic := [[Msg(Some(pk), C), Msg(Some(pk), D)]];
            Reportable(PlanOf(topic, setting), pk, C) && pk in View(topic) && View(topic)[pk] == D
  {
    var msgs := [Msg(Some(pk), C), Msg(Some(pk), D)];
    ShortLog(msgs);
    assert IsLast(msgs, pk, 1);
    LastWritesCompact(msgs, pk);
    assert IsFirst(msgs, pk, 0) && Meets(msgs, 2, pk, C);
    assert Counts(PlanOf([msgs], setting), pk, 0);
  }

  /** One message whose key the full scan cuts: the targeted reader finds it, the full scan does not. */
  lemma {:induction false} CutKeyIsSeenByOne(pk: Pk, op: Op, setting: int) returns (events: seq<Event>)
    ensures var log := [[Record(Some(pk), op, true)]];
            !AgreesOn(log, {pk}, setting, events) && pk !in View(Full(log))
  {
    var log := [[Record(Some(pk), op, true)]];
    assert HoldsKey(log, 0, 0, pk);
    ReadersDiffer(log, pk);
    events := CutDisagrees(log, {pk}, setting, pk);
  }

  /** A topic of one short partition: one consumer, and the view of that partition. */
  lemma {:induction false} ShortLog(log: Partition)
    requires 0 < |log| <= TAIL_WINDOW
    ensures Streams([log]) == [log] && View([log]) == LastWrites(log)
  {
    assert [log][..0] == [];
    ShortStreams(log);
  }
}
