/**
  The full-scan reader of a Kafka topic: every partition is drained into a map from primary key to the
  operation of its last message, and the maps are merged in partition order.  A partition is the sequence
  of its messages; a message's offset is its index.
 */
module TopicScan {
  import opened Prelude

  type Pk = seq<string>

  /** Debezium's create, delete, update and snapshot read; a tombstone reads as a delete. */
  datatype Op = C | D | U | R

  /** What the reader makes of one message: its key, if it has one, and its operation. */
  datatype Msg = Msg(pk: Option<Pk>, op: Op)

  type Partition = seq<Msg>
  type Topic = seq<Partition>
  type PkMap = map<Pk, Op>

  // ---- Two readings of one log ----

  /** Where a reader takes a line's key to end: the full scan at a backslash and t, the targeted reader at a TAB. */
  datatype Splitter = AtPair | AtTab

  /** A message in the log, and whether the text of its key holds the pair, so that the full scan cuts it there. */
  datatype Record = Record(pk: Option<Pk>, op: Op, cut: bool)

  type Log = seq<seq<Record>>

  function ReadRecord(splitter: Splitter, r: Record): Msg {
    Msg(if splitter == AtPair && r.cut then None else r.pk, r.op)
  }

  function ReadPartition(splitter: Splitter, records: seq<Record>): (r: Partition)
    ensures |r| == |records|
  {
    seq(|records|, i requires 0 <= i < |records| => ReadRecord(splitter, records[i]))
  }

  /** A topic as one of the readers sees it. */
  function ReadTopic(splitter: Splitter, log: Log): (r: Topic)
    ensures |r| == |log|
  {
    seq(|log|, i requires 0 <= i < |log| => ReadPartition(splitter, log[i]))
  }

  // ---- One partition ----

  function LastWrites(log: seq<Msg>): PkMap {
    if log == [] then map[]
    else
      var earlier, m := LastWrites(log[..|log| - 1]), log[|log| - 1];
      if m.pk.Some? then earlier[m.pk.value := m.op] else earlier
  }

  predicate Occurs(log: seq<Msg>, pk: Pk) {
    exists i :: 0 <= i < |log| && log[i].pk == Some(pk)
  }

  /** Offset i holds the last message of pk. */
  predicate IsLast(log: seq<Msg>, pk: Pk, i: int) {
    0 <= i < |log| && log[i].pk == Some(pk) && forall j :: i < j < |log| ==> log[j].pk != Some(pk)
  }

  /** The fold is log compaction: it keeps, for each key, the message with the highest offset. */
  lemma {:induction false} LastWritesCompact(log: seq<Msg>, pk: Pk)
    ensures pk in LastWrites(log) <==> Occurs(log, pk)
    ensures forall i :: IsLast(log, pk, i) ==> LastWrites(log)[pk] == log[i].op
    ensures pk in LastWrites(log) ==> exists i :: IsLast(log, pk, i)
  {
    if log != [] {
      var n := |log| - 1;
      var init := log[..n];
      LastWritesCompact(init, pk);
      if log[n].pk == Some(pk) {
        assert IsLast(log, pk, n);
      } else {
        assert Occurs(log, pk) ==> Occurs(init, pk);
        forall i | IsLast(log, pk, i) ensures IsLast(init, pk, i) {}
        if pk in LastWrites(init) {
          var i :| IsLast(init, pk, i);
          assert IsLast(log, pk, i);
        }
      }
    }
  }

  /** Reading [a,b) and then [b,c) and merging gives what reading [a,c) gives. */
  lemma {:induction false} LastWritesConcat(left: seq<Msg>, right: seq<Msg>)
    ensures LastWrites(left + right) == LastWrites(left) + LastWrites(right)
  {
    if right == [] {
      assert left + right == left;
    } else {
      var n := |right| - 1;
      assert (left + right)[..|left + right| - 1] == left + right[..n];
      LastWritesConcat(left, right[..n]);
    }
  }

  lemma {:induction false} SplitScan(log: seq<Msg>, a: nat, b: nat, c: nat)
    requires a <= b <= c <= |log|
    ensures LastWrites(log[a..b]) + LastWrites(log[b..c]) == LastWrites(log[a..c])
  {
    assert log[a..b] + log[b..c] == log[a..c];
    LastWritesConcat(log[a..b], log[b..c]);
  }

  // ---- Windows ----

  /** One line of the offsets listing, with the optional bounds that narrow what is read. */
  datatype Window = Window(partition: nat, endOffset: int, tailClamp: Option<int>, from: Option<int>, to: Option<int>)

  function Or(o: Option<int>, otherwise: int): int {
    if o.Some? then o.value else otherwise
  }

  predicate Selected(w: Window) {
    w.endOffset > 0 && Or(w.to, w.endOffset) > Or(w.from, 0)
  }

  function StartOf(w: Window): nat {
    var start := if w.tailClamp.Some? then w.tailClamp.value else Or(w.from, 0);
    if start > 0 then start else 0
  }

  function StopOf(w: Window): int { Or(w.to, w.endOffset) }

  function Clip(i: int, n: nat): nat {
    if i < 0 then 0 else if i > n then n else i
  }

  /** The messages that a consumer started for this window delivers. */
  function Slice(log: Partition, w: Window): seq<Msg> {
    var lo, hi := Clip(StartOf(w), |log|), Clip(StopOf(w), |log|);
    if lo < hi then log[lo..hi] else []
  }

  method ScanPartition(log: Partition, w: Window) returns (localMap: PkMap)
    ensures localMap == LastWrites(Slice(log, w))
  {
    localMap := map[];
    var fromOffset := StartOf(w);
    var msgCount := if w.to.Some? then (if w.to.value > fromOffset then w.to.value - fromOffset else 0)
                    else w.endOffset - fromOffset;
    if msgCount <= 0 {
      return;
    }
    ghost var slice := Slice(log, w);
    var read := 0;
    while read < msgCount && fromOffset + read < |log|
      invariant 0 <= read <= msgCount && read <= |slice|
      invariant forall k :: 0 <= k < |slice| ==> slice[k] == log[fromOffset + k]
      invariant localMap == LastWrites(slice[..read])
    {
      var m := log[fromOffset + read];
      assert slice[..read + 1][..read] == slice[..read];
      if m.pk.Some? {
        localMap := localMap[m.pk.value := m.op];
      }
      read := read + 1;
    }
    assert slice[..read] == slice;
  }

  /** Is offset o of the partition read for this window? */
  predicate Reads(log: Partition, w: Window, o: int) {
    && 0 <= o < |log|
    && (match w.tailClamp
        case Some(t) => t <= o
        case None => match w.from
          case Some(f) => f <= o
          case None => true)
    && (match w.to
        case Some(t) => o < t
        case None => o < w.endOffset)
  }

  /** The slice of a window is the messages at the offsets from its start up to its stop. */
  lemma {:induction false} SliceMeans(log: Partition, w: Window, o: int)
    ensures var lo := Clip(StartOf(w), |log|);
            Reads(log, w, o) <==> lo <= o < lo + |Slice(log, w)|
    ensures forall k :: 0 <= k < |Slice(log, w)| ==> Slice(log, w)[k] == log[Clip(StartOf(w), |log|) + k]
  {
  }

  lemma {:induction false} OccursInSlice(log: Partition, w: Window, pk: Pk)
    ensures Occurs(Slice(log, w), pk) <==> exists o :: Reads(log, w, o) && log[o].pk == Some(pk)
  {
    var lo := Clip(StartOf(w), |log|);
    if k :| 0 <= k < |Slice(log, w)| && Slice(log, w)[k].pk == Some(pk) {
      SliceMeans(log, w, lo + k);
      assert log[lo + k].pk == Some(pk);
    }
    if o :| Reads(log, w, o) && log[o].pk == Some(pk) {
      SliceMeans(log, w, o);
      assert Slice(log, w)[o - lo].pk == Some(pk);
    }
  }

  // ---- The topic ----

  function Merge(maps: seq<PkMap>): PkMap {
    if maps == [] then map[] else Merge(maps[..|maps| - 1]) + maps[|maps| - 1]
  }

  predicate InRange(topic: Topic, windows: seq<Window>) {
    forall w :: w in windows ==> w.partition < |topic|
  }

  function Scanned(topic: Topic, windows: seq<Window>): (r: seq<PkMap>)
    requires InRange(topic, windows)
    ensures |r| == |windows|
  {
    seq(|windows|, i requires 0 <= i < |windows| => LastWrites(Slice(topic[windows[i].partition], windows[i])))
  }

  lemma {:induction false} MergeStep(maps: seq<PkMap>, k: nat)
    requires k < |maps|
    ensures Merge(maps[..k + 1]) == Merge(maps[..k]) + maps[k]
  {
    assert maps[..k + 1][..k] == maps[..k];
  }

  method ScanBatch(topic: Topic, batch: seq<Window>) returns (results: seq<PkMap>)
    requires InRange(topic, batch)
    ensures results == Scanned(topic, batch)
  {
    results := [];
    for k := 0 to |batch|
      invariant |results| == k
      invariant forall j :: 0 <= j < k ==> results[j] == LastWrites(Slice(topic[batch[j].partition], batch[j]))
    {
      var localMap := ScanPartition(topic[batch[k].partition], batch[k]);
      results := results + [localMap];
    }
  }

  lemma {:induction false} MergeConcat(left: seq<PkMap>, right: seq<PkMap>)
    ensures Merge(left + right) == Merge(left) + Merge(right)
  {
    if right == [] {
      assert left + right == left;
    } else {
      var n := |right| - 1;
      assert (left + right)[..|left + right| - 1] == left + right[..n];
      MergeConcat(left, right[..n]);
      MergeAssoc(Merge(left), Merge(right[..n]), right[n]);
    }
  }

  lemma {:induction false} MergeAssoc(a: PkMap, b: PkMap, c: PkMap)
    ensures (a + b) + c == a + (b + c)
  {
  }

  method MergeInto(pkMap: PkMap, results: seq<PkMap>) returns (r: PkMap)
    ensures r == pkMap + Merge(results)
  {
    r := pkMap;
    for k := 0 to |results|
      invariant r == pkMap + Merge(results[..k])
    {
      MergeStep(results, k);
      MergeAssoc(pkMap, Merge(results[..k]), results[k]);
      r := r + results[k];
    }
    assert results[..|results|] == results;
  }

  lemma {:induction false} ScannedConcat(topic: Topic, left: seq<Window>, right: seq<Window>)
    requires InRange(topic, left + right)
    ensures InRange(topic, left) && InRange(topic, right)
    ensures Scanned(topic, left + right) == Scanned(topic, left) + Scanned(topic, right)
  {
    forall w | w in left || w in right ensures w.partition < |topic| {
      assert w in left + right;
    }
  }

  /** Batches of concurrent consumers; the outcome does not mention how many run at once. */
  method ScanTopic(topic: Topic, windows: seq<Window>, kafkaConcurrency: int) returns (pkMap: PkMap)
    requires InRange(topic, windows)
    ensures pkMap == Merge(Scanned(topic, Keep(windows, Selected)))
  {
    pkMap := map[];
    var partitions := Keep(windows, Selected);
    if |partitions| == 0 {
      return;
    }
    var wish := if kafkaConcurrency == 0 then |partitions| else kafkaConcurrency;
    var atLeastOne := if wish > 1 then wish else 1;
    var concurrency := if atLeastOne < |partitions| then atLeastOne else |partitions|;
    var i := 0;
    while i < |partitions|
      invariant 0 <= i <= |partitions|
      invariant InRange(topic, partitions[..i])
      invariant pkMap == Merge(Scanned(topic, partitions[..i]))
    {
      var stop := if i + concurrency < |partitions| then i + concurrency else |partitions|;
      var batch := partitions[i..stop];
      assert partitions[..stop] == partitions[..i] + batch;
      ScannedConcat(topic, partitions[..i], batch);
      MergeConcat(Scanned(topic, partitions[..i]), Scanned(topic, batch));
      var results := ScanBatch(topic, batch);
      pkMap := MergeInto(pkMap, results);
      i := stop;
    }
    assert partitions[..i] == partitions;
  }

  lemma {:induction false} InMerge(maps: seq<PkMap>, pk: Pk)
    ensures pk in Merge(maps) <==> exists i :: 0 <= i < |maps| && pk in maps[i]
  {
    if maps != [] {
      InMerge(maps[..|maps| - 1], pk);
      assert forall i :: 0 <= i < |maps| - 1 ==> maps[..|maps| - 1][i] == maps[i];
    }
  }

  /** A partition is listed when it has messages and its bounds by time, if given, leave some. */
  predicate IsListed(w: Window) {
    && w.endOffset > 0
    && match (w.from, w.to)
       case (None, None) => true
       case (None, Some(t)) => t > 0
       case (Some(f), None) => w.endOffset > f
       case (Some(f), Some(t)) => t > f
  }

  /** A windowed scan has exactly the keys of the messages between the bounds of the windows that are listed. */
  lemma {:induction false} ScannedKeys(topic: Topic, windows: seq<Window>, pk: Pk)
    requires InRange(topic, windows)
    ensures pk in Merge(Scanned(topic, Keep(windows, Selected))) <==>
            exists w, o :: w in windows && IsListed(w) && Reads(topic[w.partition], w, o) &&
                           topic[w.partition][o].pk == Some(pk)
  {
    var kept := Keep(windows, Selected);
    InMerge(Scanned(topic, kept), pk);
    forall w | w in windows ensures Selected(w) <==> IsListed(w) {
    }
    if i :| 0 <= i < |kept| && pk in Scanned(topic, kept)[i] {
      var w := kept[i];
      assert w in windows && IsListed(w);
      LastWritesCompact(Slice(topic[w.partition], w), pk);
      OccursInSlice(topic[w.partition], w, pk);
    }
    if w, o :| w in windows && IsListed(w) && Reads(topic[w.partition], w, o) &&
               topic[w.partition][o].pk == Some(pk) {
      var i :| 0 <= i < |kept| && kept[i] == w;
      LastWritesCompact(Slice(topic[w.partition], w), pk);
      OccursInSlice(topic[w.partition], w, pk);
      assert pk in Scanned(topic, kept)[i];
    }
  }

  // ---- The view of a whole topic ----

  function WholeOf(topic: Topic): (r: seq<Window>)
    ensures |r| == |topic|
  {
    seq(|topic|, i requires 0 <= i < |topic| => Window(i, |topic[i]|, None, None, None))
  }

  /** Last write wins, later partitions over earlier ones. */
  function View(topic: Topic): PkMap {
    if topic == [] then map[] else View(topic[..|topic| - 1]) + LastWrites(topic[|topic| - 1])
  }

  lemma {:induction false} MergeOne(m: PkMap)
    ensures Merge([m]) == m
  {
    assert [m][..0] == [];
  }

  lemma {:induction false} KeepStep<T>(s: seq<T>, k: nat, p: T -> bool)
    requires k < |s|
    ensures Keep(s[..k + 1], p) == Keep(s[..k], p) + if p(s[k]) then [s[k]] else []
  {
    assert s[..k + 1][..k] == s[..k];
  }

  lemma {:induction false} WholeWindow(topic: Topic, k: nat)
    requires k < |topic|
    ensures Selected(WholeOf(topic)[k]) <==> topic[k] != []
    ensures Scanned(topic, [WholeOf(topic)[k]]) == [LastWrites(topic[k])]
  {
    assert Slice(topic[k], WholeOf(topic)[k]) == topic[k];
  }

  /** An empty partition is not listed, and adds nothing to the view. */
  lemma {:induction false} ViewStep(topic: Topic, k: nat, before: seq<Window>, upTo: seq<Window>)
    requires k < |topic| && InRange(topic, before)
    requires Merge(Scanned(topic, before)) == View(topic[..k])
    requires upTo == before + if topic[k] != [] then [WholeOf(topic)[k]] else []
    ensures InRange(topic, upTo) && Merge(Scanned(topic, upTo)) == View(topic[..k + 1])
  {
    assert topic[..k + 1][..k] == topic[..k];
    if topic[k] == [] {
      assert upTo == before;
    } else {
      var w := WholeOf(topic)[k];
      WholeWindow(topic, k);
      ScannedConcat(topic, before, [w]);
      MergeConcat(Scanned(topic, before), [LastWrites(topic[k])]);
      MergeOne(LastWrites(topic[k]));
    }
  }

  /** The windows of the first k partitions, without the empty ones. */
  function Listed(topic: Topic, k: nat): (r: seq<Window>)
    requires k <= |topic|
    ensures InRange(topic, r)
  {
    if k == 0 then []
    else Listed(topic, k - 1) + if topic[k - 1] != [] then [WholeOf(topic)[k - 1]] else []
  }

  lemma {:induction false} ListedAreSelected(topic: Topic, k: nat)
    requires k <= |topic|
    ensures Listed(topic, k) == Keep(WholeOf(topic)[..k], Selected)
  {
    if k > 0 {
      ListedAreSelected(topic, k - 1);
      KeepStep(WholeOf(topic), k - 1, Selected);
      WholeWindow(topic, k - 1);
    }
  }

  lemma {:induction false} MergeIsView(topic: Topic, k: nat)
    requires k <= |topic|
    ensures Merge(Scanned(topic, Listed(topic, k))) == View(topic[..k])
  {
    if k > 0 {
      MergeIsView(topic, k - 1);
      ViewStep(topic, k - 1, Listed(topic, k - 1), Listed(topic, k));
    }
  }

  /** Without bounds, a scan at any concurrency computes the view. */
  lemma {:induction false} FullScanIsView(topic: Topic)
    ensures InRange(topic, Keep(WholeOf(topic), Selected))
    ensures Merge(Scanned(topic, Keep(WholeOf(topic), Selected))) == View(topic)
  {
    assert WholeOf(topic)[..|topic|] == WholeOf(topic) && topic[..|topic|] == topic;
    ListedAreSelected(topic, |topic|);
    MergeIsView(topic, |topic|);
  }

  /** Partition q holds pk and no later partition does. */
  predicate IsLastPartition(topic: Topic, pk: Pk, q: int) {
    0 <= q < |topic| && Occurs(topic[q], pk) && !OccursAfter(topic, q, pk)
  }

  predicate OccursAfter(topic: Topic, q: int, pk: Pk) {
    exists j :: q < j < |topic| && 0 <= j && Occurs(topic[j], pk)
  }

  /** What the view holds for a key: its last message in the last partition that has it. */
  lemma {:induction false} ViewAt(topic: Topic, pk: Pk)
    ensures pk in View(topic) <==> exists q :: IsLastPartition(topic, pk, q)
    ensures forall q :: IsLastPartition(topic, pk, q) ==>
              pk in LastWrites(topic[q]) && View(topic)[pk] == LastWrites(topic[q])[pk]
  {
    if topic != [] {
      var n := |topic| - 1;
      ViewAt(topic[..n], pk);
      LastWritesCompact(topic[n], pk);
      if Occurs(topic[n], pk) {
        assert IsLastPartition(topic, pk, n);
      } else {
        forall q ensures IsLastPartition(topic, pk, q) <==> IsLastPartition(topic[..n], pk, q) {
          assert forall j :: 0 <= j < n ==> topic[..n][j] == topic[j];
        }
      }
    }
  }

  /** No key has messages in two partitions. */
  ghost predicate Confined(topic: Topic) {
    forall i, j, pk :: 0 <= i < |topic| && 0 <= j < |topic| && Occurs(topic[i], pk) && Occurs(topic[j], pk) ==> i == j
  }

  /** Message i of partition q is the last one of pk in the whole topic. */
  predicate IsLastInTopic(topic: Topic, pk: Pk, q: int, i: int) {
    0 <= q < |topic| && IsLast(topic[q], pk, i)
  }

  /** With every key in one partition, the scan is exactly log compaction of the topic. */
  lemma {:induction false} FullScanIsCompaction(topic: Topic, pk: Pk)
    requires Confined(topic)
    ensures pk in View(topic) <==> exists q, i :: IsLastInTopic(topic, pk, q, i)
    ensures forall q, i :: IsLastInTopic(topic, pk, q, i) ==> View(topic)[pk] == topic[q][i].op
  {
    ViewAt(topic, pk);
    forall q, i | IsLastInTopic(topic, pk, q, i) ensures View(topic)[pk] == topic[q][i].op && pk in View(topic) {
      assert IsLastPartition(topic, pk, q);
      LastWritesCompact(topic[q], pk);
    }
    if pk in View(topic) {
      var q :| IsLastPartition(topic, pk, q);
      LastWritesCompact(topic[q], pk);
      var i :| IsLast(topic[q], pk, i);
      assert IsLastInTopic(topic, pk, q, i);
    }
  }

  /** Then the order in which partitions are listed and merged is immaterial. */
  lemma {:induction false} MergeOrderIrrelevant(topic: Topic, relisted: Topic)
    requires Confined(topic) && Confined(relisted)
    requires forall p :: p in topic <==> p in relisted
    ensures View(topic) == View(relisted)
  {
    forall pk ensures pk in View(topic) <==> pk in View(relisted)
              ensures pk in View(topic) && pk in View(relisted) ==> View(topic)[pk] == View(relisted)[pk] {
      Carries(topic, relisted, pk);
      Carries(relisted, topic, pk);
    }
  }

  lemma {:induction false} Carries(topic: Topic, relisted: Topic, pk: Pk)
    requires Confined(topic) && Confined(relisted)
    requires forall p :: p in topic ==> p in relisted
    ensures pk in View(topic) ==> pk in View(relisted) && View(relisted)[pk] == View(topic)[pk]
  {
    FullScanIsCompaction(topic, pk);
    FullScanIsCompaction(relisted, pk);
    if pk in View(topic) {
      var q, i :| IsLastInTopic(topic, pk, q, i);
      assert topic[q] in relisted;
      var q' :| 0 <= q' < |relisted| && relisted[q'] == topic[q];
      assert IsLastInTopic(relisted, pk, q', i);
    }
  }

  function Live(topic: Topic): set<Pk> {
    set pk | pk in View(topic) && View(topic)[pk] != D
  }
}
