/**
  Compare and fix.  Compare diffs the source's primary keys against the live keys of a topic; fix appends a
  snapshot message for every key the topic lacks and a delete with a tombstone for every ghost.
 */
module Reconciliation {
  import opened Prelude
  import opened KeyCodec
  import opened LineText
  import opened TopicScan

  // ---- Compare ----

  ghost predicate Enumerates<T(!new)>(s: seq<T>, elements: set<T>) {
    && (forall i, j :: 0 <= i < j < |s| ==> s[i] != s[j])
    && (forall x :: x in s <==> x in elements)
  }

  function LiveKeys(pkMap: PkMap): set<Pk> {
    set pk | pk in pkMap && pkMap[pk] != D
  }

  ghost predicate IsDiff(source: set<Pk>, pkMap: PkMap, missing: seq<Pk>, ghosts: seq<Pk>, matched: int) {
    && Enumerates(missing, source - LiveKeys(pkMap))
    && Enumerates(ghosts, LiveKeys(pkMap) - source)
    && matched == |source * LiveKeys(pkMap)|
  }

  lemma {:induction false} SeenOneMore(r: seq<Pk>, seen: set<Pk>, other: set<Pk>, pk: Pk)
    requires Enumerates(r, seen - other) && pk !in seen
    ensures Enumerates(if pk in other then r else r + [pk], seen + {pk} - other)
    ensures |(seen + {pk}) * other| == |seen * other| + if pk in other then 1 else 0
  {
    if pk in other {
      assert (seen + {pk}) * other == seen * other + {pk};
      assert seen + {pk} - other == seen - other;
    } else {
      assert (seen + {pk}) * other == seen * other;
      assert forall i :: 0 <= i < |r| ==> r[i] in r;
    }
  }

  /** The keys of pool that are not in other; the order in which a Map yields them is not fixed. */
  method KeysNotIn(pool: set<Pk>, other: set<Pk>) returns (r: seq<Pk>)
    ensures Enumerates(r, pool - other)
    ensures |pool| - |r| == |pool * other|
  {
    r := [];
    var todo := pool;
    ghost var seen: set<Pk> := {};
    while todo != {}
      invariant seen !! todo && seen + todo == pool
      invariant Enumerates(r, seen - other)
      invariant |seen| == |r| + |seen * other|
      decreases |todo|
    {
      var pk :| pk in todo;
      todo := todo - {pk};
      SeenOneMore(r, seen, other, pk);
      if pk !in other {
        r := r + [pk];
      }
      seen := seen + {pk};
    }
    assert seen == pool;
  }

  method CompareDiff(source: set<Pk>, pkMap: PkMap) returns (missing: seq<Pk>, ghosts: seq<Pk>, matched: int)
    ensures IsDiff(source, pkMap, missing, ghosts, matched)
  {
    var alive, deleted: set<Pk> := {}, {};
    var todo := pkMap.Keys;
    while todo != {}
      invariant todo <= pkMap.Keys
      invariant alive == set pk | pk in pkMap.Keys - todo && pkMap[pk] != D
      decreases |todo|
    {
      var pk :| pk in todo;
      todo := todo - {pk};
      if pkMap[pk] == D {
        deleted, alive := deleted + {pk}, alive - {pk};
      } else {
        alive, deleted := alive + {pk}, deleted - {pk};
      }
    }
    assert alive == LiveKeys(pkMap);
    missing := KeysNotIn(source, alive);
    ghosts := KeysNotIn(alive, source);
    matched := |source| - |missing|;
  }

  /** The diff is empty exactly when the live keys are the source's keys, and then everything matches. */
  lemma {:induction false} EmptyDiff(source: set<Pk>, pkMap: PkMap, missing: seq<Pk>, ghosts: seq<Pk>, matched: int)
    requires IsDiff(source, pkMap, missing, ghosts, matched)
    ensures missing == [] && ghosts == [] <==> LiveKeys(pkMap) == source
    ensures LiveKeys(pkMap) == source ==> matched == |source|
  {
    if missing != [] { assert missing[0] in source - LiveKeys(pkMap); }
    if ghosts != [] { assert ghosts[0] in LiveKeys(pkMap) - source; }
    if LiveKeys(pkMap) == source {
      assert source * LiveKeys(pkMap) == source;
    }
  }

  // ---- Fix ----

  /** A source row, and whether a column named op would show in the part of the value that the reader inspects. */
  datatype SourceRow = SourceRow(row: Row, opVisible: bool)

  datatype Table = Table(cols: seq<string>, columns: set<string>, rows: map<Pk, SourceRow>)

  ghost predicate ValidTable(t: Table) {
    && (forall i, j :: 0 <= i < j < |t.cols| ==> t.cols[i] != t.cols[j])
    && (forall c :: c in t.cols ==> c in t.columns)
    && forall pk :: pk in t.rows ==> t.rows[pk].row.Keys == t.columns && HasKey(t.rows[pk].row, t.cols, pk)
  }

  /** The runtime, the partition that the producer picks for a key, and how the reader that compares cuts lines. */
  datatype Env = Env(rt: Runtime, route: Payload -> nat, splitter: Splitter)

  ghost predicate ValidEnv(env: Env, partitions: nat) {
    forall key :: env.route(key) < partitions
  }

  /** A message as it will be read back, and where it goes. */
  datatype Post = Post(partition: nat, msg: Msg)

  /** The snapshot message carries op r, but a column named op is found first by the reader. */
  function FixOp(r: SourceRow): Op {
    if r.opVisible && "op" in r.row then
      match r.row["op"]
      case Some(s) => if s == "d" then D else if s == "c" then C else if s == "u" then U else R
      case None => R
    else R
  }

  /** A row is read as deleted exactly when it has a visible column op that says d, and as a snapshot if it has none. */
  lemma {:induction false} FixOpMeans(r: SourceRow)
    ensures FixOp(r) == D <==> r.opVisible && "op" in r.row && r.row["op"] == Some("d")
    ensures FixOp(r) == C <==> r.opVisible && "op" in r.row && r.row["op"] == Some("c")
    ensures FixOp(r) == U <==> r.opVisible && "op" in r.row && r.row["op"] == Some("u")
  {
  }

  /** What the reader makes of a key and of the row in the value: nothing, if it cuts the line inside the key. */
  function ReadLine(env: Env, key: Payload, row: Payload, cols: seq<string>): Option<Pk> {
    if env.splitter == AtPair && IsCut(key) then None else ReadPk(env.rt, key, row, cols)
  }

  function Replicate(env: Env, t: Table, pk: Pk): Post
    requires pk in t.rows
  {
    var key := KeyFor(t.rows[pk].row, t.cols);
    Post(env.route(key), Msg(ReadLine(env, key, AfterFor(t.rows[pk].row), t.cols), FixOp(t.rows[pk])))
  }

  /** The delete, whose value repeats the key as before image, and the tombstone, which has no value. */
  function Retract(env: Env, t: Table, pk: Pk): seq<Post>
    requires |pk| == |t.cols|
  {
    var key := GhostKeyFor(pk, t.cols);
    [Post(env.route(key), Msg(ReadLine(env, key, key, t.cols), D)),
     Post(env.route(key), Msg(ReadLine(env, key, map[], t.cols), D))]
  }

  function Replications(env: Env, t: Table, missing: seq<Pk>, skip: set<Pk>): seq<Post> {
    if missing == [] then []
    else
      var pk := missing[|missing| - 1];
      var earlier := Replications(env, t, missing[..|missing| - 1], skip);
      if pk in t.rows && pk !in skip then earlier + [Replicate(env, t, pk)] else earlier
  }

  function Retractions(env: Env, t: Table, ghosts: seq<Pk>): seq<Post>
    requires forall pk :: pk in ghosts ==> |pk| == |t.cols|
  {
    if ghosts == [] then []
    else Retractions(env, t, ghosts[..|ghosts| - 1]) + Retract(env, t, ghosts[|ghosts| - 1])
  }

  /** With rows missing but none left to write, the request ends before it reaches the ghosts. */
  function FixPosts(env: Env, t: Table, missing: seq<Pk>, ghosts: seq<Pk>, skip: set<Pk>): seq<Post>
    requires forall pk :: pk in ghosts ==> |pk| == |t.cols|
  {
    var replications := Replications(env, t, missing, skip);
    if missing != [] && replications == [] then [] else replications + Retractions(env, t, ghosts)
  }

  /** The missing rows that are in the table and not skipped. */
  function Found(t: Table, missing: seq<Pk>, skip: set<Pk>): (r: seq<Pk>)
    ensures forall i :: 0 <= i < |r| ==> r[i] in t.rows
  {
    var r := Keep(missing, (pk: Pk) => pk in t.rows && pk !in skip);
    assert forall i :: 0 <= i < |r| ==> r[i] in r;
    r
  }

  /** One snapshot message for each missing row that is found and not skipped, in the order of the request. */
  lemma {:induction false} ReplicationsInOrder(env: Env, t: Table, missing: seq<Pk>, skip: set<Pk>)
    ensures var posts, found := Replications(env, t, missing, skip), Found(t, missing, skip);
            |posts| == |found| && forall i :: 0 <= i < |found| ==> posts[i] == Replicate(env, t, found[i])
  {
    if missing != [] {
      ReplicationsInOrder(env, t, missing[..|missing| - 1], skip);
    }
  }

  lemma {:induction false} RetractionsCount(env: Env, t: Table, ghosts: seq<Pk>)
    requires forall pk :: pk in ghosts ==> |pk| == |t.cols|
    ensures |Retractions(env, t, ghosts)| == 2 * |ghosts|
  {
    if ghosts != [] {
      RetractionsStep(env, t, ghosts);
      RetractionsCount(env, t, ghosts[..|ghosts| - 1]);
    }
  }

  /** And a delete and a tombstone for each ghost, in theirs. */
  lemma {:induction false} RetractionsInOrder(env: Env, t: Table, ghosts: seq<Pk>, i: nat)
    requires (forall pk :: pk in ghosts ==> |pk| == |t.cols|) && i < |ghosts|
    ensures |Retractions(env, t, ghosts)| == 2 * |ghosts|
    ensures Retractions(env, t, ghosts)[2 * i] == Retract(env, t, ghosts[i])[0]
    ensures Retractions(env, t, ghosts)[2 * i + 1] == Retract(env, t, ghosts[i])[1]
  {
    var n := |ghosts| - 1;
    RetractionsCount(env, t, ghosts);
    RetractionsCount(env, t, ghosts[..n]);
    RetractionsStep(env, t, ghosts);
    if i < n {
      RetractionsInOrder(env, t, ghosts[..n], i);
    }
  }

  method BuildReplications(env: Env, t: Table, missing: seq<Pk>, skip: set<Pk>) returns (posts: seq<Post>)
    ensures posts == Replications(env, t, missing, skip)
  {
    posts := [];
    for i := 0 to |missing|
      invariant posts == Replications(env, t, missing[..i], skip)
    {
      assert missing[..i + 1][..i] == missing[..i];
      if missing[i] in t.rows && missing[i] !in skip {
        posts := posts + [Replicate(env, t, missing[i])];
      }
    }
    assert missing[..|missing|] == missing;
  }

  lemma {:induction false} RetractionsStep(env: Env, t: Table, ghosts: seq<Pk>)
    requires ghosts != [] && forall pk :: pk in ghosts ==> |pk| == |t.cols|
    ensures forall pk :: pk in ghosts[..|ghosts| - 1] ==> |pk| == |t.cols|
    ensures Retractions(env, t, ghosts) ==
            Retractions(env, t, ghosts[..|ghosts| - 1]) + Retract(env, t, ghosts[|ghosts| - 1])
  {
  }

  method BuildRetractions(env: Env, t: Table, ghosts: seq<Pk>) returns (posts: seq<Post>)
    requires forall pk :: pk in ghosts ==> |pk| == |t.cols|
    ensures posts == Retractions(env, t, ghosts)
  {
    posts := [];
    for i := 0 to |ghosts|
      invariant forall pk :: pk in ghosts[..i] ==> |pk| == |t.cols|
      invariant posts == Retractions(env, t, ghosts[..i])
    {
      RetractionsStep(env, t, ghosts[..i + 1]);
      assert ghosts[..i + 1][..i] == ghosts[..i];
      posts := posts + Retract(env, t, ghosts[i]);
    }
    assert ghosts[..|ghosts|] == ghosts;
  }

  method BuildFix(env: Env, t: Table, missing: seq<Pk>, ghosts: seq<Pk>, skip: set<Pk>) returns (posts: seq<Post>)
    requires forall pk :: pk in ghosts ==> |pk| == |t.cols|
    ensures posts == FixPosts(env, t, missing, ghosts, skip)
  {
    posts := [];
    if missing != [] {
      posts := BuildReplications(env, t, missing, skip);
      if posts == [] {
        return;
      }
    }
    var deletes := BuildRetractions(env, t, ghosts);
    posts := posts + deletes;
  }

  // ---- What appending does to the view ----

  function Apply(topic: Topic, posts: seq<Post>): (r: Topic)
    requires forall p :: p in posts ==> p.partition < |topic|
    ensures |r| == |topic|
  {
    if posts == [] then topic
    else
      var t, p := Apply(topic, posts[..|posts| - 1]), posts[|posts| - 1];
      t[p.partition := t[p.partition] + [p.msg]]
  }

  function Append(topic: Topic, q: nat, m: Msg): Topic
    requires q < |topic|
  {
    topic[q := topic[q] + [m]]
  }

  lemma {:induction false} OccursAppend(log: seq<Msg>, m: Msg, pk: Pk)
    ensures Occurs(log + [m], pk) <==> Occurs(log, pk) || m.pk == Some(pk)
  {
    if Occurs(log, pk) {
      var i :| 0 <= i < |log| && log[i].pk == Some(pk);
      assert (log + [m])[i].pk == Some(pk);
    }
    if m.pk == Some(pk) {
      assert (log + [m])[|log|].pk == Some(pk);
    }
  }

  lemma {:induction false} OccursAfterAppend(topic: Topic, q: nat, m: Msg, p: nat, pk: Pk)
    requires q < |topic|
    requires m.pk == Some(pk) ==> q == p
    ensures OccursAfter(Append(topic, q, m), p, pk) <==> OccursAfter(topic, p, pk)
  {
    OccursAppend(topic[q], m, pk);
    forall j | p < j < |topic| ensures Occurs(Append(topic, q, m)[j], pk) <==> Occurs(topic[j], pk) {
    }
  }

  lemma {:induction false} ViewAppendLast(topic: Topic, m: Msg)
    requires topic != []
    ensures View(Append(topic, |topic| - 1, m)) ==
              if m.pk.None? then View(topic) else View(topic)[m.pk.value := m.op]
  {
    var n := |topic| - 1;
    assert Append(topic, n, m)[..n] == topic[..n];
    assert (topic[n] + [m])[..|topic[n]|] == topic[n];
  }

  lemma {:induction false} OccursAfterStep(topic: Topic, q: nat, pk: Pk)
    requires q < |topic| - 1
    ensures OccursAfter(topic, q, pk) <==>
            OccursAfter(topic[..|topic| - 1], q, pk) || Occurs(topic[|topic| - 1], pk)
  {
    assert forall j :: 0 <= j < |topic| - 1 ==> topic[..|topic| - 1][j] == topic[j];
  }

  /** A key set before a partition is merged in shows exactly when that partition lacks it. */
  lemma {:induction false} SetThenMerge(earlier: PkMap, last: PkMap, pk: Pk, op: Op)
    ensures earlier[pk := op] + last == if pk in last then earlier + last else (earlier + last)[pk := op]
  {
  }

  /** An appended message shows unless a later partition also has its key. */
  lemma {:induction false} ViewAppend(topic: Topic, q: nat, m: Msg)
    requires q < |topic|
    ensures View(Append(topic, q, m)) ==
              if m.pk.None? || OccursAfter(topic, q, m.pk.value) then View(topic)
              else View(topic)[m.pk.value := m.op]
  {
    var n := |topic| - 1;
    if q == n {
      ViewAppendLast(topic, m);
      assert m.pk.Some? ==> !OccursAfter(topic, n, m.pk.value);
    } else {
      ViewAppend(topic[..n], q, m);
      assert Append(topic, q, m)[..n] == Append(topic[..n], q, m);
      if m.pk.Some? {
        LastWritesCompact(topic[n], m.pk.value);
        OccursAfterStep(topic, q, m.pk.value);
        SetThenMerge(View(topic[..n]), LastWrites(topic[n]), m.pk.value, m.op);
      }
    }
  }

  ghost predicate Touches(posts: seq<Post>, pk: Pk) {
    exists p :: p in posts && p.msg.pk == Some(pk)
  }

  ghost predicate SameAt(a: PkMap, b: PkMap, pk: Pk) {
    (pk in a <==> pk in b) && (pk in a ==> a[pk] == b[pk])
  }

  /** Posts that agree on where one key goes and with which operation. */
  lemma {:induction false} ViewApply(topic: Topic, posts: seq<Post>, pk: Pk, q: nat, op: Op)
    requires forall p :: p in posts ==> p.partition < |topic|
    requires forall p :: p in posts && p.msg.pk == Some(pk) ==> p.partition == q && p.msg.op == op
    ensures OccursAfter(Apply(topic, posts), q, pk) <==> OccursAfter(topic, q, pk)
    ensures if Touches(posts, pk) && !OccursAfter(topic, q, pk)
            then pk in View(Apply(topic, posts)) && View(Apply(topic, posts))[pk] == op
            else SameAt(View(Apply(topic, posts)), View(topic), pk)
  {
    if posts != [] {
      var init, p := posts[..|posts| - 1], posts[|posts| - 1];
      ViewApply(topic, init, pk, q, op);
      var before := Apply(topic, init);
      assert Apply(topic, posts) == Append(before, p.partition, p.msg);
      ViewAppend(before, p.partition, p.msg);
      OccursAfterAppend(before, p.partition, p.msg, q, pk);
      assert Touches(posts, pk) <==> Touches(init, pk) || p.msg.pk == Some(pk);
    }
  }

  // ---- What a fix's messages are read back as ----

  ghost predicate Spells(key: Payload, pk: Pk, cols: seq<string>) {
    && key.Keys == (set c | c in cols) && |pk| == |cols|
    && forall i :: 0 <= i < |cols| ==> key[cols[i]] == Str(pk[i])
  }

  lemma {:induction false} GhostKeyAt(pk: Pk, cols: seq<string>)
    requires |pk| == |cols|
    requires forall i, j :: 0 <= i < j < |cols| ==> cols[i] != cols[j]
    ensures Spells(GhostKeyFor(pk, cols), pk, cols)
  {
    if cols != [] {
      var n := |cols| - 1;
      GhostKeyAt(pk[..n], cols[..n]);
      GhostKeyStep(GhostKeyFor(pk[..n], cols[..n]), pk, cols);
    }
  }

  lemma {:induction false} GhostKeyStep(earlier: Payload, pk: Pk, cols: seq<string>)
    requires |pk| == |cols| > 0
    requires forall i, j :: 0 <= i < j < |cols| ==> cols[i] != cols[j]
    requires Spells(earlier, pk[..|pk| - 1], cols[..|cols| - 1])
    ensures Spells(earlier[cols[|cols| - 1] := Str(pk[|cols| - 1])], pk, cols)
  {
    var n := |cols| - 1;
    assert forall c :: c in cols <==> c in cols[..n] || c == cols[n];
    assert forall i :: 0 <= i < n ==> cols[i] == cols[..n][i] && pk[i] == pk[..n][i];
  }

  /** A ghost's component as it is read back from the text that the fix writes. */
  function TextReadBack(rt: Runtime, s: string): string {
    if OidInText(rt, s).Some? then OidInText(rt, s).value else s
  }

  /** The fix's key for a ghost is read back as that ghost: no component spells out some other ObjectId. */
  predicate GhostSurvives(rt: Runtime, pk: Pk) {
    forall i :: 0 <= i < |pk| ==> TextReadBack(rt, pk[i]) == pk[i]
  }

  /**
    A ghost's messages, with the key as before image or with no value, are read back component by component or not
    at all.
   */
  lemma {:induction false} GhostKeyReads(rt: Runtime, pk: Pk, cols: seq<string>, row: Payload, read: Pk)
    requires |pk| == |cols|
    requires forall i, j :: 0 <= i < j < |cols| ==> cols[i] != cols[j]
    requires row == map[] || row == GhostKeyFor(pk, cols)
    ensures ReadPk(rt, GhostKeyFor(pk, cols), row, cols) == Some(read) <==>
            !LosesId(cols, set c | c in cols) && |read| == |pk| &&
            forall i :: 0 <= i < |pk| ==> TextReadBack(rt, pk[i]) == read[i]
  {
    var key := GhostKeyFor(pk, cols);
    GhostKeyAt(pk, cols);
    if cols != [] {
      NothingInEmptyRow(rt, cols);
    }
    if |read| == |cols| {
      PkOfExactly(rt, NormaliseMongoPkPayload(key), cols, read);
    }
    forall i | 0 <= i < |cols|
      ensures Field(rt, NormaliseMongoPkPayload(key), cols[i]) ==
              if cols[i] == "id" && LosesId(cols, key.Keys) then None else Some(TextReadBack(rt, pk[i]))
    {
      FieldAfterRename(rt, key, cols, cols[i]);
    }
  }

  lemma {:induction false} NothingInEmptyRow(rt: Runtime, cols: seq<string>)
    requires cols != []
    ensures PkOf(rt, NormaliseMongoPkPayload(map[]), cols).None?
  {
  }

  /** A key that the reader does not cut: no TAB, and no backslash before a t, if the pair is where it cuts. */
  predicate Fits(env: Env, t: Table, pk: Pk) {
    env.splitter == AtPair ==> (forall c :: c in t.cols ==> !Awkward(c)) && forall s :: s in pk ==> !Awkward(s)
  }

  /** A row to write is read back under its own key: a property of its key's texts and of the column names. */
  predicate RowReadable(env: Env, t: Table, pk: Pk) {
    AllSurvive(env.rt, pk) && !LosesId(t.cols, t.columns) && Fits(env, t, pk)
  }

  predicate GhostReadable(env: Env, t: Table, pk: Pk) {
    GhostSurvives(env.rt, pk) && !LosesId(t.cols, set c | c in t.cols) && Fits(env, t, pk)
  }

  lemma {:induction false} PlainNotAwkward(s: string)
    requires NoBackslash(s) && NoTab(s)
    ensures !Awkward(s)
  {
    if s != "" {
      PlainNotAwkward(s[1..]);
    }
  }

  lemma {:induction false} UnsignedIsPlain(s: string)
    requires NoBackslash(Unsigned(s)) && NoTab(Unsigned(s))
    ensures NoBackslash(s) && NoTab(s)
  {
    if s != "" && s[0] == '-' {
      assert forall i :: 1 <= i < |s| ==> s[i] == s[1..][i - 1];
    }
  }

  lemma {:induction false} FractionIsPlain(t: string, i: nat)
    requires i < |t| && t[i] == '.' && AllDigits(t[..i]) && AllDigits(t[i + 1..])
    ensures NoBackslash(t) && NoTab(t)
  {
    forall j | 0 <= j < |t| ensures t[j] == '.' || IsDigit(t[j]) {
      if j < i {
        assert t[j] == t[..i][j];
      } else if j > i {
        assert t[j] == t[i + 1..][j - i - 1];
      }
    }
  }

  lemma {:induction false} NumberNotAwkward(s: string)
    requires IsInteger(s) || IsFraction(s)
    ensures !Awkward(s)
  {
    var t := Unsigned(s);
    if IsFraction(s) {
      var i :| 0 <= i < |t| && t[i] == '.' && AllDigits(t[..i]) && AllDigits(t[i + 1..]);
      FractionIsPlain(t, i);
    }
    UnsignedIsPlain(s);
    PlainNotAwkward(s);
  }

  /** A row's key is cut exactly when its texts have it so: casting to a number takes nothing awkward away. */
  lemma {:induction false} RowKeyCut(t: Table, pk: Pk)
    requires ValidTable(t) && pk in t.rows
    ensures IsCut(KeyFor(t.rows[pk].row, t.cols)) <==>
            (exists c :: c in t.cols && Awkward(c)) || exists s :: s in pk && Awkward(s)
  {
    var key := KeyFor(t.rows[pk].row, t.cols);
    forall i | 0 <= i < |pk| ensures CutAt(key, t.cols[i]) <==> Awkward(t.cols[i]) || Awkward(pk[i]) {
      if IsInteger(pk[i]) || IsFraction(pk[i]) {
        NumberNotAwkward(pk[i]);
      }
    }
    CutByIndex(key, t.cols, pk);
  }

  lemma {:induction false} GhostKeyCut(pk: Pk, cols: seq<string>)
    requires |pk| == |cols|
    requires forall i, j :: 0 <= i < j < |cols| ==> cols[i] != cols[j]
    ensures IsCut(GhostKeyFor(pk, cols)) <==>
            (exists c :: c in cols && Awkward(c)) || exists s :: s in pk && Awkward(s)
  {
    GhostKeyAt(pk, cols);
    CutByIndex(GhostKeyFor(pk, cols), cols, pk);
  }

  lemma {:induction false} CutByIndex(key: Payload, cols: seq<string>, pk: Pk)
    requires |pk| == |cols| && key.Keys == set c | c in cols
    requires forall i :: 0 <= i < |pk| ==> (CutAt(key, cols[i]) <==> Awkward(cols[i]) || Awkward(pk[i]))
    ensures IsCut(key) <==> (exists c :: c in cols && Awkward(c)) || exists s :: s in pk && Awkward(s)
  {
    if c :| c in key && CutAt(key, c) {
      var i :| 0 <= i < |cols| && cols[i] == c;
      assert pk[i] in pk;
    }
    if c :| c in cols && Awkward(c) {
      assert CutAt(key, c);
    }
    if s :| s in pk && Awkward(s) {
      var i :| 0 <= i < |pk| && pk[i] == s;
      assert CutAt(key, cols[i]);
    }
  }

  lemma {:induction false} ReplicateReads(env: Env, t: Table, pk: Pk)
    requires ValidTable(t) && pk in t.rows
    ensures Replicate(env, t, pk).msg.pk == Some(pk) <==> RowReadable(env, t, pk)
  {
    FixKeyRoundTrip(env.rt, t.rows[pk].row, t.cols, pk);
    RowKeyCut(t, pk);
  }

  /** Both messages of a ghost are read back under the same key, if any. */
  lemma {:induction false} RetractReads(env: Env, t: Table, pk: Pk, read: Pk)
    requires ValidTable(t) && |pk| == |t.cols|
    ensures var posts := Retract(env, t, pk);
            && (posts[0].msg.pk == Some(read) <==> posts[1].msg.pk == Some(read))
            && (posts[0].msg.pk == Some(read) ==> forall i :: 0 <= i < |pk| ==> TextReadBack(env.rt, pk[i]) == read[i])
            && (posts[0].msg.pk == Some(pk) <==> GhostReadable(env, t, pk))
  {
    var key := GhostKeyFor(pk, t.cols);
    GhostKeyReads(env.rt, pk, t.cols, key, read);
    GhostKeyReads(env.rt, pk, t.cols, map[], read);
    GhostKeyReads(env.rt, pk, t.cols, key, pk);
    GhostKeyCut(pk, t.cols);
  }

  lemma {:induction false} ReplicationsAre(env: Env, t: Table, missing: seq<Pk>, skip: set<Pk>)
    ensures forall p :: p in Replications(env, t, missing, skip) <==>
              exists pk :: pk in missing && pk in t.rows && pk !in skip && p == Replicate(env, t, pk)
  {
    if missing != [] {
      var init, last := missing[..|missing| - 1], missing[|missing| - 1];
      ReplicationsAre(env, t, init, skip);
      assert forall pk :: pk in missing <==> pk in init || pk == last;
    }
  }

  lemma {:induction false} RetractionsAre(env: Env, t: Table, ghosts: seq<Pk>)
    requires forall pk :: pk in ghosts ==> |pk| == |t.cols|
    ensures forall p :: p in Retractions(env, t, ghosts) <==> exists pk :: pk in ghosts && p in Retract(env, t, pk)
  {
    if ghosts != [] {
      var init, last := ghosts[..|ghosts| - 1], ghosts[|ghosts| - 1];
      RetractionsAre(env, t, init);
      assert forall pk :: pk in ghosts <==> pk in init || pk == last;
    }
  }

  // ---- Requests ----

  /** A request as compare hands it to fix; skip are the keys that its pre-check finds alive. */
  datatype Request = Request(env: Env, t: Table, topic: Topic, missing: seq<Pk>, ghosts: seq<Pk>, skip: set<Pk>)

  ghost predicate ValidRequest(q: Request) {
    && ValidTable(q.t) && ValidEnv(q.env, |q.topic|)
    && Enumerates(q.missing, q.t.rows.Keys - Live(q.topic))
    && Enumerates(q.ghosts, Live(q.topic) - q.t.rows.Keys)
    && forall pk :: pk in q.ghosts ==> |pk| == |q.t.cols|
  }

  function Posts(q: Request): seq<Post>
    requires forall pk :: pk in q.ghosts ==> |pk| == |q.t.cols|
  {
    FixPosts(q.env, q.t, q.missing, q.ghosts, q.skip)
  }

  lemma {:induction false} PostsInRange(q: Request)
    requires ValidRequest(q)
    ensures forall p :: p in Posts(q) ==> p.partition < |q.topic|
  {
    ReplicationsAre(q.env, q.t, q.missing, q.skip);
    RetractionsAre(q.env, q.t, q.ghosts);
  }

  /** The topic after the request. */
  ghost function Fixed(q: Request): Topic
    requires ValidRequest(q)
  {
    PostsInRange(q);
    Apply(q.topic, Posts(q))
  }

  ghost predicate Converges(q: Request)
    requires ValidRequest(q)
  {
    Live(Fixed(q)) == q.t.rows.Keys
  }

  ghost predicate RowsReadable(q: Request) {
    forall pk :: pk in q.missing ==> RowReadable(q.env, q.t, pk)
  }

  ghost predicate Readable(q: Request) {
    RowsReadable(q) && forall pk :: pk in q.ghosts ==> GhostReadable(q.env, q.t, pk)
  }

  /** The snapshot message of this missing row will show. */
  predicate Lands(q: Request, pk: Pk)
    requires pk in q.t.rows
  {
    && pk !in q.skip
    && FixOp(q.t.rows[pk]) != D
    && !OccursAfter(q.topic, q.env.route(KeyFor(q.t.rows[pk].row, q.t.cols)), pk)
  }

  /** The delete of this ghost will show. */
  predicate Retracts(q: Request, pk: Pk)
    requires |pk| == |q.t.cols|
  {
    !OccursAfter(q.topic, q.env.route(GhostKeyFor(pk, q.t.cols)), pk)
  }

  /** Does the second phase of the request run? */
  predicate ReachesGhosts(q: Request) {
    q.missing == [] || exists pk :: pk in q.missing && pk in q.t.rows && pk !in q.skip
  }

  /** Where a post of the request comes from. */
  lemma {:induction false} PostOrigin(q: Request, p: Post)
    requires ValidRequest(q) && p in Posts(q)
    ensures || (exists from :: from in q.missing && from !in q.skip && p == Replicate(q.env, q.t, from))
            || (exists from :: from in q.ghosts && p in Retract(q.env, q.t, from))
  {
    ReplicationsAre(q.env, q.t, q.missing, q.skip);
    RetractionsAre(q.env, q.t, q.ghosts);
  }

  // ---- What becomes of each key ----

  /** No message of another row or ghost is read back under this key. */
  ghost predicate OwnOnly(q: Request, pk: Pk)
    requires ValidRequest(q)
  {
    && (forall from :: from in q.missing && from != pk ==> Replicate(q.env, q.t, from).msg.pk != Some(pk))
    && (forall from, p :: from in q.ghosts && from != pk && p in Retract(q.env, q.t, from) ==> p.msg.pk != Some(pk))
  }

  lemma {:induction false} ReadableIsOwnOnly(q: Request, pk: Pk)
    requires ValidRequest(q) && Readable(q)
    ensures OwnOnly(q, pk)
  {
    forall from | from in q.missing && from != pk ensures Replicate(q.env, q.t, from).msg.pk != Some(pk) {
      ReplicateReads(q.env, q.t, from);
    }
    forall from, p | from in q.ghosts && from != pk && p in Retract(q.env, q.t, from) ensures p.msg.pk != Some(pk) {
      RetractReads(q.env, q.t, from, pk);
      RetractReads(q.env, q.t, from, from);
    }
  }

  lemma {:induction false} ReplicateIsPosted(q: Request, pk: Pk)
    requires ValidRequest(q) && pk in q.missing && pk !in q.skip
    ensures Replicate(q.env, q.t, pk) in Posts(q)
  {
    ReplicationsAre(q.env, q.t, q.missing, q.skip);
    assert Replicate(q.env, q.t, pk) in Replications(q.env, q.t, q.missing, q.skip);
  }

  lemma {:induction false} AtMissing(q: Request, pk: Pk)
    requires ValidRequest(q) && OwnOnly(q, pk) && pk in q.missing
    ensures pk in Live(Fixed(q)) <==> RowReadable(q.env, q.t, pk) && Lands(q, pk)
  {
    var posts := Posts(q);
    PostsInRange(q);
    ReplicateReads(q.env, q.t, pk);
    var to, op := q.env.route(KeyFor(q.t.rows[pk].row, q.t.cols)), FixOp(q.t.rows[pk]);
    forall p | p in posts && p.msg.pk == Some(pk)
      ensures p.partition == to && p.msg.op == op && pk !in q.skip && RowReadable(q.env, q.t, pk)
    {
      PostOrigin(q, p);
    }
    if pk !in q.skip {
      ReplicateIsPosted(q, pk);
    }
    assert Touches(posts, pk) <==> pk !in q.skip && RowReadable(q.env, q.t, pk);
    ViewApply(q.topic, posts, pk, to, op);
  }

  lemma {:induction false} NothingToReplicate(env: Env, t: Table, missing: seq<Pk>, skip: set<Pk>)
    requires forall pk :: pk in missing && pk in t.rows ==> pk in skip
    ensures Replications(env, t, missing, skip) == []
  {
    if missing != [] {
      assert missing[|missing| - 1] in missing;
      NothingToReplicate(env, t, missing[..|missing| - 1], skip);
    }
  }

  /** The second phase runs exactly when it has the means to, and then it posts every ghost's messages. */
  lemma {:induction false} RetractIsPosted(q: Request, pk: Pk)
    requires ValidRequest(q) && ReachesGhosts(q) && pk in q.ghosts
    ensures Retract(q.env, q.t, pk)[0] in Posts(q)
  {
    if q.missing != [] {
      SomethingToReplicate(q.env, q.t, q.missing, q.skip);
    }
    RetractionsAre(q.env, q.t, q.ghosts);
    assert Retract(q.env, q.t, pk)[0] in Retractions(q.env, q.t, q.ghosts);
  }

  lemma {:induction false} SomethingToReplicate(env: Env, t: Table, missing: seq<Pk>, skip: set<Pk>)
    requires exists pk :: pk in missing && pk in t.rows && pk !in skip
    ensures Replications(env, t, missing, skip) != []
  {
    ReplicationsAre(env, t, missing, skip);
    var pk :| pk in missing && pk in t.rows && pk !in skip;
    assert Replicate(env, t, pk) in Replications(env, t, missing, skip);
  }

  /** Under a ghost's key come only its own messages, and only if they can be read back. */
  lemma {:induction false} GhostPost(q: Request, pk: Pk, p: Post)
    requires ValidRequest(q) && OwnOnly(q, pk) && pk in q.ghosts && p in Posts(q) && p.msg.pk == Some(pk)
    ensures p.partition == q.env.route(GhostKeyFor(pk, q.t.cols)) && p.msg.op == D
    ensures ReachesGhosts(q) && GhostReadable(q.env, q.t, pk)
  {
    PostOrigin(q, p);
    var from :| from in q.ghosts && p in Retract(q.env, q.t, from);
    RetractReads(q.env, q.t, pk, pk);
    if !ReachesGhosts(q) {
      NothingToReplicate(q.env, q.t, q.missing, q.skip);
    }
  }

  lemma {:induction false} AtGhost(q: Request, pk: Pk)
    requires ValidRequest(q) && OwnOnly(q, pk) && pk in q.ghosts
    ensures pk in Live(Fixed(q)) <==> !(ReachesGhosts(q) && GhostReadable(q.env, q.t, pk) && Retracts(q, pk))
  {
    var posts := Posts(q);
    PostsInRange(q);
    var to := q.env.route(GhostKeyFor(pk, q.t.cols));
    forall p | p in posts && p.msg.pk == Some(pk)
      ensures p.partition == to && p.msg.op == D && ReachesGhosts(q) && GhostReadable(q.env, q.t, pk)
    {
      GhostPost(q, pk, p);
    }
    if ReachesGhosts(q) {
      RetractIsPosted(q, pk);
      RetractReads(q.env, q.t, pk, pk);
    }
    assert Touches(posts, pk) <==> ReachesGhosts(q) && GhostReadable(q.env, q.t, pk);
    ViewApply(q.topic, posts, pk, to, D);
  }

  lemma {:induction false} AtOther(q: Request, pk: Pk)
    requires ValidRequest(q) && OwnOnly(q, pk) && pk !in q.missing && pk !in q.ghosts
    ensures pk in Live(Fixed(q)) <==> pk in Live(q.topic)
  {
    PostsInRange(q);
    forall p | p in Posts(q) ensures p.msg.pk != Some(pk) {
      PostOrigin(q, p);
    }
    ViewApply(q.topic, Posts(q), pk, 0, D);
  }

  // ---- Convergence of readable requests ----

  /** What one request does to the liveness of every key. */
  ghost predicate Outcome(live: set<Pk>, q: Request)
    requires ValidRequest(q)
  {
    && (forall pk :: pk in q.missing ==> pk in q.t.rows && (pk in live <==> Lands(q, pk)))
    && (forall pk :: pk in q.ghosts ==> (pk in live <==> !(ReachesGhosts(q) && Retracts(q, pk))))
    && (forall pk :: pk !in q.missing && pk !in q.ghosts ==> (pk in live <==> pk in q.t.rows))
  }

  lemma {:induction false} AtEveryKey(q: Request)
    requires ValidRequest(q) && Readable(q)
    ensures Outcome(Live(Fixed(q)), q)
  {
    var live := Live(Fixed(q));
    forall pk | pk in q.missing ensures pk in q.t.rows && (pk in live <==> Lands(q, pk)) {
      ReadableIsOwnOnly(q, pk);
      AtMissing(q, pk);
    }
    forall pk | pk in q.ghosts ensures pk in live <==> !(ReachesGhosts(q) && Retracts(q, pk)) {
      ReadableIsOwnOnly(q, pk);
      AtGhost(q, pk);
    }
    forall pk | pk !in q.missing && pk !in q.ghosts ensures pk in live <==> pk in q.t.rows {
      ReadableIsOwnOnly(q, pk);
      AtOther(q, pk);
    }
  }

  /**
    Every missing row is written with an operation that reads as alive, and no message of the request lands
    in a partition listed before one that already holds its key.
   */
  ghost predicate Settles(q: Request)
    requires ValidRequest(q)
  {
    && (forall pk :: pk in q.missing ==> Lands(q, pk))
    && (forall pk :: pk in q.ghosts ==> Retracts(q, pk))
  }

  lemma {:induction false} OutcomeConverges(live: set<Pk>, q: Request)
    requires ValidRequest(q) && Outcome(live, q)
    ensures live == q.t.rows.Keys <==> Settles(q)
  {
    if Settles(q) {
      if q.missing != [] {
        var pk := q.missing[0];
        assert pk in q.missing && Lands(q, pk);
      }
      forall pk ensures pk in live <==> pk in q.t.rows.Keys {
      }
    }
  }

  lemma {:induction false} ReadableConverges(q: Request)
    requires ValidRequest(q) && Readable(q)
    ensures Converges(q) <==> Settles(q)
  {
    AtEveryKey(q);
    OutcomeConverges(Live(Fixed(q)), q);
  }

  // ---- Requests that cannot be read back ----

  /** How far the components of a key can drift together. */
  function KeyDrift(rt: Runtime, pk: Pk): nat {
    Sum(seq(|pk|, i requires 0 <= i < |pk| => Drift(rt, pk[i])))
  }

  lemma {:induction false} KeyDrifts(rt: Runtime, pk: Pk, read: Pk)
    requires ValidRuntime(rt) && |read| == |pk| && forall i :: 0 <= i < |pk| ==> ReadBack(rt, pk[i]) == Some(read[i])
    ensures read == pk || KeyDrift(rt, read) < KeyDrift(rt, pk)
  {
    var before, after := seq(|pk|, i requires 0 <= i < |pk| => Drift(rt, pk[i])),
                         seq(|read|, i requires 0 <= i < |read| => Drift(rt, read[i]));
    forall i | 0 <= i < |pk| ensures read[i] == pk[i] || after[i] < before[i] {
      ReadBackDrifts(rt, pk[i]);
    }
    SumDrops(after, before);
  }

  function TextSize(pk: Pk): nat {
    Sum(seq(|pk|, i requires 0 <= i < |pk| => |pk[i]|))
  }

  lemma {:induction false} TextShrinks(rt: Runtime, pk: Pk, read: Pk)
    requires ValidRuntime(rt) && |read| == |pk| && forall i :: 0 <= i < |pk| ==> TextReadBack(rt, pk[i]) == read[i]
    ensures read == pk || TextSize(read) < TextSize(pk)
  {
    var before, after := seq(|pk|, i requires 0 <= i < |pk| => |pk[i]|),
                         seq(|read|, i requires 0 <= i < |read| => |read[i]|);
    assert forall i :: 0 <= i < |pk| ==> read[i] == pk[i] || after[i] < before[i];
    SumDrops(after, before);
  }

  /** A key whose liveness a batch of messages changes has a message in it with the operation to match. */
  lemma {:induction false} ChangeNeedsPost(topic: Topic, posts: seq<Post>, pk: Pk)
    requires forall p :: p in posts ==> p.partition < |topic|
    requires pk in Live(Apply(topic, posts)) <==> pk !in Live(topic)
    ensures exists p :: p in posts && p.msg.pk == Some(pk) && (p.msg.op == D <==> pk in Live(topic))
  {
    var init, p := posts[..|posts| - 1], posts[|posts| - 1];
    var before := Apply(topic, init);
    if pk in Live(before) <==> pk in Live(topic) {
      ViewAppend(before, p.partition, p.msg);
      assert p in posts;
    } else {
      ChangeNeedsPost(topic, init, pk);
      assert forall x :: x in init ==> x in posts;
    }
  }

  /** After a request that converged, every missing row has been written under its key by some row. */
  lemma {:induction false} MissingIsWritten(q: Request, pk: Pk)
    requires ValidRequest(q) && Converges(q) && pk in q.missing
    ensures exists from :: from in q.missing && Replicate(q.env, q.t, from).msg.pk == Some(pk)
  {
    PostsInRange(q);
    ChangeNeedsPost(q.topic, Posts(q), pk);
    var p :| p in Posts(q) && p.msg.pk == Some(pk) && p.msg.op != D;
    PostOrigin(q, p);
  }

  /** The row that did. */
  ghost function Writer(q: Request, pk: Pk): (from: Pk)
    requires ValidRequest(q) && Converges(q) && pk in q.missing
    ensures from in q.missing && Replicate(q.env, q.t, from).msg.pk == Some(pk)
  {
    MissingIsWritten(q, pk);
    var from :| from in q.missing && Replicate(q.env, q.t, from).msg.pk == Some(pk);
    from
  }

  lemma {:induction false} WriterDrifts(q: Request, pk: Pk)
    requires ValidRequest(q) && ValidRuntime(q.env.rt) && Converges(q) && pk in q.missing
    ensures var from := Writer(q, pk); from == pk || KeyDrift(q.env.rt, pk) < KeyDrift(q.env.rt, from)
  {
    var from := Writer(q, pk);
    FixKeyReadsComponents(q.env.rt, q.t.rows[from].row, q.t.cols, from, pk);
    KeyDrifts(q.env.rt, from, pk);
  }

  lemma {:induction false} WritersAreThemselves(q: Request, pk: Pk)
    requires ValidRequest(q) && ValidRuntime(q.env.rt) && Converges(q) && pk in q.missing
    ensures Writer(q, pk) == pk
  {
    var source := map x | x in q.missing :: Writer(q, x);
    var rank := map x | x in q.missing :: KeyDrift(q.env.rt, x);
    forall x | x in source ensures Climbs(source, rank, x) {
      WriterDrifts(q, x);
    }
    OntoIsIdentity(source, rank, pk);
  }

  lemma {:induction false} ConvergedRowsReadable(q: Request)
    requires ValidRequest(q) && ValidRuntime(q.env.rt) && Converges(q)
    ensures RowsReadable(q)
  {
    forall pk | pk in q.missing ensures RowReadable(q.env, q.t, pk) {
      WritersAreThemselves(q, pk);
      ReplicateReads(q.env, q.t, pk);
    }
  }

  /** And every ghost has been deleted under its key by some ghost. */
  lemma {:induction false} GhostIsDeleted(q: Request, pk: Pk)
    requires ValidRequest(q) && Converges(q) && RowsReadable(q) && pk in q.ghosts
    ensures exists from :: from in q.ghosts && Retract(q.env, q.t, from)[0].msg.pk == Some(pk)
  {
    PostsInRange(q);
    ChangeNeedsPost(q.topic, Posts(q), pk);
    var p :| p in Posts(q) && p.msg.pk == Some(pk);
    PostOrigin(q, p);
    if from :| from in q.missing && from !in q.skip && p == Replicate(q.env, q.t, from) {
      ReplicateReads(q.env, q.t, from);
    } else {
      var from :| from in q.ghosts && p in Retract(q.env, q.t, from);
      RetractReads(q.env, q.t, from, pk);
    }
  }

  ghost function Deleter(q: Request, pk: Pk): (from: Pk)
    requires ValidRequest(q) && Converges(q) && RowsReadable(q) && pk in q.ghosts
    ensures from in q.ghosts && Retract(q.env, q.t, from)[0].msg.pk == Some(pk)
  {
    GhostIsDeleted(q, pk);
    var from :| from in q.ghosts && Retract(q.env, q.t, from)[0].msg.pk == Some(pk);
    from
  }

  lemma {:induction false} DeleterShrinks(q: Request, pk: Pk)
    requires ValidRequest(q) && ValidRuntime(q.env.rt) && Converges(q) && RowsReadable(q) && pk in q.ghosts
    ensures var from := Deleter(q, pk); from == pk || TextSize(pk) < TextSize(from)
  {
    var from := Deleter(q, pk);
    RetractReads(q.env, q.t, from, pk);
    TextShrinks(q.env.rt, from, pk);
  }

  lemma {:induction false} DeletersAreThemselves(q: Request, pk: Pk)
    requires ValidRequest(q) && ValidRuntime(q.env.rt) && Converges(q) && RowsReadable(q) && pk in q.ghosts
    ensures Deleter(q, pk) == pk
  {
    var source := map x | x in q.ghosts :: Deleter(q, x);
    var rank := map x | x in q.ghosts :: TextSize(x);
    forall x | x in source ensures Climbs(source, rank, x) {
      DeleterShrinks(q, x);
    }
    OntoIsIdentity(source, rank, pk);
  }

  lemma {:induction false} ConvergedGhostsReadable(q: Request)
    requires ValidRequest(q) && ValidRuntime(q.env.rt) && Converges(q) && RowsReadable(q)
    ensures Readable(q)
  {
    forall pk | pk in q.ghosts ensures GhostReadable(q.env, q.t, pk) {
      DeletersAreThemselves(q, pk);
      RetractReads(q.env, q.t, pk, pk);
    }
  }

  // ---- Convergence ----

  /**
    Reconciliation converges, for any log and source, exactly when every key of the request can be read back and
    the request settles.
   */
  lemma {:induction false} FixConverges(q: Request)
    requires ValidRequest(q) && ValidRuntime(q.env.rt)
    ensures Converges(q) <==> Readable(q) && Settles(q)
  {
    if Converges(q) {
      ConvergedRowsReadable(q);
      ConvergedGhostsReadable(q);
    }
    if Readable(q) {
      ReadableConverges(q);
    }
  }

  /** Comparing again finds nothing exactly when the request could be read back and settled; then everything matches. */
  lemma {:induction false} NextCompareIsClean(q: Request, missing: seq<Pk>, ghosts: seq<Pk>, matched: int)
    requires ValidRequest(q) && ValidRuntime(q.env.rt)
    requires IsDiff(q.t.rows.Keys, View(Fixed(q)), missing, ghosts, matched)
    ensures missing == [] && ghosts == [] <==> Readable(q) && Settles(q)
    ensures missing == [] && ghosts == [] ==> matched == |q.t.rows|
  {
    FixConverges(q);
    assert LiveKeys(View(Fixed(q))) == Live(Fixed(q));
    EmptyDiff(q.t.rows.Keys, View(Fixed(q)), missing, ghosts, matched);
  }

  /** With one partition nothing can come after, so only key texts, the pre-check and an op column stand in the way. */
  lemma {:induction false} OnePartitionConverges(q: Request)
    requires ValidRequest(q) && ValidRuntime(q.env.rt) && |q.topic| == 1
    ensures Converges(q) <==>
            Readable(q) && forall pk :: pk in q.missing ==> pk !in q.skip && FixOp(q.t.rows[pk]) != D
  {
    FixConverges(q);
    OnePartitionSettles(q);
  }

  lemma {:induction false} OnePartitionSettles(q: Request)
    requires ValidRequest(q) && |q.topic| == 1
    ensures Settles(q) <==> forall pk :: pk in q.missing ==> pk !in q.skip && FixOp(q.t.rows[pk]) != D
  {
    forall pk, to: nat ensures !OccursAfter(q.topic, to, pk) {
    }
    if Settles(q) {
      forall pk | pk in q.missing ensures pk !in q.skip && FixOp(q.t.rows[pk]) != D {
        assert Lands(q, pk);
      }
    }
  }

  // ---- Replaying a request ----

  /** The messages of posts that go to partition j. */
  function PartOf(posts: seq<Post>, j: nat): seq<Msg> {
    if posts == [] then []
    else
      var p := posts[|posts| - 1];
      PartOf(posts[..|posts| - 1], j) + if p.partition == j then [p.msg] else []
  }

  lemma {:induction false} ApplyAt(topic: Topic, posts: seq<Post>, j: nat)
    requires forall p :: p in posts ==> p.partition < |topic|
    requires j < |topic|
    ensures Apply(topic, posts)[j] == topic[j] + PartOf(posts, j)
  {
    if posts != [] {
      ApplyAt(topic, posts[..|posts| - 1], j);
    }
  }

  lemma {:induction false} ViewByPartition(a: Topic, b: Topic)
    requires |a| == |b|
    requires forall j :: 0 <= j < |a| ==> LastWrites(a[j]) == LastWrites(b[j])
    ensures View(a) == View(b)
  {
    if a != [] {
      ViewByPartition(a[..|a| - 1], b[..|b| - 1]);
    }
  }

  /** Sending the same messages twice leaves the same view as sending them once, whatever they are. */
  lemma {:induction false} ReplayIsIdempotent(topic: Topic, posts: seq<Post>)
    requires forall p :: p in posts ==> p.partition < |topic|
    ensures View(Apply(Apply(topic, posts), posts)) == View(Apply(topic, posts))
  {
    var once := Apply(topic, posts);
    var twice := Apply(once, posts);
    forall j | 0 <= j < |topic| ensures LastWrites(twice[j]) == LastWrites(once[j]) {
      ApplyAt(topic, posts, j);
      ApplyAt(once, posts, j);
      var part := PartOf(posts, j);
      LastWritesConcat(topic[j], part);
      LastWritesConcat(topic[j] + part, part);
    }
    ViewByPartition(twice, once);
  }

  /** The request sent again, when its pre-check finds other keys alive. */
  function Again(q: Request, skip: set<Pk>): Request { q.(skip := skip) }

  /** Where the posts of a readable request that carry pk go, and with which operation. */
  lemma {:induction false} PostsOf(q: Request, pk: Pk, p: Post)
    requires ValidRequest(q) && Readable(q) && p in Posts(q) && p.msg.pk == Some(pk)
    ensures || (pk in q.missing && p == Replicate(q.env, q.t, pk))
            || (pk in q.ghosts && p.partition == q.env.route(GhostKeyFor(pk, q.t.cols)) && p.msg.op == D)
  {
    ReadableIsOwnOnly(q, pk);
    PostOrigin(q, p);
  }

  lemma {:induction false} ReplayAt(q: Request, skip: set<Pk>, pk: Pk)
    requires ValidRequest(q) && Readable(q) && Settles(q) && Converges(q)
    requires forall p :: p in Posts(q) || p in Posts(Again(q, skip)) ==> p.partition < |q.topic|
    ensures pk in Live(Apply(Fixed(q), Posts(Again(q, skip)))) <==> pk in q.t.rows
  {
    var posts, replay := Posts(q), Posts(Again(q, skip));
    var to, op := if pk in q.missing then q.env.route(KeyFor(q.t.rows[pk].row, q.t.cols))
                  else if pk in q.ghosts then q.env.route(GhostKeyFor(pk, q.t.cols)) else 0,
                  if pk in q.missing then FixOp(q.t.rows[pk]) else D;
    forall p | p in posts && p.msg.pk == Some(pk) ensures p.partition == to && p.msg.op == op {
      PostsOf(q, pk, p);
    }
    forall p | p in replay && p.msg.pk == Some(pk)
      ensures p.partition == to && p.msg.op == op && (pk in q.missing || pk in q.ghosts)
    {
      PostsOf(Again(q, skip), pk, p);
    }
    ViewApply(q.topic, posts, pk, to, op);
    ViewApply(Fixed(q), replay, pk, to, op);
  }

  /** Sending a request that converged again, whatever its pre-check now skips, leaves the topic reconciled. */
  lemma {:induction false} ReplayKeepsConvergence(q: Request, skip: set<Pk>)
    requires ValidRequest(q) && ValidRuntime(q.env.rt) && Converges(q)
    ensures forall p :: p in Posts(Again(q, skip)) ==> p.partition < |q.topic|
    ensures Live(Apply(Fixed(q), Posts(Again(q, skip)))) == q.t.rows.Keys
  {
    PostsInRange(q);
    PostsInRange(Again(q, skip));
    FixConverges(q);
    var live := Live(Apply(Fixed(q), Posts(Again(q, skip))));
    forall pk ensures pk in live <==> pk in q.t.rows.Keys {
      ReplayAt(q, skip, pk);
    }
  }

  // ---- Where convergence fails ----

  /** A table with one row under the given key text, and a topic that has nothing yet. */
  function OneRow(text: string): Table {
    Table(["k"], {"k"}, map[[text] := SourceRow(map["k" := Some(text)], false)])
  }

  function OneRowRequest(env: Env, text: string): Request {
    Request(env, OneRow(text), [[]], [[text]], [], {})
  }

  lemma {:induction false} OneRowIsValid(env: Env, text: string)
    requires ValidEnv(env, 1)
    ensures ValidRequest(OneRowRequest(env, text))
  {
    var q := OneRowRequest(env, text);
    OnePartition([]);
    assert q.missing[0] in q.missing;
  }

  /**
    A key with a TAB, or with a backslash before a t, such as a Windows path: the targeted reader finds it once it
    is written, if it survives otherwise, and the full scan never does, so that for it the row stays missing.
   */
  lemma {:induction false} AwkwardKeyStaysMissing(env: Env, text: string)
    requires Awkward(text) && Survives(env.rt, text) && ValidRuntime(env.rt) && ValidEnv(env, 1)
    ensures var q := OneRowRequest(env, text); ValidRequest(q) && (Converges(q) <==> env.splitter == AtTab)
  {
    var q := OneRowRequest(env, text);
    OneRowIsValid(env, text);
    OnePartitionConverges(q);
    OneRowReadable(env, text);
    assert Readable(q) <==> RowReadable(env, q.t, [text]) by {
      assert [text] in q.missing;
    }
  }

  lemma {:induction false} OneRowReadable(env: Env, text: string)
    ensures RowReadable(env, OneRow(text), [text]) <==>
            Survives(env.rt, text) && (env.splitter == AtTab || !Awkward(text))
  {
    assert [text][0] == text && text in [text];
    assert !Awkward("k");
  }

  lemma {:induction false} PaddedReads(rt: Runtime, digits: string)
    requires AllDigits(digits) && ParseNat("0" + digits) <= MAX_SAFE_INTEGER
    ensures var s, cols := "0" + digits, ["k"];
            var row := map["k" := Some(s)];
            Show(ParseNat(s)) != s && ReadPk(rt, KeyFor(row, cols), AfterFor(row), cols) == Some([Show(ParseNat(s))])
  {
    var s, cols := "0" + digits, ["k"];
    var row := map["k" := Some(s)];
    assert forall i :: 1 <= i < |s| ==> s[i] == digits[i - 1];
    assert IsInteger(s) && !IsCanonical(s) && s[0] != '-';
    PrintedIsCanonical(s);
    var key := KeyFor(row, cols);
    assert key["k"] == Num(ParseNat(s)) && NormaliseMongoPkPayload(key) == key;
    PkOfExactly(rt, key, cols, [Show(ParseNat(s))]);
  }

  /** One message into an empty partition is all that is live then. */
  lemma {:induction false} OneMessage(p: Post, pk: Pk)
    requires p.partition == 0 && p.msg == Msg(Some(pk), R)
    ensures Live(Apply([[]], [p])) == {pk}
  {
    assert [p][..0] == [] && [] + [p.msg] == [p.msg];
    assert Apply([[]], [p]) == [[p.msg]];
    OnePartition([p.msg]);
    assert [p.msg][..0] == [] && LastWrites([p.msg]) == map[pk := R];
  }

  /**
    Once its row is fetched, a zero-padded number is written without its padding: the fix adds a stray key, and the
    row stays missing.
   */
  lemma {:induction false} PaddedKeyGoesAstray(env: Env, digits: string)
    requires AllDigits(digits) && ParseNat("0" + digits) <= MAX_SAFE_INTEGER && ValidEnv(env, 1)
    ensures var q := OneRowRequest(env, "0" + digits);
            ValidRequest(q) && !Converges(q) && Live(Fixed(q)) == {[Show(ParseNat("0" + digits))]}
  {
    var q := OneRowRequest(env, "0" + digits);
    OneRowIsValid(env, "0" + digits);
    PaddedReads(env.rt, digits);
    OnePost(env, q.t, ["0" + digits]);
    OneMessage(Replicate(env, q.t, ["0" + digits]), [Show(ParseNat("0" + digits))]);
    assert ["0" + digits][0] != [Show(ParseNat("0" + digits))][0] && ["0" + digits] in q.t.rows;
  }

  lemma {:induction false} OnePost(env: Env, t: Table, pk: Pk)
    requires pk in t.rows
    ensures FixPosts(env, t, [pk], [], {}) == [Replicate(env, t, pk)]
  {
    assert [pk][..0] == [];
    assert Replications(env, t, [pk], {}) == [Replicate(env, t, pk)];
  }

  lemma {:induction false} OnePartition(log: Partition)
    ensures View([log]) == LastWrites(log)
  {
    assert [log][..0] == [];
  }

  /**
    A ghost's key is written as text, the original as a number, so the producer may route them differently:
    with the original in a later partition, the delete is overridden and the ghost stays.
   */
  lemma {:induction false} GhostInLaterPartitionStays(rt: Runtime)
    requires ValidRuntime(rt)
    ensures var q := SplitRequest(rt); ValidRequest(q) && Readable(q) && !Converges(q)
  {
    var q, pk := SplitRequest(rt), ["5"];
    SplitIsValid(rt);
    SplitTopicView();
    GhostKeyForOne("k", "5");
    assert OccursAfter(q.topic, 0, pk);
    FixConverges(q);
    assert pk in q.ghosts && !Retracts(q, pk);
  }

  lemma {:induction false} GhostKeyForOne(col: string, text: string)
    ensures GhostKeyFor([text], [col]) == map[col := Str(text)]
  {
    assert [col][..0] == [] && [text][..0] == [];
  }

  lemma {:induction false} SplitIsValid(rt: Runtime)
    ensures ValidRequest(SplitRequest(rt)) && Readable(SplitRequest(rt))
  {
    var q, pk := SplitRequest(rt), ["5"];
    SplitTopicView();
    assert Trim("5") == "5";
    assert Enumerates([], q.t.rows.Keys - Live(q.topic)) && Enumerates([pk], Live(q.topic) - q.t.rows.Keys);
  }

  /** An empty source, and key 5 in the second of two partitions, where its number was routed. */
  function SplitRequest(rt: Runtime): Request {
    Request(Env(rt, (key: Payload) => if key == map["k" := Str("5")] then 0 else 1, AtPair),
            Table(["k"], {"k"}, map[]), SplitTopic(), [], [["5"]], {})
  }

  /** Key 5 lives in the second of two partitions. */
  function SplitTopic(): Topic { [[], [Msg(Some(["5"]), R)]] }

  lemma {:induction false} SplitTopicView()
    ensures Live(SplitTopic()) == {["5"]}
    ensures Occurs(SplitTopic()[1], ["5"])
  {
    var topic := SplitTopic();
    var log := topic[1];
    assert log[0].pk == Some(["5"]) && log[..0] == [];
    assert LastWrites(log) == map[["5"] := R];
    assert topic[..1] == [[]] && topic[..1][..0] == [];
    assert View(topic[..1]) == map[];
    assert View(topic) == map[["5"] := R];
  }

  lemma {:induction false} UnreadablePosts(topic: Topic, posts: seq<Post>)
    requires forall p :: p in posts ==> p.partition < |topic| && p.msg.pk.None?
    ensures View(Apply(topic, posts)) == View(topic)
  {
    if posts != [] {
      var init, p := posts[..|posts| - 1], posts[|posts| - 1];
      UnreadablePosts(topic, init);
      ViewAppend(Apply(topic, init), p.partition, p.msg);
    }
  }

  lemma {:induction false} PkOfMissingColumn(rt: Runtime, p: Payload, cols: seq<string>, c: string)
    requires c in cols && c !in p
    ensures PkOf(rt, p, cols).None?
  {
    if PkOf(rt, p, cols).Some? {
      PkOfExactly(rt, p, cols, PkOf(rt, p, cols).value);
    }
  }

  lemma {:induction false} IdTableReplicate(env: Env, t: Table, pk: Pk)
    requires ValidTable(t) && LosesId(t.cols, t.columns) && pk in t.rows
    ensures Replicate(env, t, pk).msg.pk.None?
  {
    var row := t.rows[pk].row;
    IdRenamedAway(KeyFor(row, t.cols));
    IdRenamedAway(AfterFor(row));
    PkOfMissingColumn(env.rt, NormaliseMongoPkPayload(KeyFor(row, t.cols)), t.cols, "id");
    PkOfMissingColumn(env.rt, NormaliseMongoPkPayload(AfterFor(row)), t.cols, "id");
  }

  lemma {:induction false} IdTablePosts(q: Request, p: Post)
    requires ValidRequest(q) && LosesId(q.t.cols, q.t.columns) && q.ghosts == [] && p in Posts(q)
    ensures p.msg.pk.None?
  {
    PostOrigin(q, p);
    var pk :| pk in q.missing && p == Replicate(q.env, q.t, pk);
    IdTableReplicate(q.env, q.t, pk);
  }

  lemma {:induction false} IdRenamedAway(p: Payload)
    requires "_id" !in p
    ensures "id" !in NormaliseMongoPkPayload(p)
  {
  }

  /**
    A table whose key has a column id and that has no column _id: the reader takes every message for a MongoDB
    one and finds no key in it, so no fix of missing rows ever changes what compare sees.
   */
  lemma {:induction false} IdTablesNeverConverge(q: Request)
    requires ValidRequest(q) && LosesId(q.t.cols, q.t.columns) && q.ghosts == []
    ensures View(Fixed(q)) == View(q.topic)
    ensures Converges(q) <==> q.missing == []
  {
    PostsInRange(q);
    forall p | p in Posts(q) ensures p.msg.pk.None? {
      IdTablePosts(q, p);
    }
    UnreadablePosts(q.topic, Posts(q));
    if q.missing != [] {
      assert q.missing[0] in q.missing;
    } else {
      assert q.t.rows.Keys == Live(q.topic);
    }
  }
}
