/**
  Looking up many keys in a ksqlDB table by pull queries of at most 500 keys each.  The query reader stops once
  it holds as many rows as the LIMIT it finds in the query text, or 500 if it finds none.
 */
module PullQuery {
  import opened Prelude

  type Key = string
  type Payload = string
  type Table = map<Key, Payload>

  const BATCH: nat := 500
  const DEFAULT_MAX_ROWS: nat := 500

  /**
    The server and the text: answer gives the rows for a list of keys in the server's own order, and limitIn
    the number after the first LIMIT in the text of their query, which the reader looks for in key texts too.
   */
  datatype Ksql = Ksql(answer: seq<Key> -> seq<(Key, Payload)>, limitIn: seq<Key> -> Option<nat>)

  predicate DistinctKeys(rows: seq<(Key, Payload)>) {
    forall i, j :: 0 <= i < j < |rows| ==> rows[i].0 != rows[j].0
  }

  /** The server answers each query with exactly the rows of the table for its keys, once each. */
  ghost predicate Serves(ksql: Ksql, table: Table) {
    forall keys :: AnswersFor(ksql.answer(keys), keys, table)
  }

  ghost predicate AnswersFor(rows: seq<(Key, Payload)>, keys: seq<Key>, table: Table) {
    && DistinctKeys(rows)
    && (forall r :: r in rows ==> r.0 in keys && r.0 in table && table[r.0] == r.1)
    && (forall k :: k in keys && k in table ==> (k, table[k]) in rows)
  }

  function MaxRows(limit: Option<nat>): nat {
    if limit.Some? then limit.value else DEFAULT_MAX_ROWS
  }

  /** How many rows are read at most: the reader checks after adding a row, so never less than one. */
  function Cap(ksql: Ksql, keys: seq<Key>): nat {
    var n := MaxRows(ksql.limitIn(keys));
    if n == 0 then 1 else n
  }

  function Read(ksql: Ksql, keys: seq<Key>): seq<(Key, Payload)> {
    var rows := ksql.answer(keys);
    if |rows| <= Cap(ksql, keys) then rows else rows[..Cap(ksql, keys)]
  }

  /** At most as many rows are read as the LIMIT says, or 500 without one, but one at least if there is one. */
  lemma {:induction false} ReadMeans(ksql: Ksql, keys: seq<Key>)
    ensures Read(ksql, keys) <= ksql.answer(keys)
    ensures var rows, limit := |ksql.answer(keys)|, ksql.limitIn(keys);
            |Read(ksql, keys)| ==
            if limit == None then (if rows < 500 then rows else 500)
            else if limit == Some(0) then (if rows < 1 then rows else 1)
            else if rows < limit.value then rows else limit.value
  {
  }

  method KsqlQuery(ksql: Ksql, keys: seq<Key>) returns (rows: seq<(Key, Payload)>)
    ensures rows == Read(ksql, keys)
  {
    var limit := ksql.limitIn(keys);
    var maxRows := if limit.Some? then limit.value else DEFAULT_MAX_ROWS;
    var stream := ksql.answer(keys);
    rows := [];
    var i := 0;
    while i < |stream|
      invariant 0 <= i <= |stream| && rows == stream[..i]
      invariant i == 0 || i < maxRows
    {
      rows := rows + [stream[i]];
      i := i + 1;
      if |rows| >= maxRows {
        return;
      }
    }
  }

  function AsMap(rows: seq<(Key, Payload)>): Table {
    if rows == [] then map[] else AsMap(rows[..|rows| - 1])[rows[|rows| - 1].0 := rows[|rows| - 1].1]
  }

  /** The union over the batches. */
  function Pulled(ksql: Ksql, keys: seq<Key>): Table
    decreases |keys|
  {
    if keys == [] then map[]
    else if |keys| <= BATCH then AsMap(Read(ksql, keys))
    else AsMap(Read(ksql, keys[..BATCH])) + Pulled(ksql, keys[BATCH..])
  }

  method AddRows(pkMap: Table, rows: seq<(Key, Payload)>) returns (r: Table)
    ensures r == pkMap + AsMap(rows)
  {
    r := pkMap;
    for k := 0 to |rows|
      invariant r == pkMap + AsMap(rows[..k])
    {
      assert rows[..k + 1][..k] == rows[..k];
      r := r[rows[k].0 := rows[k].1];
    }
    assert rows[..|rows|] == rows;
  }

  method PullByPKs(ksql: Ksql, keys: seq<Key>) returns (pkMap: Table)
    ensures pkMap == Pulled(ksql, keys)
  {
    pkMap := map[];
    var rest := keys;
    while rest != []
      invariant Pulled(ksql, keys) == pkMap + Pulled(ksql, rest)
      decreases |rest|
    {
      var n := if |rest| < BATCH then |rest| else BATCH;
      PulledStep(ksql, rest, n);
      var rows := KsqlQuery(ksql, rest[..n]);
      ghost var before := pkMap;
      pkMap := AddRows(pkMap, rows);
      rest := rest[n..];
      Regroup(before, AsMap(rows), Pulled(ksql, rest));
    }
  }

  lemma {:induction false} Regroup(a: Table, b: Table, c: Table)
    ensures a + (b + c) == (a + b) + c
  {
  }

  lemma {:induction false} PulledStep(ksql: Ksql, keys: seq<Key>, n: nat)
    requires keys != [] && n == if |keys| < BATCH then |keys| else BATCH
    ensures Pulled(ksql, keys) == AsMap(Read(ksql, keys[..n])) + Pulled(ksql, keys[n..])
  {
    if |keys| <= BATCH {
      assert keys[..n] == keys && keys[n..] == [];
    }
  }

  /** One lookup of all keys at once, unlimited. */
  function Lookup(table: Table, keys: seq<Key>): Table {
    map k | k in table && k in keys :: table[k]
  }

  lemma {:induction false} AsMapAt(rows: seq<(Key, Payload)>, k: Key)
    ensures k in AsMap(rows) <==> exists i :: 0 <= i < |rows| && rows[i].0 == k
    ensures DistinctKeys(rows) ==> forall i :: 0 <= i < |rows| && rows[i].0 == k ==> AsMap(rows)[k] == rows[i].1
  {
    if rows != [] {
      AsMapAt(rows[..|rows| - 1], k);
    }
  }

  /** What is read is always right; it is all there unless the answer was cut. */
  lemma {:induction false} ReadAt(ksql: Ksql, table: Table, keys: seq<Key>, k: Key)
    requires Serves(ksql, table)
    ensures k in AsMap(Read(ksql, keys)) ==> k in keys && k in table && AsMap(Read(ksql, keys))[k] == table[k]
    ensures |Lookup(table, keys)| <= Cap(ksql, keys) && k in keys && k in table ==> k in AsMap(Read(ksql, keys))
  {
    var rows, read := ksql.answer(keys), Read(ksql, keys);
    AnswerSize(ksql, table, keys);
    assert AnswersFor(rows, keys, table);
    assert read <= rows;
    AsMapAt(read, k);
    if k in AsMap(read) {
      var i :| 0 <= i < |read| && read[i].0 == k;
      assert rows[i] in rows;
    }
    if |rows| <= Cap(ksql, keys) && k in keys && k in table {
      var i :| 0 <= i < |rows| && rows[i] == (k, table[k]);
      assert read[i].0 == k;
    }
  }

  /** The batches that a list of keys is cut into. */
  function Batches(keys: seq<Key>): seq<seq<Key>>
    decreases |keys|
  {
    if keys == [] then [] else if |keys| <= BATCH then [keys] else [keys[..BATCH]] + Batches(keys[BATCH..])
  }

  function Joined(batches: seq<seq<Key>>): seq<Key> {
    if batches == [] then [] else batches[0] + Joined(batches[1..])
  }

  /** The batches make up the keys in their order, 500 to each but the last. */
  lemma {:induction false} BatchesMean(keys: seq<Key>)
    ensures Joined(Batches(keys)) == keys
    ensures forall i :: 0 <= i < |Batches(keys)| - 1 ==> |Batches(keys)[i]| == 500
    ensures Batches(keys) != [] ==> 0 < |Batches(keys)[|Batches(keys)| - 1]| <= 500
    decreases |keys|
  {
    if |keys| > 500 {
      BatchesMean(keys[500..]);
      var rest := Batches(keys[500..]);
      assert Batches(keys) == [keys[..500]] + rest && ([keys[..500]] + rest)[1..] == rest;
      assert keys == keys[..500] + keys[500..];
    } else if keys != [] {
      assert [keys][1..] == [];
      assert keys + [] == keys;
    }
  }

  /** What is pulled is what the batches give, one after another. */
  lemma {:induction false} PulledByBatches(ksql: Ksql, keys: seq<Key>, k: Key)
    ensures k in Pulled(ksql, keys) <==> exists b :: b in Batches(keys) && k in AsMap(Read(ksql, b))
    decreases |keys|
  {
    if |keys| > BATCH {
      var head, tail := keys[..BATCH], keys[BATCH..];
      PulledByBatches(ksql, tail, k);
      assert Batches(keys) == [head] + Batches(tail);
      assert forall b :: b in Batches(keys) <==> b == head || b in Batches(tail);
    } else if keys != [] {
      assert Batches(keys) == [keys];
    }
  }

  /** In no batch are more keys in the table than the LIMIT that its text shows, or the default, allows. */
  predicate NoBatchIsCut(ksql: Ksql, table: Table, keys: seq<Key>) {
    forall b :: b in Batches(keys) ==> |Lookup(table, b)| <= Cap(ksql, b)
  }

  function RowKeys(rows: seq<(Key, Payload)>): set<Key> {
    set i | 0 <= i < |rows| :: rows[i].0
  }

  lemma {:induction false} RowKeyCount(rows: seq<(Key, Payload)>)
    requires DistinctKeys(rows)
    ensures |RowKeys(rows)| == |rows|
  {
    if rows != [] {
      var n := |rows| - 1;
      RowKeyCount(rows[..n]);
      assert RowKeys(rows) == RowKeys(rows[..n]) + {rows[n].0};
    }
  }

  /** The server's answer is as long as there are keys of the batch in the table. */
  lemma {:induction false} AnswerSize(ksql: Ksql, table: Table, keys: seq<Key>)
    requires Serves(ksql, table)
    ensures |ksql.answer(keys)| == |Lookup(table, keys)|
  {
    var rows := ksql.answer(keys);
    assert AnswersFor(rows, keys, table);
    RowKeyCount(rows);
    forall k ensures k in RowKeys(rows) <==> k in Lookup(table, keys) {
      if k in RowKeys(rows) {
        var i :| 0 <= i < |rows| && rows[i].0 == k;
        assert rows[i] in rows;
      }
      if k in Lookup(table, keys) {
        var i :| 0 <= i < |rows| && rows[i] == (k, table[k]);
        assert rows[i].0 in RowKeys(rows);
      }
    }
    assert RowKeys(rows) == Lookup(table, keys).Keys;
  }

  predicate Distinct(keys: seq<Key>) {
    forall i, j :: 0 <= i < j < |keys| ==> keys[i] != keys[j]
  }

  lemma {:induction false} PulledIsSound(ksql: Ksql, table: Table, keys: seq<Key>, k: Key)
    requires Serves(ksql, table)
    ensures k in Pulled(ksql, keys) ==> k in keys && k in table && Pulled(ksql, keys)[k] == table[k]
    decreases |keys|
  {
    if keys != [] {
      if |keys| <= BATCH {
        ReadAt(ksql, table, keys, k);
      } else {
        ReadAt(ksql, table, keys[..BATCH], k);
        PulledIsSound(ksql, table, keys[BATCH..], k);
      }
    }
  }

  lemma {:induction false} UncutIsComplete(ksql: Ksql, table: Table, keys: seq<Key>, k: Key)
    requires Serves(ksql, table) && NoBatchIsCut(ksql, table, keys) && k in keys && k in table
    ensures k in Pulled(ksql, keys)
    decreases |keys|
  {
    if |keys| <= BATCH {
      assert Batches(keys)[0] == keys;
      ReadAt(ksql, table, keys, k);
    } else {
      var head, tail := keys[..BATCH], keys[BATCH..];
      assert Batches(keys) == [head] + Batches(tail);
      assert Batches(keys)[0] == head;
      assert forall b :: b in Batches(tail) ==> b in Batches(keys);
      assert keys == head + tail;
      if k in head {
        ReadAt(ksql, table, head, k);
      } else {
        UncutIsComplete(ksql, table, tail, k);
      }
    }
  }

  /** Nothing is lost when no batch is cut, whatever the number of keys, distinct or not. */
  lemma {:induction false} UncutIsExact(ksql: Ksql, table: Table, keys: seq<Key>)
    requires Serves(ksql, table) && NoBatchIsCut(ksql, table, keys)
    ensures Pulled(ksql, keys) == Lookup(table, keys)
  {
    forall k ensures k in Pulled(ksql, keys) <==> k in Lookup(table, keys) {
      PulledIsSound(ksql, table, keys, k);
      if k in keys && k in table {
        UncutIsComplete(ksql, table, keys, k);
      }
    }
    forall k | k in Pulled(ksql, keys) ensures Pulled(ksql, keys)[k] == table[k] {
      PulledIsSound(ksql, table, keys, k);
    }
  }

  lemma {:induction false} LookupNoLongerThanBatch(table: Table, keys: seq<Key>)
    ensures |Lookup(table, keys)| <= |keys|
  {
    var asked := set i | 0 <= i < |keys| :: keys[i];
    KeyCount(keys);
    assert Lookup(table, keys).Keys <= asked;
    SubsetSize(Lookup(table, keys).Keys, asked);
  }

  lemma {:induction false} KeyCount(keys: seq<Key>)
    ensures |set i | 0 <= i < |keys| :: keys[i]| <= |keys|
  {
    if keys != [] {
      var n := |keys| - 1;
      var init := keys[..n];
      KeyCount(init);
      var before := set i | 0 <= i < n :: init[i];
      assert (set i | 0 <= i < |keys| :: keys[i]) == before + {keys[n]};
    }
  }

  lemma {:induction false} SubsetSize<T>(a: set<T>, b: set<T>)
    requires a <= b
    ensures |a| <= |b|
  {
    assert b == a + (b - a);
  }

  lemma {:induction false} BatchesAreSmall(keys: seq<Key>)
    ensures forall b :: b in Batches(keys) ==> |b| <= BATCH
    decreases |keys|
  {
    if |keys| > BATCH {
      BatchesAreSmall(keys[BATCH..]);
    }
  }

  /** The default cap never cuts a batch, so queries without a LIMIT in their text lose nothing. */
  lemma {:induction false} DefaultCapLosesNothing(ksql: Ksql, table: Table, keys: seq<Key>)
    requires Serves(ksql, table)
    requires forall b :: b in Batches(keys) ==> ksql.limitIn(b).None?
    ensures Pulled(ksql, keys) == Lookup(table, keys)
  {
    forall b | b in Batches(keys) ensures |Lookup(table, b)| <= Cap(ksql, b) {
      BatchesAreSmall(keys);
      LookupNoLongerThanBatch(table, b);
    }
    UncutIsExact(ksql, table, keys);
  }

  /** A row past the cap is lost for good. */
  lemma {:induction false} CutRowIsLost(ksql: Ksql, table: Table, batch: seq<Key>) returns (k: Key)
    requires Serves(ksql, table) && |Lookup(table, batch)| > Cap(ksql, batch)
    ensures k in batch && k in table && k !in AsMap(Read(ksql, batch))
  {
    var rows, cap := ksql.answer(batch), Cap(ksql, batch);
    AnswerSize(ksql, table, batch);
    assert AnswersFor(rows, batch, table);
    k := rows[cap].0;
    assert rows[cap] in rows;
    AsMapAt(Read(ksql, batch), k);
  }

  lemma {:induction false} CutLosesSomething(ksql: Ksql, table: Table, keys: seq<Key>) returns (k: Key)
    requires Serves(ksql, table) && Distinct(keys) && !NoBatchIsCut(ksql, table, keys)
    ensures k in keys && k in table && k !in Pulled(ksql, keys)
    decreases |keys|
  {
    var b :| b in Batches(keys) && |Lookup(table, b)| > Cap(ksql, b);
    if |keys| <= BATCH {
      assert b == keys;
      k := CutRowIsLost(ksql, table, keys);
    } else {
      var head, tail := keys[..BATCH], keys[BATCH..];
      assert Batches(keys) == [head] + Batches(tail);
      if b == head {
        k := CutRowIsLost(ksql, table, head);
      } else {
        assert b in Batches(tail);
        k := CutLosesSomething(ksql, table, tail);
      }
      NotInBoth(keys, k);
      ReadAt(ksql, table, head, k);
      PulledIsSound(ksql, table, tail, k);
    }
  }

  lemma {:induction false} NotInBoth(keys: seq<Key>, k: Key)
    requires Distinct(keys) && |keys| > BATCH
    ensures k in keys[..BATCH] || k in keys[BATCH..] ==> k in keys
    ensures !(k in keys[..BATCH] && k in keys[BATCH..])
  {
  }

  /** For distinct keys, the union over the batches is the one lookup exactly when no batch is cut. */
  lemma {:induction false} PullIsExactIffUncut(ksql: Ksql, table: Table, keys: seq<Key>)
    requires Serves(ksql, table) && Distinct(keys)
    ensures Pulled(ksql, keys) == Lookup(table, keys) <==> NoBatchIsCut(ksql, table, keys)
  {
    if NoBatchIsCut(ksql, table, keys) {
      UncutIsExact(ksql, table, keys);
    } else {
      var k := CutLosesSomething(ksql, table, keys);
      assert k in Lookup(table, keys);
    }
  }

  /** A server that answers in the order of the keys. */
  function ServerRows(table: Table, keys: seq<Key>): seq<(Key, Payload)> {
    if keys == [] then []
    else
      var init, k := keys[..|keys| - 1], keys[|keys| - 1];
      ServerRows(table, init) + if k in table && k !in init then [(k, table[k])] else []
  }

  lemma {:induction false} ServerAnswers(table: Table, keys: seq<Key>)
    ensures AnswersFor(ServerRows(table, keys), keys, table)
  {
    if keys != [] {
      var init, k := keys[..|keys| - 1], keys[|keys| - 1];
      ServerAnswers(table, init);
      assert forall x :: x in keys <==> x in init || x == k;
      var earlier := ServerRows(table, init);
      assert forall i :: 0 <= i < |earlier| ==> earlier[i] in earlier;
    }
  }

  /** That server, and a reader that takes the text of one particular key for a LIMIT of 1. */
  function KsqlWithLimitIn(table: Table, culprit: Key): Ksql {
    Ksql(keys => ServerRows(table, keys), keys => if culprit in keys then Some(1) else None)
  }

  /** Two keys of the table, one of them reading like a LIMIT of 1: the other row is lost. */
  lemma {:induction false} LimitInKeyLosesRow(table: Table, culprit: Key, other: Key)
    requires culprit != other && culprit in table && other in table
    ensures var ksql := KsqlWithLimitIn(table, culprit);
            Serves(ksql, table) && Pulled(ksql, [culprit, other]) != Lookup(table, [culprit, other])
  {
    var ksql, keys := KsqlWithLimitIn(table, culprit), [culprit, other];
    forall ks ensures AnswersFor(ksql.answer(ks), ks, table) {
      ServerAnswers(table, ks);
    }
    assert keys[0] == culprit && Batches(keys)[0] == keys;
    assert Lookup(table, keys).Keys == {culprit, other};
    PullIsExactIffUncut(ksql, table, keys);
  }
}
