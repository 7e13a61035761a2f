/**
  Merge-on-read: position-delete files are turned into an index from data file to dropped positions, and each
  data file is read with its positions dropped.
 */
module PositionDeletes {
  import opened Prelude
  import opened LiveFiles

  /** Row pos of the data file at path is deleted. */
  datatype Delete = Delete(path: string, pos: int)

  /** A manifest entry for a delete file, with what the file holds. */
  datatype DeleteEntry = DeleteEntry(path: string, records: seq<Delete>)

  datatype DataEntry<R> = DataEntry(status: int, path: string, rows: seq<R>)

  type Index = map<string, set<int>>

  // ---- The index ----

  function AddDelete(index: Index, d: Delete): Index {
    var key := Norm(d.path);
    index[key := (if key in index then index[key] else {}) + {d.pos}]
  }

  function IndexOf(records: seq<Delete>): Index {
    if records == [] then map[] else AddDelete(IndexOf(records[..|records| - 1]), records[|records| - 1])
  }

  function RecordsOf(entries: seq<DeleteEntry>): seq<Delete> {
    if entries == [] then []
    else
      var last := entries[|entries| - 1];
      RecordsOf(entries[..|entries| - 1]) + if last.path == "" then [] else last.records
  }

  /** Setting a key that is then set again. */
  lemma {:induction false} SetTwice(index: Index, key: string, first: set<int>, second: set<int>)
    ensures index[key := first][key := second] == index[key := second]
  {
  }

  lemma {:induction false} IndexStep(records: seq<Delete>, more: seq<Delete>, k: nat)
    requires k < |more|
    ensures IndexOf(records + more[..k + 1]) == AddDelete(IndexOf(records + more[..k]), more[k])
  {
    assert (records + more[..k + 1])[..|records| + k] == records + more[..k];
  }

  method BuildIndex(entries: seq<DeleteEntry>) returns (posDeletes: Index)
    ensures posDeletes == IndexOf(RecordsOf(entries))
  {
    posDeletes := map[];
    for i := 0 to |entries|
      invariant posDeletes == IndexOf(RecordsOf(entries[..i]))
    {
      assert entries[..i + 1][..i] == entries[..i];
      ghost var before := RecordsOf(entries[..i]);
      assert before + [] == before;
      if entries[i].path == "" {
        continue;
      }
      var records := entries[i].records;
      for k := 0 to |records|
        invariant posDeletes == IndexOf(before + records[..k])
      {
        IndexStep(before, records, k);
        var nk := Norm(records[k].path);
        SetTwice(posDeletes, nk, {}, {} + {records[k].pos});
        if nk !in posDeletes {
          posDeletes := posDeletes[nk := {}];
        }
        posDeletes := posDeletes[nk := posDeletes[nk] + {records[k].pos}];
      }
      assert records[..|records|] == records;
    }
    assert entries[..|entries|] == entries;
  }

  function Dead(index: Index, path: string): set<int> {
    if Norm(path) in index then index[Norm(path)] else {}
  }

  predicate NamedIn(records: seq<Delete>, path: string, pos: int) {
    exists d :: d in records && Norm(d.path) == Norm(path) && d.pos == pos
  }

  /** Is position pos of the file named by a record of some delete file, in either spelling of the path? */
  predicate Named(deletes: seq<DeleteEntry>, path: string, pos: int) {
    exists e :: e in deletes && e.path != "" && NamedIn(e.records, path, pos)
  }

  lemma {:induction false} RecordsExact(records: seq<Delete>, path: string, pos: int)
    ensures pos in Dead(IndexOf(records), path) <==> NamedIn(records, path, pos)
  {
    if records != [] {
      var init, last := records[..|records| - 1], records[|records| - 1];
      RecordsExact(init, path, pos);
      assert forall d :: d in records <==> d in init || d == last;
    }
  }

  lemma {:induction false} RecordsOfAll(deletes: seq<DeleteEntry>, d: Delete)
    ensures d in RecordsOf(deletes) <==> exists e :: e in deletes && e.path != "" && d in e.records
  {
    if deletes != [] {
      var init, last := deletes[..|deletes| - 1], deletes[|deletes| - 1];
      RecordsOfAll(init, d);
      assert forall e :: e in deletes <==> e in init || e == last;
    }
  }

  /** The index over all delete files holds a position exactly when a record of one of them names it. */
  lemma {:induction false} IndexExact(deletes: seq<DeleteEntry>, path: string, pos: int)
    ensures pos in Dead(IndexOf(RecordsOf(deletes)), path) <==> Named(deletes, path, pos)
  {
    RecordsExact(RecordsOf(deletes), path, pos);
    if d :| d in RecordsOf(deletes) && Norm(d.path) == Norm(path) && d.pos == pos {
      RecordsOfAll(deletes, d);
    }
    if e :| e in deletes && e.path != "" && NamedIn(e.records, path, pos) {
      var d :| d in e.records && Norm(d.path) == Norm(path) && d.pos == pos;
      RecordsOfAll(deletes, d);
    }
  }

  // ---- Reading the data files ----

  /** Dropping the labels in dead from a frame whose rows are numbered from 0. */
  function Drop<R>(rows: seq<R>, dead: set<int>): seq<R> {
    if rows == [] then []
    else
      var n := |rows| - 1;
      Drop(rows[..n], dead) + if n in dead then [] else [rows[n]]
  }

  predicate InRange(dead: set<int>, n: nat) {
    forall p :: p in dead ==> 0 <= p < n
  }

  predicate IsRead<R>(e: DataEntry<R>) { e.status != 0 && e.path != "" }

  function ReadAll<R>(entries: seq<DataEntry<R>>, index: Index): Option<seq<R>> {
    if entries == [] then Some([])
    else
      var last := entries[|entries| - 1];
      match ReadAll(entries[..|entries| - 1], index)
      case None => None
      case Some(earlier) =>
        if !IsRead(last) then Some(earlier)
        else if !InRange(Dead(index, last.path), |last.rows|) then None
        else Some(earlier + Drop(last.rows, Dead(index, last.path)))
  }

  method ApplyDeletes<R>(entries: seq<DataEntry<R>>, posDeletes: Index) returns (final: Option<seq<R>>, totalRaw: nat)
    ensures final == ReadAll(entries, posDeletes)
    ensures final.Some? ==> totalRaw == RawCount(entries)
  {
    var frames: seq<R> := [];
    totalRaw := 0;
    for i := 0 to |entries|
      invariant ReadAll(entries[..i], posDeletes) == Some(frames)
      invariant totalRaw == RawCount(entries[..i])
    {
      assert entries[..i + 1][..i] == entries[..i];
      var e := entries[i];
      if e.status == 0 || e.path == "" {
        continue;
      }
      totalRaw := totalRaw + |e.rows|;
      var dead := if Norm(e.path) in posDeletes then posDeletes[Norm(e.path)] else {};
      if dead != {} {
        if exists p :: p in dead && !(0 <= p < |e.rows|) {
          ReadAllFails(entries, posDeletes, i);
          return None, totalRaw;
        }
        frames := frames + Drop(e.rows, dead);
      } else {
        DropNothing(e.rows);
        frames := frames + e.rows;
      }
    }
    assert entries[..|entries|] == entries;
    final := Some(frames);
  }

  lemma {:induction false} ReadAllFails<R>(entries: seq<DataEntry<R>>, index: Index, i: nat)
    requires i < |entries| && IsRead(entries[i]) && !InRange(Dead(index, entries[i].path), |entries[i].rows|)
    ensures ReadAll(entries, index).None?
  {
    if i < |entries| - 1 {
      ReadAllFails(entries[..|entries| - 1], index, i);
    }
  }

  lemma {:induction false} DropNothing<R>(rows: seq<R>)
    ensures Drop(rows, {}) == rows
  {
    if rows != [] {
      DropNothing(rows[..|rows| - 1]);
    }
  }

  function RawCount<R>(entries: seq<DataEntry<R>>): nat {
    if entries == [] then 0
    else
      var last := entries[|entries| - 1];
      RawCount(entries[..|entries| - 1]) + if IsRead(last) then |last.rows| else 0
  }

  // ---- Against the naive anti-join ----

  /** The rows of one file that no delete record names, in order. */
  function Unnamed<R>(deletes: seq<DeleteEntry>, path: string, rows: seq<R>): seq<R> {
    if rows == [] then []
    else
      var n := |rows| - 1;
      Unnamed(deletes, path, rows[..n]) + if Named(deletes, path, n) then [] else [rows[n]]
  }

  /** Those of all files with a path and a status other than 0. */
  function AntiJoin<R>(deletes: seq<DeleteEntry>, entries: seq<DataEntry<R>>): seq<R> {
    if entries == [] then []
    else
      var last := entries[|entries| - 1];
      AntiJoin(deletes, entries[..|entries| - 1]) +
      if last.status == 0 || last.path == "" then [] else Unnamed(deletes, last.path, last.rows)
  }

  /** Every record that names a file which is read names a row of it. */
  ghost predicate AllInRange<R(!new)>(deletes: seq<DeleteEntry>, entries: seq<DataEntry<R>>) {
    forall e, pos :: e in entries && e.status != 0 && e.path != "" && Named(deletes, e.path, pos) ==>
      0 <= pos < |e.rows|
  }

  lemma {:induction false} DropIsUnnamed<R>(deletes: seq<DeleteEntry>, path: string, rows: seq<R>)
    ensures Drop(rows, Dead(IndexOf(RecordsOf(deletes)), path)) == Unnamed(deletes, path, rows)
  {
    if rows != [] {
      DropIsUnnamed(deletes, path, rows[..|rows| - 1]);
      IndexExact(deletes, path, |rows| - 1);
    }
  }

  lemma {:induction false} RangeExact(deletes: seq<DeleteEntry>, path: string, n: nat)
    ensures InRange(Dead(IndexOf(RecordsOf(deletes)), path), n) <==>
            forall pos :: Named(deletes, path, pos) ==> 0 <= pos < n
  {
    var dead := Dead(IndexOf(RecordsOf(deletes)), path);
    if InRange(dead, n) {
      forall pos | Named(deletes, path, pos) ensures 0 <= pos < n {
        IndexExact(deletes, path, pos);
      }
    } else {
      var p :| p in dead && !(0 <= p < n);
      IndexExact(deletes, path, p);
    }
  }

  /**
    The indexed read succeeds exactly when all delete positions of the files read are in range, and then it is
    the naive anti-join: in order, the rows that no record of any delete file names.
   */
  lemma {:induction false} IndexedReadIsAntiJoin<R(!new)>(deletes: seq<DeleteEntry>, entries: seq<DataEntry<R>>)
    ensures var index := IndexOf(RecordsOf(deletes));
            && (ReadAll(entries, index).Some? <==> AllInRange(deletes, entries))
            && (AllInRange(deletes, entries) ==> ReadAll(entries, index) == Some(AntiJoin(deletes, entries)))
  {
    if entries != [] {
      var init, last := entries[..|entries| - 1], entries[|entries| - 1];
      IndexedReadIsAntiJoin(deletes, init);
      assert forall e :: e in entries <==> e in init || e == last;
      if IsRead(last) {
        RangeExact(deletes, last.path, |last.rows|);
        DropIsUnnamed(deletes, last.path, last.rows);
      } else {
        assert AntiJoin(deletes, init) + [] == AntiJoin(deletes, init);
      }
    }
  }

  /** Only which rows are named matters: delete files may be cut up, reordered, repeated and respelled. */
  lemma {:induction false} DeleteOrderIrrelevant<R(!new)>(a: seq<DeleteEntry>, b: seq<DeleteEntry>,
          entries: seq<DataEntry<R>>)
    requires forall path, pos :: Named(a, path, pos) <==> Named(b, path, pos)
    ensures ReadAll(entries, IndexOf(RecordsOf(a))) == ReadAll(entries, IndexOf(RecordsOf(b)))
  {
    if entries != [] {
      DeleteOrderIrrelevant(a, b, entries[..|entries| - 1]);
      var path := entries[|entries| - 1].path;
      var inA, inB := Dead(IndexOf(RecordsOf(a)), path), Dead(IndexOf(RecordsOf(b)), path);
      forall pos ensures pos in inA <==> pos in inB {
        IndexExact(a, path, pos);
        IndexExact(b, path, pos);
      }
      assert inA == inB;
    }
  }

  /** In particular for the same delete files in another order and number. */
  lemma {:induction false} DeleteFilesAnyOrder<R(!new)>(a: seq<DeleteEntry>, b: seq<DeleteEntry>,
          entries: seq<DataEntry<R>>)
    requires forall e :: e in a <==> e in b
    ensures ReadAll(entries, IndexOf(RecordsOf(a))) == ReadAll(entries, IndexOf(RecordsOf(b)))
  {
    DeleteOrderIrrelevant(a, b, entries);
  }

  // ---- How many rows are left ----

  function Below(dead: set<int>, n: nat): set<int> {
    set p | p in dead && 0 <= p < n
  }

  lemma {:induction false} BelowStep(dead: set<int>, n: nat)
    ensures Below(dead, n + 1) == if n in dead then Below(dead, n) + {n} else Below(dead, n)
  {
  }

  lemma {:induction false} DropCount<R>(rows: seq<R>, dead: set<int>)
    ensures |Drop(rows, dead)| == |rows| - |Below(dead, |rows|)|
  {
    if rows != [] {
      var n := |rows| - 1;
      DropCount(rows[..n], dead);
      BelowStep(dead, n);
    }
  }

  function Pairs(path: string, dead: set<int>): set<(string, int)> {
    set p | p in dead :: (path, p)
  }

  /** The distinct rows, by file and position, that records name in the files that are read. */
  function NamedRows<R>(index: Index, entries: seq<DataEntry<R>>): set<(string, int)> {
    if entries == [] then {}
    else
      var last := entries[|entries| - 1];
      NamedRows(index, entries[..|entries| - 1]) +
      if IsRead(last) then Pairs(Norm(last.path), Dead(index, last.path)) else {}
  }

  predicate ListedOnce<R>(entries: seq<DataEntry<R>>) {
    forall i, j :: 0 <= i < j < |entries| && IsRead(entries[i]) && IsRead(entries[j]) ==>
      Norm(entries[i].path) != Norm(entries[j].path)
  }

  lemma {:induction false} NamedRowsAt<R>(index: Index, entries: seq<DataEntry<R>>, path: string, pos: int)
    ensures (path, pos) in NamedRows(index, entries) <==>
            exists i :: 0 <= i < |entries| && IsRead(entries[i]) && Norm(entries[i].path) == path &&
                        pos in Dead(index, entries[i].path)
  {
    if entries != [] {
      var n := |entries| - 1;
      NamedRowsAt(index, entries[..n], path, pos);
      assert (path, pos) in Pairs(Norm(entries[n].path), Dead(index, entries[n].path)) <==>
             Norm(entries[n].path) == path && pos in Dead(index, entries[n].path);
    }
  }

  lemma {:induction false} PairsAdd(path: string, dead: set<int>, p: int)
    requires p !in dead
    ensures Pairs(path, dead + {p}) == Pairs(path, dead) + {(path, p)}
    ensures (path, p) !in Pairs(path, dead)
    ensures |Pairs(path, dead + {p})| == |Pairs(path, dead)| + 1
  {
  }

  lemma {:induction false} NoPairs(path: string, dead: set<int>)
    ensures |Pairs(path, Below(dead, 0))| == |Below(dead, 0)|
  {
    assert Below(dead, 0) == {};
    assert Pairs(path, {}) == {};
  }

  lemma {:induction false} PairStep(path: string, small: set<int>, big: set<int>, p: int)
    requires p !in small && |Pairs(path, small)| == |small|
    requires big == small || big == small + {p}
    ensures |Pairs(path, big)| == |big|
  {
    if big != small {
      PairsAdd(path, small, p);
    }
  }

  lemma {:induction false} PairCount(path: string, dead: set<int>, n: nat)
    ensures |Pairs(path, Below(dead, n))| == |Below(dead, n)|
  {
    if n == 0 {
      NoPairs(path, dead);
    } else {
      PairCount(path, dead, n - 1);
      BelowStep(dead, n - 1);
      PairStep(path, Below(dead, n - 1), Below(dead, n), n - 1);
    }
  }

  /** Each further file takes its own dead positions with it. */
  lemma {:induction false} RowsLeftByIndex<R>(index: Index, entries: seq<DataEntry<R>>)
    requires ReadAll(entries, index).Some? && ListedOnce(entries)
    ensures |ReadAll(entries, index).value| == RawCount(entries) - |NamedRows(index, entries)|
  {
    if entries != [] {
      var n := |entries| - 1;
      var last := entries[n];
      RowsLeftByIndex(index, entries[..n]);
      if IsRead(last) {
        var dead := Dead(index, last.path);
        var before, pairs := NamedRows(index, entries[..n]), Pairs(Norm(last.path), dead);
        DropCount(last.rows, dead);
        assert Below(dead, |last.rows|) == dead;
        PairCount(Norm(last.path), dead, |last.rows|);
        forall x | x in before && x in pairs ensures false {
          NamedRowsAt(index, entries[..n], x.0, x.1);
        }
        assert before !! pairs;
      }
    }
  }

  predicate ReadsFile<R>(entries: seq<DataEntry<R>>, path: string) {
    exists i :: 0 <= i < |entries| && entries[i].status != 0 && entries[i].path != "" &&
                Norm(entries[i].path) == Norm(path)
  }

  /** The distinct rows, by file and position, that the records of a delete file name in the files that are read. */
  function NamedInFile<R>(records: seq<Delete>, entries: seq<DataEntry<R>>): set<(string, int)> {
    set d | d in records && ReadsFile(entries, d.path) :: (Norm(d.path), d.pos)
  }

  /** And those of all delete files. */
  function NamedBy<R>(deletes: seq<DeleteEntry>, entries: seq<DataEntry<R>>): set<(string, int)> {
    if deletes == [] then {}
    else
      var last := deletes[|deletes| - 1];
      NamedBy(deletes[..|deletes| - 1], entries) + if last.path == "" then {} else NamedInFile(last.records, entries)
  }

  lemma {:induction false} NamedByAt<R>(deletes: seq<DeleteEntry>, entries: seq<DataEntry<R>>, path: string, pos: int)
    ensures (path, pos) in NamedBy(deletes, entries) <==>
            exists e, d :: e in deletes && e.path != "" && d in e.records && ReadsFile(entries, d.path) &&
                           (Norm(d.path), d.pos) == (path, pos)
  {
    if deletes != [] {
      var init, last := deletes[..|deletes| - 1], deletes[|deletes| - 1];
      NamedByAt(init, entries, path, pos);
      assert forall e :: e in deletes <==> e in init || e == last;
    }
  }

  lemma {:induction false} NamedRowsExact<R>(deletes: seq<DeleteEntry>, entries: seq<DataEntry<R>>)
    ensures NamedRows(IndexOf(RecordsOf(deletes)), entries) == NamedBy(deletes, entries)
  {
    var index := IndexOf(RecordsOf(deletes));
    forall x ensures x in NamedRows(index, entries) <==> x in NamedBy(deletes, entries) {
      var (path, pos) := x;
      NamedRowsAt(index, entries, path, pos);
      NamedByAt(deletes, entries, path, pos);
      if (path, pos) in NamedRows(index, entries) {
        var i :| 0 <= i < |entries| && IsRead(entries[i]) && Norm(entries[i].path) == path &&
                 pos in Dead(index, entries[i].path);
        IndexExact(deletes, entries[i].path, pos);
        var e :| e in deletes && e.path != "" && NamedIn(e.records, entries[i].path, pos);
        var d :| d in e.records && Norm(d.path) == path && d.pos == pos;
        assert ReadsFile(entries, d.path);
      }
      if (path, pos) in NamedBy(deletes, entries) {
        var e, d :| e in deletes && e.path != "" && d in e.records && ReadsFile(entries, d.path) &&
                    (Norm(d.path), d.pos) == (path, pos);
        var i :| 0 <= i < |entries| && entries[i].status != 0 && entries[i].path != "" && Norm(entries[i].path) == path;
        IndexExact(deletes, entries[i].path, pos);
        assert NamedIn(e.records, entries[i].path, pos);
      }
    }
  }

  /** With each file listed once, as many rows go as there are distinct rows that records name in the files read. */
  lemma {:induction false} RowsLeft<R(!new)>(deletes: seq<DeleteEntry>, entries: seq<DataEntry<R>>)
    requires AllInRange(deletes, entries) && ListedOnce(entries)
    ensures |AntiJoin(deletes, entries)| == RawCount(entries) - |NamedBy(deletes, entries)|
    ensures ReadAll(entries, IndexOf(RecordsOf(deletes))) == Some(AntiJoin(deletes, entries))
  {
    IndexedReadIsAntiJoin(deletes, entries);
    RowsLeftByIndex(IndexOf(RecordsOf(deletes)), entries);
    NamedRowsExact(deletes, entries);
  }
}
