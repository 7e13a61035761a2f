/**
  Which data files of an Iceberg snapshot are live, as the multi-table reader decides it.  It numbers manifest
  entry statuses 0 deleted, 1 existing, 2 added, and lets a deleted entry win over any other.
 */
module LiveFiles {
  import opened Prelude

  // ---- Path spelling ----

  const S3A := "s3a://"
  const S3 := "s3://"

  /** Every s3a:// becomes s3://. */
  function Norm(p: string): string
  {
    if |p| >= 6 && p[..6] == S3A then S3 + Norm(p[6..])
    else if p == "" then ""
    else [p[0]] + Norm(p[1..])
  }

  ghost predicate HasS3aAt(s: string, i: int) {
    0 <= i <= |s| && S3A <= s[i..]
  }

  lemma {:induction false} DropPast(a: string, b: string, i: int)
    requires |a| <= i <= |a| + |b|
    ensures (a + b)[i..] == b[i - |a|..]
  {
  }

  lemma {:induction false} NormStep(p: string)
    requires p != "" && !(S3A <= p)
    ensures Norm(p) == [p[0]] + Norm(p[1..])
  {
    assert |p| >= 6 ==> p[..6] != S3A;
  }

  lemma {:induction false} NormReplace(p: string)
    requires S3A <= p
    ensures Norm(p) == S3 + Norm(p[6..])
  {
    assert p[..6] == S3A;
  }

  /** A stretch without an s comes through the replacement unchanged, and only from itself. */
  lemma {:induction false} NormPrefix(p: string, tail: string)
    requires tail <= Norm(p) && forall i :: 0 <= i < |tail| ==> tail[i] != 's'
    ensures tail <= p
  {
    if tail != "" {
      assert Norm(p)[0] == tail[0];
      if S3A <= p {
        NormReplace(p);
        assert false;
      }
      NormStep(p);
      assert Norm(p)[1..] == Norm(p[1..]);
      NormPrefix(p[1..], tail[1..]);
      assert tail == [tail[0]] + tail[1..] && p == [p[0]] + p[1..];
    }
  }

  lemma {:induction false} NotInsideS3(rest: string, i: int)
    requires HasS3aAt(S3 + rest, i)
    ensures i >= 5
  {
    var n := S3 + rest;
    assert n[i..][0] == 's' && n[i..][2] == 'a';
    assert n[0] == 's' && n[1] == '3' && n[2] == ':' && n[3] == '/' && n[4] == '/';
  }

  lemma {:induction false} NotAtStart(p: string)
    requires p != "" && !(S3A <= p)
    ensures !HasS3aAt([p[0]] + Norm(p[1..]), 0)
  {
    var n := [p[0]] + Norm(p[1..]);
    if S3A <= n[0..] {
      assert n[0..] == n && n[0] == 's';
      assert "3a://" <= Norm(p[1..]) by { assert n[1..] == Norm(p[1..]); }
      NormPrefix(p[1..], "3a://");
      assert false;
    }
  }

  lemma {:induction false} NormIsClean(p: string, i: int)
    ensures !HasS3aAt(Norm(p), i)
  {
    if p != "" && HasS3aAt(Norm(p), i) {
      if S3A <= p {
        NormReplace(p);
        NotInsideS3(Norm(p[6..]), i);
        DropPast(S3, Norm(p[6..]), i);
        NormIsClean(p[6..], i - 5);
      } else {
        NormStep(p);
        NotAtStart(p);
        DropPast([p[0]], Norm(p[1..]), i);
        NormIsClean(p[1..], i - 1);
      }
    }
  }

  /** Text without an s3a:// stays as it is. */
  lemma {:induction false} CleanIsKept(s: string)
    requires forall i :: !HasS3aAt(s, i)
    ensures Norm(s) == s
  {
    if s != "" {
      assert s[0..] == s && !HasS3aAt(s, 0);
      NormStep(s);
      forall i ensures !HasS3aAt(s[1..], i) {
        if 0 <= i <= |s| - 1 {
          assert s[1..][i..] == s[i + 1..] && !HasS3aAt(s, i + 1);
        }
      }
      CleanIsKept(s[1..]);
    }
  }

  /** Normalising twice is normalising once. */
  lemma {:induction false} NormIdempotent(p: string)
    ensures Norm(Norm(p)) == Norm(p)
  {
    forall i ensures !HasS3aAt(Norm(p), i) {
      NormIsClean(p, i);
    }
    CleanIsKept(Norm(p));
  }

  lemma {:induction false} NormCons(c: char, rest: string)
    requires c != 's' || (|rest| >= 2 && rest[1] != 'a')
    ensures Norm([c] + rest) == [c] + Norm(rest)
  {
    var p := [c] + rest;
    assert p[1..] == rest && p[0] == c && (|rest| >= 2 ==> p[2] == rest[1]);
    NormStep(p);
  }

  /** The two spellings of a location normalise alike. */
  lemma {:induction false} NormIsSpellingBlind(p: string)
    ensures Norm(S3A + p) == S3 + Norm(p)
    ensures Norm(S3 + p) == S3 + Norm(p)
  {
    assert (S3A + p)[6..] == p;
    NormReplace(S3A + p);
    NormS3(p);
  }

  lemma {:induction false} NormS3(p: string)
    ensures Norm(S3 + p) == S3 + Norm(p)
  {
    NormThree(p);
    var rest := "3://" + p;
    assert rest[1] == ':';
    NormCons('s', rest);
    assert S3 + p == ['s'] + rest;
    assert S3 + Norm(p) == ['s'] + ("3://" + Norm(p));
  }

  lemma {:induction false} NormThree(p: string)
    ensures Norm("3://" + p) == "3://" + Norm(p)
  {
    NormSlashes(p);
    NormCons('3', "://" + p);
    assert "3://" + p == ['3'] + ("://" + p);
    assert "3://" + Norm(p) == ['3'] + ("://" + Norm(p));
  }

  lemma {:induction false} NormSlashes(p: string)
    ensures Norm("://" + p) == "://" + Norm(p)
  {
    assert "://" + p == [':'] + (['/'] + (['/'] + p));
    assert "://" + Norm(p) == [':'] + (['/'] + (['/'] + Norm(p)));
    NormCons('/', p);
    NormCons('/', ['/'] + p);
    NormCons(':', ['/'] + (['/'] + p));
  }

  /** An occurrence cannot begin inside text of less than six characters and end in an s3a:// behind it. */
  lemma {:induction false} NoOverlap(a: string, b: string)
    requires a != "" && S3A <= a + S3A + b
    ensures S3A <= a
  {
    var s := a + S3A + b;
    assert s[|a|] == 's';
  }

  /** Wherever s3a:// stands it is replaced, and the text before and behind it is normalised on its own. */
  lemma {:induction false} NormReplacesEach(a: string, b: string)
    ensures Norm(a + S3A + b) == Norm(a) + S3 + Norm(b)
  {
    if a == "" {
      assert a + S3A + b == S3A + b && (S3A + b)[6..] == b;
      NormReplace(S3A + b);
    } else if S3A <= a {
      ReplaceFirst(a, b);
      NormReplacesEach(a[6..], b);
      Regroup(S3, Norm(a[6..]), Norm(b));
    } else {
      PassFirst(a, b);
      NormReplacesEach(a[1..], b);
      Regroup([a[0]], Norm(a[1..]), Norm(b));
    }
  }

  lemma {:induction false} Regroup(x: string, y: string, z: string)
    ensures (x + y) + S3 + z == x + (y + S3 + z)
  {
  }

  lemma {:induction false} ReplaceFirst(a: string, b: string)
    requires S3A <= a
    ensures Norm(a) == S3 + Norm(a[6..]) && Norm(a + S3A + b) == S3 + Norm(a[6..] + S3A + b)
  {
    var s := a + S3A + b;
    assert S3A <= s && s[6..] == a[6..] + S3A + b;
    NormReplace(a);
    NormReplace(s);
  }

  lemma {:induction false} PassFirst(a: string, b: string)
    requires a != "" && !(S3A <= a)
    ensures Norm(a) == [a[0]] + Norm(a[1..]) && Norm(a + S3A + b) == [a[0]] + Norm(a[1..] + S3A + b)
  {
    var s := a + S3A + b;
    assert s[0] == a[0] && s[1..] == a[1..] + S3A + b;
    if S3A <= s {
      NoOverlap(a, b);
    }
    NormStep(a);
    NormStep(s);
  }

  // ---- Manifests ----

  datatype FileRef = FileRef(content: int, path: string)

  datatype Row = Row(dataFile: Option<FileRef>, deletedFile: Option<FileRef>, status: int)

  datatype Manifest = Manifest(content: int, rows: seq<Row>)

  /** A normalised path and a status, for a row that names a data file. */
  type Entry = (string, int)

  function EntryOf(row: Row): Option<Entry> {
    var df := if row.dataFile.Some? then row.dataFile else row.deletedFile;
    if df.None? || df.value.content != 0 || Norm(df.value.path) == "" then None
    else Some((Norm(df.value.path), row.status))
  }

  function Entries(rows: seq<Row>): seq<Entry> {
    if rows == [] then []
    else
      var e := EntryOf(rows[|rows| - 1]);
      Entries(rows[..|rows| - 1]) + if e.Some? then [e.value] else []
  }

  // ---- The dedup ----

  /** The status dictionary and the order in which its keys came up. */
  datatype Statuses = Statuses(of: map<string, int>, order: seq<string>)

  function Note(s: Statuses, e: Entry): Statuses {
    var (path, status) := e;
    if path !in s.of then Statuses(s.of[path := status], s.order + [path])
    else if status == 0 then s.(of := s.of[path := 0])
    else if s.of[path] != 0 && status == 2 then s.(of := s.of[path := 2])
    else s
  }

  function Fold(entries: seq<Entry>): Statuses {
    if entries == [] then Statuses(map[], [])
    else Note(Fold(entries[..|entries| - 1]), entries[|entries| - 1])
  }

  function LivePaths(s: Statuses): seq<string> {
    Keep(s.order, (p: string) => p in s.of && (s.of[p] == 1 || s.of[p] == 2))
  }

  datatype Resolution = MorSkip | Live(files: seq<string>)

  predicate IsDeleteManifest(m: Manifest) { m.content == 1 }

  /** The rows of all data manifests, in order. */
  function DataRows(manifests: seq<Manifest>): seq<Row> {
    if manifests == [] then []
    else
      var last := manifests[|manifests| - 1];
      DataRows(manifests[..|manifests| - 1]) + if last.content == 0 then last.rows else []
  }

  lemma {:induction false} FoldRow(rows: seq<Row>, i: nat)
    requires i < |rows|
    ensures var e, before := EntryOf(rows[i]), Fold(Entries(rows[..i]));
            Fold(Entries(rows[..i + 1])) == if e.None? then before else Note(before, e.value)
  {
    var e, before := EntryOf(rows[i]), Entries(rows[..i]);
    assert rows[..i + 1][..i] == rows[..i];
    if e.None? {
      assert before + [] == before;
    } else {
      assert (before + [e.value])[..|before|] == before;
    }
  }

  predicate HasDeletes(manifests: seq<Manifest>) {
    exists m :: m in manifests && IsDeleteManifest(m)
  }

  /** The live files of a snapshot, in the order in which they came up. */
  function Resolve(manifests: seq<Manifest>): Resolution {
    if HasDeletes(manifests) then MorSkip else Live(LivePaths(Fold(Entries(DataRows(manifests)))))
  }

  method ResolveLiveFiles(manifests: seq<Manifest>) returns (r: Resolution)
    ensures r == Resolve(manifests)
  {
    var allRows := [];
    for i := 0 to |manifests|
      invariant forall j :: 0 <= j < i ==> !IsDeleteManifest(manifests[j])
      invariant allRows == DataRows(manifests[..i])
    {
      assert manifests[..i + 1][..i] == manifests[..i];
      if manifests[i].content == 1 {
        assert IsDeleteManifest(manifests[i]);
        return MorSkip;
      }
      if manifests[i].content == 0 {
        allRows := allRows + manifests[i].rows;
      }
    }
    assert manifests[..|manifests|] == manifests;
    var fileStatus := Statuses(map[], []);
    for i := 0 to |allRows|
      invariant fileStatus == Fold(Entries(allRows[..i]))
    {
      FoldRow(allRows, i);
      var e := EntryOf(allRows[i]);
      if e.None? {
        continue;
      }
      var path, status := e.value.0, e.value.1;
      if path !in fileStatus.of {
        fileStatus := Statuses(fileStatus.of[path := status], fileStatus.order + [path]);
      } else if status == 0 {
        fileStatus := fileStatus.(of := fileStatus.of[path := 0]);
      } else if fileStatus.of[path] != 0 && status == 2 {
        fileStatus := fileStatus.(of := fileStatus.of[path := 2]);
      }
    }
    assert allRows[..|allRows|] == allRows;
    r := Live(LivePaths(fileStatus));
  }

  // ---- What is live ----

  predicate KnownStatuses(entries: seq<Entry>) {
    forall e :: e in entries ==> e.1 == 0 || e.1 == 1 || e.1 == 2
  }

  predicate NoDuplicates(s: seq<string>) {
    forall i, j :: 0 <= i < j < |s| ==> s[i] != s[j]
  }

  /** Read as "added beats existing, deleted beats both", the fold keeps the strongest status of each path. */
  lemma {:induction false} FoldIsStrongest(entries: seq<Entry>, path: string)
    requires KnownStatuses(entries)
    ensures var s := Fold(entries);
            && (path in s.of <==> exists e :: e in entries && e.0 == path)
            && (path in s.of <==> path in s.order)
            && NoDuplicates(s.order)
            && (path in s.of ==>
                  && (s.of[path] == 0 <==> (path, 0) in entries)
                  && (s.of[path] == 2 <==> (path, 2) in entries && (path, 0) !in entries)
                  && (s.of[path] == 0 || s.of[path] == 1 || s.of[path] == 2))
  {
    if entries != [] {
      var init, last := entries[..|entries| - 1], entries[|entries| - 1];
      assert forall e :: e in entries <==> e in init || e == last;
      FoldIsStrongest(init, path);
      FoldIsStrongest(init, last.0);
    }
  }

  /** Deleted wins: the live files are those with an entry and no deleted entry, each listed once. */
  lemma {:induction false} LiveExactly(entries: seq<Entry>, path: string)
    requires KnownStatuses(entries)
    ensures path in LivePaths(Fold(entries)) <==> (exists e :: e in entries && e.0 == path) && (path, 0) !in entries
    ensures NoDuplicates(LivePaths(Fold(entries)))
  {
    FoldIsStrongest(entries, path);
    var s := Fold(entries);
    KeepNoDuplicates(s.order, (p: string) => p in s.of && (s.of[p] == 1 || s.of[p] == 2));
  }

  lemma {:induction false} KeepNoDuplicates(s: seq<string>, p: string -> bool)
    requires NoDuplicates(s)
    ensures NoDuplicates(Keep(s, p))
  {
    if s != [] {
      var init := s[..|s| - 1];
      KeepNoDuplicates(init, p);
      forall x | x in Keep(init, p) ensures x != s[|s| - 1] {
        assert x in init;
      }
      var r := Keep(s, p);
      forall i, j | 0 <= i < j < |r| ensures r[i] != r[j] {
        assert r[i] in Keep(init, p);
      }
    }
  }

  /** The status that a path came with first, if it came up at all. */
  function FirstStatus(entries: seq<Entry>, path: string): (r: Option<int>)
    ensures r.Some? ==> (path, r.value) in entries
    ensures r.None? ==> forall e :: e in entries ==> e.0 != path
  {
    if entries == [] then None
    else
      var earlier, last := FirstStatus(entries[..|entries| - 1], path), entries[|entries| - 1];
      if earlier.Some? then earlier else if last.0 == path then Some(last.1) else None
  }

  lemma {:induction false} FirstStatusOf(e: Entry, entries: seq<Entry>)
    ensures FirstStatus([e] + entries, e.0) == Some(e.1)
  {
    if entries == [] {
      assert [e] + entries == [e] && [e][..0] == [];
    } else {
      assert ([e] + entries)[..|entries|] == [e] + entries[..|entries| - 1];
      FirstStatusOf(e, entries[..|entries| - 1]);
    }
  }

  /**
    What the fold holds for a path whatever the statuses are: a status that it does not know counts only if it
    comes first.
   */
  lemma {:induction false} FoldAt(entries: seq<Entry>, path: string)
    ensures var s, first := Fold(entries), FirstStatus(entries, path);
            && (path in s.of <==> first.Some?) && (path in s.order <==> first.Some?)
            && (first.Some? ==>
                  s.of[path] == if (path, 0) in entries then 0 else if (path, 2) in entries then 2 else first.value)
  {
    if entries != [] {
      var init, last := entries[..|entries| - 1], entries[|entries| - 1];
      FoldAt(init, path);
      FoldAt(init, last.0);
      assert forall e :: e in entries <==> e in init || e == last;
    }
  }

  lemma {:induction false} LiveAt(entries: seq<Entry>, path: string)
    ensures path in LivePaths(Fold(entries)) <==>
            (path, 0) !in entries && ((path, 2) in entries || FirstStatus(entries, path) == Some(1))
  {
    FoldAt(entries, path);
  }

  ghost predicate SameEntries(a: seq<Entry>, b: seq<Entry>) {
    forall e :: e in a <==> e in b
  }

  /**
    A path that is neither deleted nor added, and comes both as existing and with some status outside the
    numbering.
   */
  ghost predicate Ambiguous(entries: seq<Entry>, path: string) {
    && (path, 0) !in entries && (path, 2) !in entries && (path, 1) in entries
    && exists e :: e in entries && e.0 == path && e.1 != 1
  }

  ghost predicate SomeAmbiguous(entries: seq<Entry>) {
    exists path :: Ambiguous(entries, path)
  }

  lemma {:induction false} UnambiguousLive(a: seq<Entry>, b: seq<Entry>, path: string)
    requires SameEntries(a, b) && !Ambiguous(a, path)
    ensures path in LivePaths(Fold(a)) <==> path in LivePaths(Fold(b))
  {
    LiveAt(a, path);
    LiveAt(b, path);
    var first, other := FirstStatus(a, path), FirstStatus(b, path);
    assert first.Some? ==> (path, first.value) in b;
    assert other.Some? ==> (path, other.value) in a;
  }

  // ---- On manifests ----

  predicate HoldsRow(manifests: seq<Manifest>, row: Row) {
    exists m :: m in manifests && m.content == 0 && row in m.rows
  }

  /**
    The same rows in some order and number, spread over manifests in some way, and delete manifests in both or
    neither.
   */
  ghost predicate SameContent(a: seq<Manifest>, b: seq<Manifest>) {
    (HasDeletes(a) <==> HasDeletes(b)) && forall row :: HoldsRow(a, row) <==> HoldsRow(b, row)
  }

  ghost predicate SameFiles(a: Resolution, b: Resolution) {
    match (a, b)
    case (MorSkip, MorSkip) => true
    case (Live(x), Live(y)) => forall path :: path in x <==> path in y
    case _ => false
  }

  lemma {:induction false} DataRowsHold(manifests: seq<Manifest>, row: Row)
    ensures row in DataRows(manifests) <==> HoldsRow(manifests, row)
  {
    if manifests != [] {
      var init, last := manifests[..|manifests| - 1], manifests[|manifests| - 1];
      DataRowsHold(init, row);
      assert forall m :: m in manifests <==> m in init || m == last;
    }
  }

  lemma {:induction false} EntriesHold(rows: seq<Row>, e: Entry)
    ensures e in Entries(rows) <==> exists row :: row in rows && EntryOf(row) == Some(e)
  {
    if rows != [] {
      var init, last := rows[..|rows| - 1], rows[|rows| - 1];
      EntriesHold(init, e);
      assert forall row :: row in rows <==> row in init || row == last;
    }
  }

  lemma {:induction false} SameContentSameEntries(a: seq<Manifest>, b: seq<Manifest>)
    requires SameContent(a, b)
    ensures SameEntries(Entries(DataRows(a)), Entries(DataRows(b)))
  {
    forall e ensures e in Entries(DataRows(a)) <==> e in Entries(DataRows(b)) {
      EntriesHold(DataRows(a), e);
      EntriesHold(DataRows(b), e);
      forall row ensures row in DataRows(a) <==> row in DataRows(b) {
        DataRowsHold(a, row);
        DataRowsHold(b, row);
      }
    }
  }

  lemma {:induction false} DataRowsCons(m: Manifest, manifests: seq<Manifest>)
    requires m.content == 0
    ensures DataRows([m] + manifests) == m.rows + DataRows(manifests)
  {
    if manifests == [] {
      assert [m] + manifests == [m] && [m][..0] == [] && m.rows + [] == m.rows && [] + m.rows == m.rows;
    } else {
      assert ([m] + manifests)[..|manifests|] == [m] + manifests[..|manifests| - 1];
      DataRowsCons(m, manifests[..|manifests| - 1]);
    }
  }

  lemma {:induction false} EntriesCons(row: Row, rows: seq<Row>)
    requires EntryOf(row).Some?
    ensures Entries([row] + rows) == [EntryOf(row).value] + Entries(rows)
  {
    if rows == [] {
      assert [row] + rows == [row] && [row][..0] == [];
    } else {
      assert ([row] + rows)[..|rows|] == [row] + rows[..|rows| - 1];
      EntriesCons(row, rows[..|rows| - 1]);
    }
  }

  /** Reading one of the rows in a manifest of its own before all others: same content, and its status comes first. */
  lemma {:induction false} ReadFirst(manifests: seq<Manifest>, e: Entry) returns (b: seq<Manifest>)
    requires !HasDeletes(manifests) && e in Entries(DataRows(manifests))
    ensures SameContent(manifests, b)
    ensures Resolve(b) == Live(LivePaths(Fold([e] + Entries(DataRows(manifests)))))
  {
    var rows := DataRows(manifests);
    EntriesHold(rows, e);
    var row :| row in rows && EntryOf(row) == Some(e);
    var m := Manifest(0, [row]);
    b := [m] + manifests;
    DataRowsHold(manifests, row);
    assert forall x :: x in b <==> x == m || x in manifests;
    assert !IsDeleteManifest(m) && m in b;
    DataRowsCons(m, manifests);
    EntriesCons(row, rows);
  }

  /** No way of permuting and repeating manifests and rows, or of spreading rows over manifests, changes the outcome. */
  ghost predicate OrderIrrelevant(manifests: seq<Manifest>) {
    forall b :: SameContent(manifests, b) ==> SameFiles(Resolve(manifests), Resolve(b))
  }

  lemma {:induction false} AmbiguousDepends(manifests: seq<Manifest>, path: string)
    requires !HasDeletes(manifests) && Ambiguous(Entries(DataRows(manifests)), path)
    ensures !OrderIrrelevant(manifests)
  {
    var entries := Entries(DataRows(manifests));
    var e :| e in entries && e.0 == path && e.1 != 1;
    var live := ReadFirst(manifests, (path, 1));
    var dead := ReadFirst(manifests, e);
    FirstStatusOf((path, 1), entries);
    FirstStatusOf(e, entries);
    LiveAt([(path, 1)] + entries, path);
    LiveAt([e] + entries, path);
    assert path in Resolve(live).files && path !in Resolve(dead).files;
    assert SameContent(manifests, live) && SameContent(manifests, dead);
  }

  lemma {:induction false} UnambiguousIsIrrelevant(manifests: seq<Manifest>)
    requires !SomeAmbiguous(Entries(DataRows(manifests)))
    ensures OrderIrrelevant(manifests)
  {
    var entries := Entries(DataRows(manifests));
    forall b | SameContent(manifests, b) ensures SameFiles(Resolve(manifests), Resolve(b)) {
      SameContentSameEntries(manifests, b);
      forall path ensures path in LivePaths(Fold(entries)) <==> path in LivePaths(Fold(Entries(DataRows(b)))) {
        UnambiguousLive(entries, Entries(DataRows(b)), path);
      }
    }
  }

  /** Order and repetition are irrelevant exactly when the table is skipped anyway or no path is ambiguous. */
  lemma {:induction false} OrderAndRepetitionIrrelevant(manifests: seq<Manifest>)
    ensures OrderIrrelevant(manifests) <==>
            HasDeletes(manifests) || !SomeAmbiguous(Entries(DataRows(manifests)))
  {
    if !HasDeletes(manifests) {
      if SomeAmbiguous(Entries(DataRows(manifests))) {
        var path :| Ambiguous(Entries(DataRows(manifests)), path);
        AmbiguousDepends(manifests, path);
      } else {
        UnambiguousIsIrrelevant(manifests);
      }
    }
  }

  /** With statuses from the numbering no path is. */
  lemma {:induction false} KnownStatusesAreUnambiguous(entries: seq<Entry>)
    requires KnownStatuses(entries)
    ensures !SomeAmbiguous(entries)
  {
  }

  /** Two rows that differ only in how they spell the scheme of the path. */
  predicate SameButSpelling(a: Row, b: Row) {
    && a.status == b.status
    && SameRef(a.dataFile, b.dataFile) && SameRef(a.deletedFile, b.deletedFile)
  }

  predicate SameRef(a: Option<FileRef>, b: Option<FileRef>) {
    match (a, b)
    case (None, None) => true
    case (Some(x), Some(y)) =>
      x.content == y.content && (x.path == y.path || Respelled(x.path, y.path) || Respelled(y.path, x.path))
    case _ => false
  }

  predicate Respelled(x: string, y: string) {
    S3A <= x && S3 <= y && x[6..] == y[5..]
  }

  lemma {:induction false} SpellingIrrelevant(a: seq<Row>, b: seq<Row>)
    requires |a| == |b| && forall i :: 0 <= i < |a| ==> SameButSpelling(a[i], b[i])
    ensures Entries(a) == Entries(b)
  {
    if a != [] {
      var n := |a| - 1;
      SpellingIrrelevant(a[..n], b[..n]);
      RespelledNorm(a[n].dataFile, b[n].dataFile);
      RespelledNorm(a[n].deletedFile, b[n].deletedFile);
    }
  }

  lemma {:induction false} RespelledNorm(a: Option<FileRef>, b: Option<FileRef>)
    requires SameRef(a, b)
    ensures a.Some? <==> b.Some?
    ensures a.Some? ==> Norm(a.value.path) == Norm(b.value.path)
  {
    if a.Some? && a.value.path != b.value.path {
      var x, y := if S3A <= a.value.path then a.value.path else b.value.path,
                  if S3A <= a.value.path then b.value.path else a.value.path;
      assert Respelled(x, y) by {
        if S3A <= a.value.path && S3A <= b.value.path {
          assert a.value.path[2] == 'a' && b.value.path[2] == 'a';
        }
      }
      NormIsSpellingBlind(x[6..]);
      assert x == S3A + x[6..] && y == S3 + y[5..];
    }
  }

  // ---- On the manifests themselves ----

  /** A row names a path by its data file, or if it has none by its deleted file, being a data file with a path. */
  predicate NamesData(row: Row, path: string) {
    match row.dataFile
    case Some(f) => f.content == 0 && f.path != "" && Norm(f.path) == path
    case None => row.deletedFile.Some? && var f := row.deletedFile.value;
                 f.content == 0 && f.path != "" && Norm(f.path) == path
  }

  /** Some row of a data manifest names the path, with a status that satisfies p. */
  predicate IsNamed(manifests: seq<Manifest>, path: string, p: int -> bool) {
    exists m, row :: m in manifests && m.content == 0 && row in m.rows && NamesData(row, path) && p(row.status)
  }

  lemma {:induction false} NormNonempty(p: string)
    ensures Norm(p) == "" <==> p == ""
  {
  }

  lemma {:induction false} NamesIsEntry(row: Row, path: string)
    ensures NamesData(row, path) <==> EntryOf(row) == Some((path, row.status))
  {
    if row.dataFile.Some? {
      NormNonempty(row.dataFile.value.path);
    } else if row.deletedFile.Some? {
      NormNonempty(row.deletedFile.value.path);
    }
  }

  lemma {:induction false} NamedIsEntry(manifests: seq<Manifest>, path: string, status: int)
    ensures (path, status) in Entries(DataRows(manifests)) <==> IsNamed(manifests, path, s => s == status)
  {
    EntriesHold(DataRows(manifests), (path, status));
    if row :| row in DataRows(manifests) && EntryOf(row) == Some((path, status)) {
      DataRowsHold(manifests, row);
      NamesIsEntry(row, path);
    }
    if m, row :| m in manifests && m.content == 0 && row in m.rows && NamesData(row, path) && row.status == status {
      DataRowsHold(manifests, row);
      NamesIsEntry(row, path);
    }
  }

  /** All rows that name data files have a status from the numbering. */
  ghost predicate StatusesAreKnown(manifests: seq<Manifest>) {
    forall m, row, path :: m in manifests && m.content == 0 && row in m.rows && NamesData(row, path) ==>
      row.status == 0 || row.status == 1 || row.status == 2
  }

  /** A delete manifest, and nothing else, makes the table skipped. */
  lemma {:induction false} DeleteManifestSkips(manifests: seq<Manifest>)
    ensures Resolve(manifests) == MorSkip <==> exists m :: m in manifests && m.content == 1
  {
  }

  /**
    Without one the live files are the paths that some row of a data manifest names, and none as deleted, each
    listed once.
   */
  lemma {:induction false} LiveOnManifests(manifests: seq<Manifest>, path: string)
    requires StatusesAreKnown(manifests) && forall m :: m in manifests ==> m.content != 1
    ensures Resolve(manifests).Live? && NoDuplicates(Resolve(manifests).files)
    ensures path in Resolve(manifests).files <==>
            IsNamed(manifests, path, s => true) && !IsNamed(manifests, path, s => s == 0)
  {
    var entries := Entries(DataRows(manifests));
    forall e | e in entries ensures e.1 == 0 || e.1 == 1 || e.1 == 2 {
      NamedIsEntry(manifests, e.0, e.1);
    }
    LiveExactly(entries, path);
    NamedIsEntry(manifests, path, 0);
    if m, row :| m in manifests && m.content == 0 && row in m.rows && NamesData(row, path) {
      NamedIsEntry(manifests, path, row.status);
      assert (path, row.status) in entries;
    }
    if e :| e in entries && e.0 == path {
      NamedIsEntry(manifests, path, e.1);
    }
  }

  // ---- In the order in which they came up ----

  /** What comes before row b of manifest a. */
  function Before(manifests: seq<Manifest>, a: nat, b: nat): seq<Manifest>
    requires a < |manifests| && b <= |manifests[a].rows|
  {
    manifests[..a] + [Manifest(manifests[a].content, manifests[a].rows[..b])]
  }

  lemma {:induction false} DataRowsPrefix(manifests: seq<Manifest>, a: nat)
    requires a <= |manifests|
    ensures DataRows(manifests[..a]) <= DataRows(manifests)
  {
    if a < |manifests| {
      DataRowsPrefix(manifests[..|manifests| - 1], a);
      assert manifests[..|manifests| - 1][..a] == manifests[..a];
    } else {
      assert manifests[..a] == manifests;
    }
  }

  lemma {:induction false} DataRowsBefore(manifests: seq<Manifest>, a: nat, b: nat)
    requires a < |manifests| && b <= |manifests[a].rows|
    ensures DataRows(Before(manifests, a, b)) <= DataRows(manifests)
  {
    DataRowsPrefix(manifests, a + 1);
    assert manifests[..a + 1][..a] == manifests[..a];
    assert Before(manifests, a, b)[..a] == manifests[..a];
  }

  lemma {:induction false} EntriesPrefix(rows: seq<Row>, n: nat)
    requires n <= |rows|
    ensures Entries(rows[..n]) <= Entries(rows)
  {
    if n < |rows| {
      EntriesPrefix(rows[..|rows| - 1], n);
      assert rows[..|rows| - 1][..n] == rows[..n];
    } else {
      assert rows[..n] == rows;
    }
  }

  lemma {:induction false} OrderPrefix(entries: seq<Entry>, n: nat)
    requires n <= |entries|
    ensures Fold(entries[..n]).order <= Fold(entries).order
  {
    if n < |entries| {
      OrderPrefix(entries[..|entries| - 1], n);
      assert entries[..|entries| - 1][..n] == entries[..n];
    } else {
      assert entries[..n] == entries;
    }
  }

  /** Filtering keeps the order: what stands in a prefix comes before what does not. */
  lemma {:induction false} KeepInOrder(s: seq<string>, p: string -> bool, n: nat, i: nat, j: nat)
    requires NoDuplicates(s) && n <= |s| && i < j < |Keep(s, p)| && Keep(s, p)[j] in s[..n]
    ensures Keep(s, p)[i] in s[..n]
  {
    var init, last := s[..|s| - 1], s[|s| - 1];
    assert s == init + [last];
    if n == |s| {
      assert s[..n] == s;
    } else {
      assert init[..n] == s[..n];
      forall x | x in init[..n] ensures x != last {
        var k :| 0 <= k < n && init[..n][k] == x;
        assert s[k] == x;
      }
      KeepInOrder(init, p, n, i, j);
    }
  }

  /** The live files come in the order of the rows: one that is named before some row precedes one that is not. */
  lemma {:induction false} LiveInOrder(manifests: seq<Manifest>, a: nat, b: nat, i: nat, j: nat)
    requires Resolve(manifests).Live? && i < j < |Resolve(manifests).files|
    requires a < |manifests| && b <= |manifests[a].rows|
    requires IsNamed(Before(manifests, a, b), Resolve(manifests).files[j], s => true)
    ensures IsNamed(Before(manifests, a, b), Resolve(manifests).files[i], s => true)
  {
    var files, all, some := Resolve(manifests).files, DataRows(manifests), DataRows(Before(manifests, a, b));
    DataRowsBefore(manifests, a, b);
    assert all[..|some|] == some;
    EntriesPrefix(all, |some|);
    var entries, first := Entries(all), Entries(some);
    assert entries[..|first|] == first;
    OrderPrefix(entries, |first|);
    var s, n := Fold(entries).order, |Fold(first).order|;
    assert s[..n] == Fold(first).order;
    OrderIsNamed(Before(manifests, a, b), files[i]);
    OrderIsNamed(Before(manifests, a, b), files[j]);
    OrderHasNoDuplicates(entries);
    KeepInOrder(s, (p: string) => p in Fold(entries).of && (Fold(entries).of[p] == 1 || Fold(entries).of[p] == 2),
                n, i, j);
  }

  lemma {:induction false} OrderHasNoDuplicates(entries: seq<Entry>)
    ensures NoDuplicates(Fold(entries).order)
  {
    if entries != [] {
      OrderHasNoDuplicates(entries[..|entries| - 1]);
      FoldAt(entries[..|entries| - 1], entries[|entries| - 1].0);
    }
  }

  lemma {:induction false} OrderIsNamed(manifests: seq<Manifest>, path: string)
    ensures path in Fold(Entries(DataRows(manifests))).order <==> IsNamed(manifests, path, s => true)
  {
    var entries := Entries(DataRows(manifests));
    FoldAt(entries, path);
    if FirstStatus(entries, path).Some? {
      NamedIsEntry(manifests, path, FirstStatus(entries, path).value);
    }
    if m, row :| m in manifests && m.content == 0 && row in m.rows && NamesData(row, path) {
      NamedIsEntry(manifests, path, row.status);
      assert (path, row.status) in entries;
    }
  }
}
