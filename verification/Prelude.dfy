/** Small definitions shared by several components. */
module Prelude {

  datatype Option<+T> = None | Some(value: T)

  /** The elements of s that satisfy p, in order. */
  function Keep<T>(s: seq<T>, p: T -> bool): (r: seq<T>)
    ensures |r| <= |s|
    ensures forall x :: x in r ==> x in s && p(x)
    ensures forall x :: x in s && p(x) ==> x in r
  {
    if s == [] then []
    else if p(s[|s| - 1]) then Keep(s[..|s| - 1], p) + [s[|s| - 1]]
    else Keep(s[..|s| - 1], p)
  }

  /** a can be obtained from b by leaving elements out. */
  ghost predicate Subseq<T(!new)>(a: seq<T>, b: seq<T>) {
    a == [] ||
    (b != [] &&
     ((a[|a| - 1] == b[|b| - 1] && Subseq(a[..|a| - 1], b[..|b| - 1])) || Subseq(a, b[..|b| - 1])))
  }

  // ---- Maps onto their own keys ----

  /** x comes from itself or from a key of higher rank. */
  ghost predicate Climbs<T(!new)>(source: map<T, T>, rank: map<T, nat>, x: T) {
    && x in source && source[x] in source && x in rank && source[x] in rank
    && (source[x] == x || rank[x] < rank[source[x]])
  }

  function Above<T>(rank: map<T, nat>, n: nat): set<T> {
    set y | y in rank && rank[y] > n
  }

  lemma {:induction false} AboveShrinks<T>(rank: map<T, nat>, m: nat, z: T)
    requires z in rank && rank[z] > m
    ensures Above(rank, rank[z]) < Above(rank, m)
  {
    assert z in Above(rank, m) && z !in Above(rank, rank[z]);
  }

  /** Where each key comes from a key of its own, itself or one of higher rank, each comes from itself. */
  lemma {:induction false} OntoIsIdentity<T(!new)>(source: map<T, T>, rank: map<T, nat>, x: T)
    requires x in source
    requires forall y {:trigger Climbs(source, rank, y)} :: y in source ==> Climbs(source, rank, y)
    requires forall y, z {:trigger source[y], source[z]} ::
               y in source && z in source && source[y] == source[z] ==> y == z
    ensures source[x] == x
    decreases if x in rank then Above(rank, rank[x]) else {}
  {
    assert Climbs(source, rank, x);
    var z := source[x];
    if z != x {
      AboveShrinks(rank, rank[x], z);
      OntoIsIdentity(source, rank, z);
      assert false;
    }
  }

  function Sum(ns: seq<nat>): nat {
    if ns == [] then 0 else Sum(ns[..|ns| - 1]) + ns[|ns| - 1]
  }

  lemma {:induction false} SumDrops(a: seq<nat>, b: seq<nat>)
    requires |a| == |b| && forall i :: 0 <= i < |a| ==> a[i] <= b[i]
    ensures Sum(a) <= Sum(b)
    ensures (exists i :: 0 <= i < |a| && a[i] < b[i]) ==> Sum(a) < Sum(b)
  {
    if a != [] {
      SumDrops(a[..|a| - 1], b[..|b| - 1]);
      if i :| 0 <= i < |a| - 1 && a[i] < b[i] {
        assert a[..|a| - 1][i] < b[..|b| - 1][i];
      }
    }
  }

  // ---- Ends of sequences ----

  function Init<T>(s: seq<T>): seq<T>
    requires s != []
  {
    s[..|s| - 1]
  }

  function Last<T>(s: seq<T>): T
    requires s != []
  {
    s[|s| - 1]
  }

  /** What f makes of the elements, one after another. */
  function Collect<T, U>(s: seq<T>, f: T -> seq<U>): seq<U> {
    if s == [] then [] else Collect(Init(s), f) + f(Last(s))
  }

  lemma {:induction false} CollectOne<T, U>(x: T, f: T -> seq<U>)
    ensures Collect([x], f) == f(x)
  {
    assert Init([x]) == [] && Last([x]) == x;
  }

  lemma {:induction false} CollectConcat<T, U>(a: seq<T>, b: seq<T>, f: T -> seq<U>)
    ensures Collect(a + b, f) == Collect(a, f) + Collect(b, f)
  {
    if b == [] {
      assert a + b == a;
    } else {
      CollectConcat(a, Init(b), f);
      assert Init(a + b) == a + Init(b) && Last(a + b) == Last(b);
    }
  }

  // ---- Splitting text ----

  /** The pieces of s between separators; always at least one. */
  function Split(sep: char, s: string): (parts: seq<string>)
    ensures parts != []
  {
    if s == "" then [""]
    else
      var rest := Split(sep, s[1..]);
      if s[0] == sep then [""] + rest else Push(s[0], rest)
  }

  function Push(c: char, parts: seq<string>): (r: seq<string>)
    requires parts != []
    ensures |r| == |parts|
  {
    [[c] + parts[0]] + parts[1..]
  }

  lemma {:induction false} PushConcat(sep: char, c: char, parts: seq<string>, b: string)
    requires parts != [] && c != sep
    ensures var pushed := Push(c, parts);
            Init(pushed) + Split(sep, Last(pushed) + b) == Push(c, Init(parts) + Split(sep, Last(parts) + b))
  {
    if |parts| == 1 {
      var t := [c] + (parts[0] + b);
      assert Last(Push(c, parts)) + b == t && t[1..] == parts[0] + b;
      assert Init(parts) == [] && Init(Push(c, parts)) == [];
      assert Init(parts) + Split(sep, Last(parts) + b) == Split(sep, parts[0] + b);
    } else {
      assert Last(Push(c, parts)) == Last(parts);
      assert Init(Push(c, parts)) == [[c] + parts[0]] + parts[1..|parts| - 1];
      assert Init(parts) == [parts[0]] + parts[1..|parts| - 1];
    }
  }

  lemma {:induction false} BreakConcat(sep: char, parts: seq<string>, b: string)
    requires parts != []
    ensures Init([""] + parts) + Split(sep, Last([""] + parts) + b) ==
            [""] + (Init(parts) + Split(sep, Last(parts) + b))
  {
    assert Init([""] + parts) == [""] + Init(parts) && Last([""] + parts) == Last(parts);
  }

  /** Text that comes in two parts splits as if the first part's last piece were put before the second. */
  lemma {:induction false} SplitConcat(sep: char, a: string, b: string)
    ensures Split(sep, a + b) == Init(Split(sep, a)) + Split(sep, Last(Split(sep, a)) + b)
  {
    if a == "" {
      assert a + b == b && Last(Split(sep, a)) + b == b && Init(Split(sep, a)) == [];
    } else {
      SplitConcat(sep, a[1..], b);
      assert (a + b)[1..] == a[1..] + b && (a + b)[0] == a[0];
      if a[0] == sep {
        BreakConcat(sep, Split(sep, a[1..]), b);
      } else {
        PushConcat(sep, a[0], Split(sep, a[1..]), b);
      }
    }
  }

  /** Around a separator the pieces of the two sides stand side by side. */
  lemma {:induction false} SplitAround(sep: char, a: string, b: string)
    ensures Split(sep, a + [sep] + b) == Split(sep, a) + Split(sep, b)
  {
    var s := a + [sep] + b;
    if a == "" {
      assert s[0] == sep && s[1..] == b;
    } else {
      SplitAround(sep, a[1..], b);
      assert s[0] == a[0] && s[1..] == a[1..] + [sep] + b;
      var parts, more := Split(sep, a[1..]), Split(sep, b);
      PushBefore(a[0], parts, more);
      assert [""] + (parts + more) == ([""] + parts) + more;
    }
  }

  lemma {:induction false} PushBefore(c: char, parts: seq<string>, more: seq<string>)
    requires parts != []
    ensures Push(c, parts + more) == Push(c, parts) + more
  {
    assert (parts + more)[0] == parts[0] && (parts + more)[1..] == parts[1..] + more;
  }

  /** No piece holds the separator, and text without one is a single piece. */
  lemma {:induction false} SplitPieces(sep: char, s: string)
    ensures forall p :: p in Split(sep, s) ==> sep !in p
    ensures sep !in s ==> Split(sep, s) == [s]
  {
    if s != "" {
      SplitPieces(sep, s[1..]);
      if sep !in s {
        assert [s[0]] + s[1..] == s && Split(sep, s[1..])[1..] == [];
      }
    }
  }

  /** The first piece begins the text and, if there is a separator, it stands behind that piece. */
  lemma {:induction false} SplitFirst(sep: char, s: string)
    ensures Split(sep, s)[0] <= s
    ensures sep in s ==> |Split(sep, s)[0]| < |s| && s[|Split(sep, s)[0]|] == sep
  {
    if s != "" {
      SplitFirst(sep, s[1..]);
    }
  }
}
