/**
  The in-process cache of the catalog service: entries expire ttl after they were set, and beyond
  maxsize the least recently used one is dropped.  The OrderedDict is the sequence of its entries,
  oldest first.
 */
module TtlLruCache {
  import opened Prelude

  datatype Entry<+V> = Entry(key: string, expires: real, value: V)

  predicate DistinctKeys<V>(s: seq<Entry<V>>) {
    forall i, j :: 0 <= i < j < |s| ==> s[i].key != s[j].key
  }

  function Without<V>(s: seq<Entry<V>>, key: string): seq<Entry<V>> {
    Keep(s, (e: Entry<V>) => e.key != key)
  }

  function WithoutPrefix<V>(s: seq<Entry<V>>, prefix: string): seq<Entry<V>> {
    Keep(s, (e: Entry<V>) => !(prefix <= e.key))
  }

  function Lookup<V>(s: seq<Entry<V>>, key: string): (r: Option<Entry<V>>)
    ensures r.Some? ==> r.value in s && r.value.key == key
    ensures r.None? ==> forall e :: e in s ==> e.key != key
  {
    if s == [] then None
    else if s[|s| - 1].key == key then Some(s[|s| - 1])
    else Lookup(s[..|s| - 1], key)
  }

  // ---- What each operation does to the entries ----

  function AfterGet<V>(s: seq<Entry<V>>, key: string, now: real): seq<Entry<V>> {
    match Lookup(s, key)
    case None => s
    case Some(e) => if now > e.expires then Without(s, key) else Without(s, key) + [e]
  }

  function Answer<V>(s: seq<Entry<V>>, key: string, now: real): Option<V> {
    match Lookup(s, key)
    case None => None
    case Some(e) => if now > e.expires then None else Some(e.value)
  }

  /** The most recent maxsize entries, at most one being dropped. */
  function Trim<V>(s: seq<Entry<V>>, maxsize: nat): seq<Entry<V>> {
    if |s| > maxsize then s[1..] else s
  }

  function AfterSet<V>(s: seq<Entry<V>>, maxsize: nat, ttl: real, key: string, value: V, now: real): seq<Entry<V>> {
    Trim(Without(s, key) + [Entry(key, now + ttl, value)], maxsize)
  }

  lemma {:induction false} AppendDistinct<V>(s: seq<Entry<V>>, e: Entry<V>)
    requires DistinctKeys(s)
    requires forall x :: x in s ==> x.key != e.key
    ensures DistinctKeys(s + [e])
  {
    var r := s + [e];
    forall i, j | 0 <= i < j < |r| ensures r[i].key != r[j].key {
      assert r[i] in s;
    }
  }

  lemma {:induction false} KeepDistinct<V>(s: seq<Entry<V>>, p: Entry<V> -> bool)
    requires DistinctKeys(s)
    ensures DistinctKeys(Keep(s, p))
  {
    if s != [] {
      var init, last := s[..|s| - 1], s[|s| - 1];
      KeepDistinct(init, p);
      forall x | x in Keep(init, p) ensures x.key != last.key {
        assert x in init;
      }
      if p(last) {
        AppendDistinct(Keep(init, p), last);
      }
    }
  }

  lemma {:induction false} KeepAll<T>(s: seq<T>, p: T -> bool)
    requires forall x :: x in s ==> p(x)
    ensures Keep(s, p) == s
  {
    if s != [] {
      KeepAll(s[..|s| - 1], p);
    }
  }

  lemma {:induction false} LookupUnique<V>(s: seq<Entry<V>>, e: Entry<V>)
    requires DistinctKeys(s) && e in s
    ensures Lookup(s, e.key) == Some(e)
  {
    if s[|s| - 1] != e {
      LookupUnique(s[..|s| - 1], e);
    }
  }

  lemma {:induction false} WithoutDistinct<V>(s: seq<Entry<V>>, key: string)
    requires DistinctKeys(s)
    ensures DistinctKeys(Without(s, key))
  {
    KeepDistinct(s, (e: Entry<V>) => e.key != key);
  }

  lemma {:induction false} WithoutPrefixDistinct<V>(s: seq<Entry<V>>, prefix: string)
    requires DistinctKeys(s)
    ensures DistinctKeys(WithoutPrefix(s, prefix))
  {
    KeepDistinct(s, (e: Entry<V>) => !(prefix <= e.key));
  }

  // ---- The class ----

  /** OrderedDict assignment: a present key keeps its place, a new one goes to the end. */
  function Assign<V>(s: seq<Entry<V>>, e: Entry<V>): (r: seq<Entry<V>>)
    ensures |r| == |s| || |r| == |s| + 1
    ensures Without(r, e.key) == Without(s, e.key)
    ensures Lookup(r, e.key) == Some(e)
  {
    if s == [] then [e]
    else if s[|s| - 1].key == e.key then s[..|s| - 1] + [e]
    else Assign(s[..|s| - 1], e) + [s[|s| - 1]]
  }

  lemma {:induction false} WithoutLength<V>(s: seq<Entry<V>>, key: string)
    requires DistinctKeys(s)
    ensures |Without(s, key)| == if Lookup(s, key).Some? then |s| - 1 else |s|
  {
    if s != [] {
      if s[|s| - 1].key == key {
        KeepAll(s[..|s| - 1], (e: Entry<V>) => e.key != key);
      } else {
        WithoutLength(s[..|s| - 1], key);
      }
    }
  }

  ghost function WithoutKeys<V>(s: seq<Entry<V>>, keys: set<string>): seq<Entry<V>> {
    Keep(s, (e: Entry<V>) => e.key !in keys)
  }

  lemma {:induction false} WithoutNothing<V>(s: seq<Entry<V>>, gone: set<string>)
    requires gone == {}
    ensures WithoutKeys(s, gone) == s
  {
    KeepAll(s, (e: Entry<V>) => e.key !in gone);
  }

  lemma {:induction false} WithoutOneMore<V>(s: seq<Entry<V>>, gone: set<string>, key: string)
    ensures Without(WithoutKeys(s, gone), key) == WithoutKeys(s, gone + {key})
  {
    KeepTwice(s, (e: Entry<V>) => e.key !in gone, (e: Entry<V>) => e.key != key,
              (e: Entry<V>) => e.key !in gone + {key});
  }

  lemma {:induction false} WithoutDoomed<V>(s: seq<Entry<V>>, prefix: string, gone: set<string>)
    requires forall e :: e in s && prefix <= e.key ==> e.key in gone
    requires forall k :: k in gone ==> prefix <= k
    ensures WithoutKeys(s, gone) == WithoutPrefix(s, prefix)
  {
    KeepSame(s, (e: Entry<V>) => e.key !in gone, (e: Entry<V>) => !(prefix <= e.key));
  }

  class TtlCache<V(!new)> {
    const maxsize: nat
    const ttl: real
    var store: seq<Entry<V>>

    predicate Valid()
      reads this
    {
      DistinctKeys(store) && |store| <= maxsize
    }

    constructor (maxsize: nat, ttl: real)
      ensures Valid() && store == [] && this.maxsize == maxsize && this.ttl == ttl
    {
      this.maxsize, this.ttl, store := maxsize, ttl, [];
    }

    method Get(key: string, now: real) returns (value: Option<V>)
      requires Valid()
      modifies this
      ensures Valid()
      ensures store == AfterGet(old(store), key, now)
      ensures value == Answer(old(store), key, now)
    {
      var found := Lookup(store, key);
      if found.None? {
        return None;
      }
      WithoutDistinct(store, key);
      WithoutLength(store, key);
      if now > found.value.expires {
        store := Without(store, key);
        return None;
      }
      AppendDistinct(Without(store, key), found.value);
      store := Without(store, key) + [found.value];
      return Some(found.value.value);
    }

    method Set(key: string, value: V, now: real)
      requires Valid()
      modifies this
      ensures Valid()
      ensures store == AfterSet(old(store), maxsize, ttl, key, value, now)
    {
      WithoutDistinct(store, key);
      WithoutLength(store, key);
      AppendDistinct(Without(store, key), Entry(key, now + ttl, value));
      store := Assign(store, Entry(key, now + ttl, value));
      store := Without(store, key) + [Lookup(store, key).value];
      if |store| > maxsize {
        store := store[1..];
      }
    }

    method Delete(key: string)
      requires Valid()
      modifies this
      ensures Valid()
      ensures store == Without(old(store), key)
    {
      WithoutDistinct(store, key);
      store := Without(store, key);
    }

    method ClearPrefix(prefix: string)
      requires Valid()
      modifies this
      ensures Valid()
      ensures store == WithoutPrefix(old(store), prefix)
    {
      ghost var before := store;
      var doomed := Keep(store, (e: Entry<V>) => prefix <= e.key);
      ghost var gone: set<string> := {};
      WithoutNothing(store, gone);
      for i := 0 to |doomed|
        invariant forall j :: 0 <= j < i ==> doomed[j].key in gone
        invariant forall k :: k in gone ==> prefix <= k
        invariant store == WithoutKeys(before, gone)
      {
        WithoutOneMore(before, gone, doomed[i].key);
        assert doomed[i] in doomed;
        store := Without(store, doomed[i].key);
        gone := gone + {doomed[i].key};
      }
      assert forall e :: e in before && prefix <= e.key ==> e in doomed;
      WithoutDoomed(before, prefix, gone);
      WithoutPrefixDistinct(before, prefix);
    }
  }

  lemma {:induction false} KeepTwice<T>(s: seq<T>, p: T -> bool, q: T -> bool, both: T -> bool)
    requires forall x :: x in s ==> (both(x) <==> p(x) && q(x))
    ensures Keep(Keep(s, p), q) == Keep(s, both)
  {
    if s != [] {
      KeepTwice(s[..|s| - 1], p, q, both);
      var last := s[|s| - 1];
      if p(last) {
        assert (Keep(s[..|s| - 1], p) + [last])[..|Keep(s, p)| - 1] == Keep(s[..|s| - 1], p);
      }
    }
  }

  lemma {:induction false} KeepSame<T>(s: seq<T>, p: T -> bool, q: T -> bool)
    requires forall x :: x in s ==> (p(x) <==> q(x))
    ensures Keep(s, p) == Keep(s, q)
  {
    if s != [] {
      KeepSame(s[..|s| - 1], p, q);
    }
  }

  // ---- LRU inclusion ----

  datatype Op<+V> =
    | Get(key: string)
    | Set(key: string, value: V)
    | Delete(key: string)
    | ClearPrefix(prefix: string)

  datatype Timed<+V> = At(now: real, op: Op<V>)

  function Step<V>(s: seq<Entry<V>>, maxsize: nat, ttl: real, t: Timed<V>): seq<Entry<V>> {
    match t.op
    case Get(key) => AfterGet(s, key, t.now)
    case Set(key, value) => AfterSet(s, maxsize, ttl, key, value, t.now)
    case Delete(key) => Without(s, key)
    case ClearPrefix(prefix) => WithoutPrefix(s, prefix)
  }

  /** The entries after a whole history on a cache that starts empty. */
  function Run<V>(maxsize: nat, ttl: real, history: seq<Timed<V>>): seq<Entry<V>> {
    if history == [] then []
    else Step(Run(maxsize, ttl, history[..|history| - 1]), maxsize, ttl, history[|history| - 1])
  }

  /** What a smaller cache and a larger one have in common after the same history. */
  ghost predicate Included<V(!new)>(small: seq<Entry<V>>, large: seq<Entry<V>>, m: nat, n: nat) {
    && DistinctKeys(small) && DistinctKeys(large)
    && |small| <= m && |large| <= n
    && Subseq(small, large)
    && |large| - |small| <= n - m
  }

  /** Filtering keeps inclusion, and never widens the gap between the two. */
  lemma {:induction false} KeepMonotone<T(!new)>(a: seq<T>, b: seq<T>, p: T -> bool)
    requires Subseq(a, b)
    ensures Subseq(Keep(a, p), Keep(b, p))
    ensures |Keep(b, p)| - |Keep(a, p)| <= |b| - |a|
    decreases |b|
  {
    if a == [] {
    } else if a[|a| - 1] == b[|b| - 1] && Subseq(a[..|a| - 1], b[..|b| - 1]) {
      KeepMonotone(a[..|a| - 1], b[..|b| - 1], p);
      if p(a[|a| - 1]) {
        Extend(Keep(a[..|a| - 1], p), Keep(b[..|b| - 1], p), a[|a| - 1]);
      }
    } else {
      KeepMonotone(a, b[..|b| - 1], p);
      if p(b[|b| - 1]) {
        Widen(Keep(a, p), Keep(b[..|b| - 1], p), b[|b| - 1]);
      }
    }
  }

  lemma {:induction false} Extend<T(!new)>(a: seq<T>, b: seq<T>, x: T)
    requires Subseq(a, b)
    ensures Subseq(a + [x], b + [x])
  {
    assert (a + [x])[..|a|] == a && (b + [x])[..|b|] == b;
  }

  lemma {:induction false} Widen<T(!new)>(a: seq<T>, b: seq<T>, x: T)
    requires Subseq(a, b)
    ensures Subseq(a, b + [x])
  {
    assert (b + [x])[..|b|] == b;
  }

  lemma {:induction false} SubseqMember<T(!new)>(a: seq<T>, b: seq<T>, x: T)
    requires Subseq(a, b) && x in a
    ensures x in b
    decreases |b|
  {
    if a[|a| - 1] == b[|b| - 1] && Subseq(a[..|a| - 1], b[..|b| - 1]) {
      if x != a[|a| - 1] {
        SubseqMember(a[..|a| - 1], b[..|b| - 1], x);
      }
    } else {
      SubseqMember(a, b[..|b| - 1], x);
    }
  }

  lemma {:induction false} TailThenLast<T>(s: seq<T>)
    requires |s| > 1
    ensures s[..|s| - 1][1..] + [s[|s| - 1]] == s[1..]
  {
  }

  lemma {:induction false} WidenFront<T(!new)>(a: seq<T>, b: seq<T>)
    requires b != [] && Subseq(a, b[1..])
    ensures Subseq(a, b)
    decreases |b|
  {
    if a != [] {
      var b' := b[..|b| - 1];
      assert b[1..][..|b| - 2] == b'[1..];
      if a[|a| - 1] == b[|b| - 1] && Subseq(a[..|a| - 1], b'[1..]) {
        WidenFront(a[..|a| - 1], b');
      } else {
        WidenFront(a, b');
      }
    }
  }

  /** Dropping both heads keeps inclusion. */
  lemma {:induction false} DropHeads<T(!new)>(a: seq<T>, b: seq<T>)
    requires Subseq(a, b) && a != []
    ensures Subseq(a[1..], b[1..])
    decreases |b|
  {
    if |a| > 1 {
      var a', b' := a[..|a| - 1], b[..|b| - 1];
      if a[|a| - 1] == b[|b| - 1] && Subseq(a', b') {
        DropHeads(a', b');
        Extend(a'[1..], b'[1..], a[|a| - 1]);
        TailThenLast(a);
      } else {
        DropHeads(a, b');
        Widen(a[1..], b'[1..], b[|b| - 1]);
      }
      TailThenLast(b);
    }
  }

  lemma {:induction false} KeepIsSubseq<T(!new)>(s: seq<T>, p: T -> bool)
    ensures Subseq(Keep(s, p), s)
  {
    if s != [] {
      var init, last := s[..|s| - 1], s[|s| - 1];
      KeepIsSubseq(init, p);
      assert init + [last] == s;
      if p(last) {
        Extend(Keep(init, p), init, last);
      } else {
        Widen(Keep(init, p), init, last);
      }
    }
  }

  /** Deleting a key leaves exactly the entries of other keys, in their order. */
  lemma {:induction false} DeleteMeans<V(!new)>(s: seq<Entry<V>>, key: string)
    ensures Subseq(Without(s, key), s)
    ensures forall e :: e in Without(s, key) <==> e in s && e.key != key
    ensures Lookup(Without(s, key), key).None?
    ensures Lookup(s, key).None? ==> Without(s, key) == s
  {
    KeepIsSubseq(s, (e: Entry<V>) => e.key != key);
    if Lookup(s, key).None? {
      KeepAll(s, (e: Entry<V>) => e.key != key);
    }
  }

  /** Clearing a prefix leaves exactly the entries of keys without it, in their order. */
  lemma {:induction false} ClearPrefixMeans<V(!new)>(s: seq<Entry<V>>, prefix: string)
    ensures Subseq(WithoutPrefix(s, prefix), s)
    ensures forall e :: e in WithoutPrefix(s, prefix) <==> e in s && !(prefix <= e.key)
  {
    KeepIsSubseq(s, (e: Entry<V>) => !(prefix <= e.key));
  }

  /** A hit in the smaller cache is the same hit in the larger one. */
  lemma {:induction false} HitIncluded<V(!new)>(small: seq<Entry<V>>, large: seq<Entry<V>>, m: nat, n: nat, key: string)
    requires Included(small, large, m, n)
    ensures Lookup(small, key).Some? ==> Lookup(large, key) == Lookup(small, key)
  {
    if Lookup(small, key).Some? {
      SubseqMember(small, large, Lookup(small, key).value);
      LookupUnique(large, Lookup(small, key).value);
    }
  }

  lemma {:induction false} KeepIncluded<V(!new)>(small: seq<Entry<V>>, large: seq<Entry<V>>, m: nat, n: nat,
          p: Entry<V> -> bool)
    requires Included(small, large, m, n)
    ensures Included(Keep(small, p), Keep(large, p), m, n)
  {
    KeepMonotone(small, large, p);
    KeepDistinct(small, p);
    KeepDistinct(large, p);
  }

  lemma {:induction false} WithoutIncluded<V(!new)>(small: seq<Entry<V>>, large: seq<Entry<V>>, m: nat, n: nat,
          key: string)
    requires Included(small, large, m, n)
    ensures Included(Without(small, key), Without(large, key), m, n)
  {
    KeepIncluded(small, large, m, n, (e: Entry<V>) => e.key != key);
  }

  lemma {:induction false} WithoutPrefixIncluded<V(!new)>(small: seq<Entry<V>>, large: seq<Entry<V>>, m: nat, n: nat,
          prefix: string)
    requires Included(small, large, m, n)
    ensures Included(WithoutPrefix(small, prefix), WithoutPrefix(large, prefix), m, n)
  {
    KeepIncluded(small, large, m, n, (e: Entry<V>) => !(prefix <= e.key));
  }

  lemma {:induction false} SetIncluded<V(!new)>(small: seq<Entry<V>>, large: seq<Entry<V>>, m: nat, n: nat, ttl: real,
          t: Timed<V>)
    requires m <= n && t.op.Set?
    requires Included(small, large, m, n)
    ensures Included(Step(small, m, ttl, t), Step(large, n, ttl, t), m, n)
  {
    PushIncluded(small, large, m, n, Entry(t.op.key, t.now + ttl, t.op.value));
    SetIsPush(small, m, ttl, t);
    SetIsPush(large, n, ttl, t);
  }

  lemma {:induction false} SetIsPush<V>(s: seq<Entry<V>>, maxsize: nat, ttl: real, t: Timed<V>)
    requires t.op.Set?
    ensures Step(s, maxsize, ttl, t) == Trim(Without(s, t.op.key) + [Entry(t.op.key, t.now + ttl, t.op.value)], maxsize)
  {
  }

  lemma {:induction false} TailDistinct<V>(s: seq<Entry<V>>)
    requires DistinctKeys(s) && s != []
    ensures DistinctKeys(s[1..])
  {
  }

  lemma {:induction false} TrimIncluded<V(!new)>(a: seq<Entry<V>>, b: seq<Entry<V>>, m: nat, n: nat)
    requires a != [] && |a| <= m + 1 && |b| <= n + 1 && |b| - |a| <= n - m && m <= n
    requires DistinctKeys(a) && DistinctKeys(b) && Subseq(a, b)
    ensures Included(Trim(a, m), Trim(b, n), m, n)
  {
    if |a| > m {
      TailDistinct(a);
      TailDistinct(b);
      DropHeads(a, b);
      WidenFront(a[1..], b);
    }
  }

  lemma {:induction false} PushIncluded<V(!new)>(small: seq<Entry<V>>, large: seq<Entry<V>>, m: nat, n: nat,
          e: Entry<V>)
    requires m <= n
    requires Included(small, large, m, n)
    ensures Included(Trim(Without(small, e.key) + [e], m), Trim(Without(large, e.key) + [e], n), m, n)
  {
    var a, b := Without(small, e.key), Without(large, e.key);
    WithoutIncluded(small, large, m, n, e.key);
    AppendDistinct(a, e);
    AppendDistinct(b, e);
    Extend(a, b, e);
    TrimIncluded(a + [e], b + [e], m, n);
  }

  lemma {:induction false} GetIncluded<V(!new)>(small: seq<Entry<V>>, large: seq<Entry<V>>, m: nat, n: nat, ttl: real,
          t: Timed<V>)
    requires m <= n && t.op.Get?
    requires Included(small, large, m, n)
    ensures Included(Step(small, m, ttl, t), Step(large, n, ttl, t), m, n)
  {
    TouchIncluded(small, large, m, n, t.op.key, t.now);
  }

  lemma {:induction false} DeleteIncluded<V(!new)>(small: seq<Entry<V>>, large: seq<Entry<V>>, m: nat, n: nat,
          ttl: real, t: Timed<V>)
    requires m <= n && t.op.Delete?
    requires Included(small, large, m, n)
    ensures Included(Step(small, m, ttl, t), Step(large, n, ttl, t), m, n)
  {
    WithoutIncluded(small, large, m, n, t.op.key);
  }

  lemma {:induction false} ClearPrefixIncluded<V(!new)>(small: seq<Entry<V>>, large: seq<Entry<V>>, m: nat, n: nat,
          ttl: real, t: Timed<V>)
    requires m <= n && t.op.ClearPrefix?
    requires Included(small, large, m, n)
    ensures Included(Step(small, m, ttl, t), Step(large, n, ttl, t), m, n)
  {
    WithoutPrefixIncluded(small, large, m, n, t.op.prefix);
  }

  lemma {:induction false} TouchIncluded<V(!new)>(small: seq<Entry<V>>, large: seq<Entry<V>>, m: nat, n: nat,
          key: string, now: real)
    requires m <= n
    requires Included(small, large, m, n)
    ensures Included(AfterGet(small, key, now), AfterGet(large, key, now), m, n)
  {
    HitIncluded(small, large, m, n, key);
    WithoutIncluded(small, large, m, n, key);
    WithoutLength(small, key);
    WithoutLength(large, key);
    var a, b := Without(small, key), Without(large, key);
    if Lookup(small, key).Some? {
      AppendDistinct(a, Lookup(small, key).value);
      AppendDistinct(b, Lookup(small, key).value);
      Extend(a, b, Lookup(small, key).value);
    } else {
      KeepAll(small, (e: Entry<V>) => e.key != key);
      assert a == small;
      if Lookup(large, key).Some? {
        AppendDistinct(b, Lookup(large, key).value);
        Widen(a, b, Lookup(large, key).value);
      }
    }
  }

  lemma {:induction false} StepIncluded<V(!new)>(small: seq<Entry<V>>, large: seq<Entry<V>>, m: nat, n: nat,
          ttl: real, t: Timed<V>)
    requires m <= n
    requires Included(small, large, m, n)
    ensures Included(Step(small, m, ttl, t), Step(large, n, ttl, t), m, n)
  {
    match t.op
    case Get(_) => GetIncluded(small, large, m, n, ttl, t);
    case Set(_, _) => SetIncluded(small, large, m, n, ttl, t);
    case Delete(_) => DeleteIncluded(small, large, m, n, ttl, t);
    case ClearPrefix(_) => ClearPrefixIncluded(small, large, m, n, ttl, t);
  }

  /** LRU inclusion, for every history and every pair of sizes. */
  lemma {:induction false} Inclusion<V(!new)>(m: nat, n: nat, ttl: real, history: seq<Timed<V>>)
    requires m <= n
    ensures |Run(m, ttl, history)| <= m && |Run(n, ttl, history)| <= n
    ensures Subseq(Run(m, ttl, history), Run(n, ttl, history))
    ensures Included(Run(m, ttl, history), Run(n, ttl, history), m, n)
  {
    if history != [] {
      var before := history[..|history| - 1];
      Inclusion(m, n, ttl, before);
      StepIncluded(Run(m, ttl, before), Run(n, ttl, before), m, n, ttl, history[|history| - 1]);
    }
  }

  /** So a larger cache answers at least what a smaller one answers, and the same. */
  lemma {:induction false} LargerAnswersMore<V(!new)>(m: nat, n: nat, ttl: real, history: seq<Timed<V>>, key: string,
          now: real)
    requires m <= n
    ensures Answer(Run(m, ttl, history), key, now).Some? ==>
              Answer(Run(n, ttl, history), key, now) == Answer(Run(m, ttl, history), key, now)
  {
    Inclusion(m, n, ttl, history);
    HitIncluded(Run(m, ttl, history), Run(n, ttl, history), m, n, key);
  }

  // ---- Against a cache that writes down when each key was last used ----

  predicate HoldsKey<V>(s: seq<Entry<V>>, k: string) {
    exists i :: 0 <= i < |s| && s[i].key == k
  }

  /** What other entries than key's are left of s, in their order. */
  ghost predicate IsOthers<V(!new)>(rest: seq<Entry<V>>, s: seq<Entry<V>>, key: string) {
    Subseq(rest, s) && forall e :: e in rest <==> e in s && e.key != key
  }

  /** s had the fresh entry e, and after is what a hit leaves. */
  ghost predicate IsHit<V(!new)>(s: seq<Entry<V>>, after: seq<Entry<V>>, e: Entry<V>) {
    after != [] && after[|after| - 1] == e && IsOthers(after[..|after| - 1], s, e.key)
  }

  lemma {:induction false} HitMeans<V(!new)>(s: seq<Entry<V>>, e: Entry<V>)
    ensures IsHit(s, Without(s, e.key) + [e], e)
  {
    DeleteMeans(s, e.key);
    var rest := Without(s, e.key);
    assert (rest + [e])[..|rest|] == rest;
  }

  /**
    A hit moves its entry to the young end unchanged and leaves the others in their order, an expired hit leaves
    exactly the others, and a miss leaves everything.
   */
  lemma {:induction false} GetMeans<V(!new)>(s: seq<Entry<V>>, key: string, now: real)
    requires DistinctKeys(s)
    ensures forall e :: e in s && e.key == key && now <= e.expires ==>
              IsHit(s, AfterGet(s, key, now), e) && Answer(s, key, now) == Some(e.value)
    ensures forall e :: e in s && e.key == key && now > e.expires ==>
              IsOthers(AfterGet(s, key, now), s, key) && Answer(s, key, now) == None
    ensures !HoldsKey(s, key) ==> AfterGet(s, key, now) == s && Answer(s, key, now) == None
  {
    forall e | e in s && e.key == key ensures Lookup(s, key) == Some(e) {
      LookupUnique(s, e);
    }
    if Lookup(s, key).Some? {
      HitMeans(s, Lookup(s, key).value);
      DeleteMeans(s, key);
    }
  }

  /** A key's value, the time at which it expires, and the number of the operation that last set or hit it. */
  datatype Slot<+V> = Slot(value: V, expires: real, used: nat)

  type Slots<+V> = map<string, Slot<V>>

  /** Was some key last used before k was? */
  ghost predicate HasOlder<V>(m: Slots<V>, k: string)
    requires k in m
  {
    exists j :: j in m && m[j].used < m[k].used
  }

  /** Beyond maxsize the key goes that was not used for longest. */
  ghost function Evict<V>(m: Slots<V>, maxsize: nat): Slots<V> {
    if |m| <= maxsize then m else map k | k in m && HasOlder(m, k) :: m[k]
  }

  ghost function SlotStep<V>(m: Slots<V>, maxsize: nat, ttl: real, i: nat, t: Timed<V>): Slots<V> {
    match t.op
    case Get(key) =>
      if key !in m then m
      else if t.now > m[key].expires then m - {key}
      else m[key := m[key].(used := i)]
    case Set(key, value) => Evict(m[key := Slot(value, t.now + ttl, i)], maxsize)
    case Delete(key) => m - {key}
    case ClearPrefix(prefix) => map k | k in m && !(prefix <= k) :: m[k]
  }

  ghost function SlotRun<V>(maxsize: nat, ttl: real, history: seq<Timed<V>>): Slots<V> {
    if history == [] then map[]
    else
      var n := |history| - 1;
      SlotStep(SlotRun(maxsize, ttl, history[..n]), maxsize, ttl, n, history[n])
  }

  ghost predicate SameEntry<V>(e: Entry<V>, m: Slots<V>) {
    e.key in m && m[e.key].value == e.value && m[e.key].expires == e.expires
  }

  ghost predicate AllSame<V(!new)>(s: seq<Entry<V>>, m: Slots<V>) {
    forall e :: e in s ==> SameEntry(e, m)
  }

  ghost predicate UsedBefore<V(!new)>(m: Slots<V>, a: string, b: string) {
    a in m && b in m && m[a].used < m[b].used
  }

  /** Least recently used first. */
  ghost predicate Ordered<V(!new)>(s: seq<Entry<V>>, m: Slots<V>) {
    forall i, j :: 0 <= i < j < |s| ==> UsedBefore(m, s[i].key, s[j].key)
  }

  ghost predicate UsedBelow<V(!new)>(m: Slots<V>, n: nat) {
    forall k :: k in m ==> m[k].used < n
  }

  /** s has the entries of m, least recently used first. */
  ghost predicate Mirrors<V(!new)>(s: seq<Entry<V>>, m: Slots<V>, n: nat) {
    AllSame(s, m) && (forall k :: k in m ==> HoldsKey(s, k)) && Ordered(s, m) && UsedBelow(m, n)
  }

  lemma {:induction false} MirrorsDistinct<V(!new)>(s: seq<Entry<V>>, m: Slots<V>, n: nat)
    requires Mirrors(s, m, n)
    ensures DistinctKeys(s)
  {
  }

  /** As many keys as entries. */
  lemma {:induction false} KeysCount<V(!new)>(s: seq<Entry<V>>, keys: set<string>)
    requires DistinctKeys(s) && forall k :: k in keys <==> HoldsKey(s, k)
    ensures |keys| == |s|
  {
    if s == [] {
      assert keys == {};
    } else {
      var n := |s| - 1;
      forall k ensures k in keys - {s[n].key} <==> HoldsKey(s[..n], k) {
        if k in keys - {s[n].key} {
          var i :| 0 <= i < |s| && s[i].key == k;
          assert s[..n][i].key == k;
        } else if i :| 0 <= i < n && s[..n][i].key == k {
          assert s[i].key == k && HoldsKey(s, k);
        }
      }
      KeysCount(s[..n], keys - {s[n].key});
      assert HoldsKey(s, s[n].key);
    }
  }

  lemma {:induction false} MirrorsLookup<V(!new)>(s: seq<Entry<V>>, m: Slots<V>, n: nat, key: string)
    requires Mirrors(s, m, n)
    ensures Lookup(s, key).Some? <==> key in m
    ensures key in m ==> SameEntry(Lookup(s, key).value, m)
  {
    if Lookup(s, key).Some? {
      assert SameEntry(Lookup(s, key).value, m);
    }
    assert key in m ==> HoldsKey(s, key);
  }

  /** Numbers of use decide the order. */
  lemma {:induction false} OrderedAlike<V(!new)>(s: seq<Entry<V>>, m: Slots<V>, m': Slots<V>)
    requires Ordered(s, m)
    requires forall e :: e in s ==> e.key in m && e.key in m' && m'[e.key].used == m[e.key].used
    ensures Ordered(s, m')
  {
    forall i, j | 0 <= i < j < |s| ensures UsedBefore(m', s[i].key, s[j].key) {
      assert s[i] in s && s[j] in s && UsedBefore(m, s[i].key, s[j].key);
    }
  }

  lemma {:induction false} KeepOrdered<V(!new)>(s: seq<Entry<V>>, m: Slots<V>, p: Entry<V> -> bool)
    requires Ordered(s, m)
    ensures Ordered(Keep(s, p), m)
  {
    if s != [] {
      var init, last := s[..|s| - 1], s[|s| - 1];
      KeepOrdered(init, m, p);
      var kept := Keep(init, p);
      forall i | 0 <= i < |kept| ensures UsedBefore(m, kept[i].key, last.key) {
        assert kept[i] in init;
        var j :| 0 <= j < |init| && init[j] == kept[i];
        assert UsedBefore(m, s[j].key, last.key);
      }
    }
  }

  /** less has some of the entries of m. */
  ghost predicate Within<V(!new)>(less: Slots<V>, m: Slots<V>) {
    forall k :: k in less ==> k in m && less[k] == m[k]
  }

  /** Filtering on both sides. */
  lemma {:induction false} MirrorsKeep<V(!new)>(s: seq<Entry<V>>, m: Slots<V>, n: nat, p: Entry<V> -> bool,
          less: Slots<V>)
    requires Mirrors(s, m, n) && Within(less, m)
    requires forall e :: e in s ==> (p(e) <==> e.key in less)
    ensures Mirrors(Keep(s, p), less, n)
  {
    KeepOrdered(s, m, p);
    forall e | e in Keep(s, p) ensures SameEntry(e, less) && e.key in m {
      assert SameEntry(e, m);
    }
    OrderedAlike(Keep(s, p), m, less);
    forall k | k in less ensures HoldsKey(Keep(s, p), k) {
      assert HoldsKey(s, k);
      var i :| 0 <= i < |s| && s[i].key == k;
      assert s[i] in Keep(s, p);
    }
  }

  /** The youngest entry on both sides. */
  lemma {:induction false} MirrorsPush<V(!new)>(s: seq<Entry<V>>, m: Slots<V>, n: nat, e: Entry<V>)
    requires Mirrors(s, m, n) && e.key !in m
    ensures Mirrors(s + [e], m[e.key := Slot(e.value, e.expires, n)], n + 1)
  {
    var s', m' := s + [e], m[e.key := Slot(e.value, e.expires, n)];
    forall x | x in s ensures SameEntry(x, m') && x.key in m && x.key != e.key {
      assert SameEntry(x, m);
    }
    OrderedAlike(s, m, m');
    assert Ordered(s', m') by {
      forall i | 0 <= i < |s| ensures UsedBefore(m', s[i].key, e.key) {
        assert s[i] in s;
      }
    }
    forall k | k in m' ensures HoldsKey(s', k) {
      if k == e.key {
        assert s'[|s|].key == k;
      } else {
        assert HoldsKey(s, k);
        var i :| 0 <= i < |s| && s[i].key == k;
        assert s'[i].key == k;
      }
    }
  }

  /** The head of the one is the least recently used key of the other. */
  lemma {:induction false} HeadIsOldest<V(!new)>(s: seq<Entry<V>>, m: Slots<V>, n: nat, k: string)
    requires Mirrors(s, m, n) && s != [] && k in m
    ensures s[0].key in m && (k != s[0].key <==> m[s[0].key].used < m[k].used)
  {
    assert s[0] in s && SameEntry(s[0], m) && HoldsKey(s, k);
    var i :| 0 <= i < |s| && s[i].key == k;
    assert i > 0 ==> UsedBefore(m, s[0].key, s[i].key);
  }

  lemma {:induction false} EvictsHead<V(!new)>(s: seq<Entry<V>>, m: Slots<V>, n: nat, maxsize: nat)
    requires Mirrors(s, m, n) && |m| > maxsize && s != []
    ensures Evict(m, maxsize) == m - {s[0].key}
  {
    forall k | k in m ensures HasOlder(m, k) <==> k != s[0].key {
      HeadIsOldest(s, m, n, k);
      HeadHasNoOlder(s, m, n);
    }
  }

  lemma {:induction false} HeadHasNoOlder<V(!new)>(s: seq<Entry<V>>, m: Slots<V>, n: nat)
    requires Mirrors(s, m, n) && s != [] && s[0].key in m
    ensures !HasOlder(m, s[0].key)
  {
    forall j | j in m ensures m[s[0].key].used <= m[j].used {
      HeadIsOldest(s, m, n, j);
    }
  }

  lemma {:induction false} TailIsWithout<V>(s: seq<Entry<V>>)
    requires DistinctKeys(s) && s != []
    ensures Without(s, s[0].key) == s[1..]
  {
    KeepTail(s, (e: Entry<V>) => e.key != s[0].key);
  }

  lemma {:induction false} KeepTail<T>(s: seq<T>, p: T -> bool)
    requires s != [] && !p(s[0]) && forall i :: 0 < i < |s| ==> p(s[i])
    ensures Keep(s, p) == s[1..]
  {
    if |s| > 1 {
      KeepTail(s[..|s| - 1], p);
      TailThenLast(s);
    }
  }

  /** Dropping the head of the one is evicting from the other. */
  lemma {:induction false} MirrorsTrim<V(!new)>(s: seq<Entry<V>>, m: Slots<V>, n: nat, maxsize: nat)
    requires Mirrors(s, m, n)
    ensures Mirrors(Trim(s, maxsize), Evict(m, maxsize), n)
  {
    MirrorsDistinct(s, m, n);
    forall k ensures k in m.Keys <==> HoldsKey(s, k) {
      if i :| 0 <= i < |s| && s[i].key == k {
        assert SameEntry(s[i], m);
      }
    }
    KeysCount(s, m.Keys);
    assert |m.Keys| == |m|;
    if |s| > maxsize {
      EvictsHead(s, m, n, maxsize);
      TailIsWithout(s);
      MirrorsWithout(s, m, n, s[0].key);
    }
  }

  lemma {:induction false} MirrorsLater<V(!new)>(s: seq<Entry<V>>, m: Slots<V>, n: nat)
    requires Mirrors(s, m, n)
    ensures Mirrors(s, m, n + 1)
  {
  }

  lemma {:induction false} MirrorsWithout<V(!new)>(s: seq<Entry<V>>, m: Slots<V>, n: nat, key: string)
    requires Mirrors(s, m, n)
    ensures Mirrors(Without(s, key), m - {key}, n)
  {
    MirrorsKeep(s, m, n, (e: Entry<V>) => e.key != key, m - {key});
  }

  /** Whether the key was there or not. */
  lemma {:induction false} MirrorsUse<V(!new)>(s: seq<Entry<V>>, m: Slots<V>, n: nat, e: Entry<V>)
    requires Mirrors(s, m, n)
    ensures Mirrors(Without(s, e.key) + [e], m[e.key := Slot(e.value, e.expires, n)], n + 1)
  {
    MirrorsWithout(s, m, n, e.key);
    MirrorsPush(Without(s, e.key), m - {e.key}, n, e);
    assert (m - {e.key})[e.key := Slot(e.value, e.expires, n)] == m[e.key := Slot(e.value, e.expires, n)];
  }

  lemma {:induction false} MirrorsGet<V(!new)>(s: seq<Entry<V>>, m: Slots<V>, n: nat, maxsize: nat, ttl: real,
          t: Timed<V>)
    requires Mirrors(s, m, n) && t.op.Get?
    ensures Mirrors(Step(s, maxsize, ttl, t), SlotStep(m, maxsize, ttl, n, t), n + 1)
  {
    var key := t.op.key;
    MirrorsLookup(s, m, n, key);
    MirrorsLater(s, m, n);
    if key in m {
      MirrorsWithout(s, m, n + 1, key);
      MirrorsUse(s, m, n, Lookup(s, key).value);
    }
  }

  lemma {:induction false} MirrorsNewest<V(!new)>(s: seq<Entry<V>>, m: Slots<V>, n: nat, maxsize: nat, e: Entry<V>)
    requires Mirrors(s, m, n)
    ensures var used := m[e.key := Slot(e.value, e.expires, n)];
            Mirrors(Trim(Without(s, e.key) + [e], maxsize), Evict(used, maxsize), n + 1)
  {
    MirrorsUse(s, m, n, e);
    MirrorsTrim(Without(s, e.key) + [e], m[e.key := Slot(e.value, e.expires, n)], n + 1, maxsize);
  }

  lemma {:induction false} SlotSet<V>(m: Slots<V>, maxsize: nat, ttl: real, n: nat, t: Timed<V>, e: Entry<V>)
    requires t.op.Set? && e == Entry(t.op.key, t.now + ttl, t.op.value)
    ensures SlotStep(m, maxsize, ttl, n, t) == Evict(m[e.key := Slot(e.value, e.expires, n)], maxsize)
  {
  }

  lemma {:induction false} MirrorsSet<V(!new)>(s: seq<Entry<V>>, m: Slots<V>, n: nat, maxsize: nat, ttl: real,
          t: Timed<V>)
    requires Mirrors(s, m, n) && t.op.Set?
    ensures Mirrors(Step(s, maxsize, ttl, t), SlotStep(m, maxsize, ttl, n, t), n + 1)
  {
    var e := Entry(t.op.key, t.now + ttl, t.op.value);
    SetIsPush(s, maxsize, ttl, t);
    SlotSet(m, maxsize, ttl, n, t, e);
    MirrorsNewest(s, m, n, maxsize, e);
  }

  lemma {:induction false} MirrorsPrefix<V(!new)>(s: seq<Entry<V>>, m: Slots<V>, n: nat, maxsize: nat, ttl: real,
          t: Timed<V>)
    requires Mirrors(s, m, n) && t.op.ClearPrefix?
    ensures Mirrors(Step(s, maxsize, ttl, t), SlotStep(m, maxsize, ttl, n, t), n + 1)
  {
    var prefix := t.op.prefix;
    forall e | e in s ensures e.key in m {
      assert SameEntry(e, m);
    }
    MirrorsLater(s, m, n);
    MirrorsKeep(s, m, n + 1, (e: Entry<V>) => !(prefix <= e.key), SlotStep(m, maxsize, ttl, n, t));
  }

  lemma {:induction false} MirrorsDelete<V(!new)>(s: seq<Entry<V>>, m: Slots<V>, n: nat, maxsize: nat, ttl: real,
          t: Timed<V>)
    requires Mirrors(s, m, n) && t.op.Delete?
    ensures Mirrors(Step(s, maxsize, ttl, t), SlotStep(m, maxsize, ttl, n, t), n + 1)
  {
    MirrorsLater(s, m, n);
    MirrorsWithout(s, m, n + 1, t.op.key);
  }

  lemma {:induction false} MirrorsStep<V(!new)>(s: seq<Entry<V>>, m: Slots<V>, n: nat, maxsize: nat, ttl: real,
          t: Timed<V>)
    requires Mirrors(s, m, n)
    ensures Mirrors(Step(s, maxsize, ttl, t), SlotStep(m, maxsize, ttl, n, t), n + 1)
  {
    match t.op
    case Get(_) => MirrorsGet(s, m, n, maxsize, ttl, t);
    case Set(_, _) => MirrorsSet(s, m, n, maxsize, ttl, t);
    case Delete(_) => MirrorsDelete(s, m, n, maxsize, ttl, t);
    case ClearPrefix(_) => MirrorsPrefix(s, m, n, maxsize, ttl, t);
  }

  /**
    Over every history the entries in their order are those of a cache that numbers its uses and evicts the key
    that was set or hit longest ago.
   */
  lemma {:induction false} EvictsLeastRecentlyUsed<V(!new)>(maxsize: nat, ttl: real, history: seq<Timed<V>>)
    ensures Mirrors(Run(maxsize, ttl, history), SlotRun(maxsize, ttl, history), |history|)
  {
    if history != [] {
      var n := |history| - 1;
      EvictsLeastRecentlyUsed(maxsize, ttl, history[..n]);
      MirrorsStep(Run(maxsize, ttl, history[..n]), SlotRun(maxsize, ttl, history[..n]), n, maxsize, ttl, history[n]);
    }
  }

  /** And so are the answers. */
  lemma {:induction false} AnswersAlike<V(!new)>(maxsize: nat, ttl: real, history: seq<Timed<V>>, key: string,
          now: real)
    ensures var m := SlotRun(maxsize, ttl, history);
            Answer(Run(maxsize, ttl, history), key, now) ==
            if key in m && now <= m[key].expires then Some(m[key].value) else None
  {
    EvictsLeastRecentlyUsed(maxsize, ttl, history);
    MirrorsLookup(Run(maxsize, ttl, history), SlotRun(maxsize, ttl, history), |history|, key);
  }

  // ---- Which key goes ----

  /** Operation i of the history sets k or is a hit of k. */
  ghost predicate IsUse<V(!new)>(maxsize: nat, ttl: real, history: seq<Timed<V>>, i: int, k: string) {
    0 <= i < |history| &&
    match history[i].op
    case Get(key) => key == k && Answer(Run(maxsize, ttl, history[..i]), k, history[i].now).Some?
    case Set(key, _) => key == k
    case _ => false
  }

  ghost predicate IsLastUse<V(!new)>(maxsize: nat, ttl: real, history: seq<Timed<V>>, i: int, k: string) {
    IsUse(maxsize, ttl, history, i, k) && forall j :: IsUse(maxsize, ttl, history, j, k) ==> j <= i
  }

  lemma {:induction false} UseEarlier<V(!new)>(maxsize: nat, ttl: real, history: seq<Timed<V>>, i: nat, k: string)
    requires i < |history| - 1
    ensures IsUse(maxsize, ttl, history, i, k) <==> IsUse(maxsize, ttl, history[..|history| - 1], i, k)
  {
    assert history[..|history| - 1][..i] == history[..i];
  }

  /** What one operation does to the number that a key carries. */
  lemma {:induction false} SlotStepUsed<V(!new)>(m: Slots<V>, maxsize: nat, ttl: real, n: nat, t: Timed<V>, k: string)
    requires k in SlotStep(m, maxsize, ttl, n, t)
    ensures var m', hit := SlotStep(m, maxsize, ttl, n, t), t.op.Get? && t.op.key == k;
            if hit || (t.op.Set? && t.op.key == k) then m'[k].used == n && (hit ==> k in m && t.now <= m[k].expires)
            else k in m && m'[k] == m[k]
  {
  }

  lemma {:induction false} StillLastUse<V(!new)>(maxsize: nat, ttl: real, history: seq<Timed<V>>, i: nat, k: string)
    requires history != [] && IsLastUse(maxsize, ttl, history[..|history| - 1], i, k)
    requires !IsUse(maxsize, ttl, history, |history| - 1, k)
    ensures IsLastUse(maxsize, ttl, history, i, k)
  {
    UseEarlier(maxsize, ttl, history, i, k);
    forall j | IsUse(maxsize, ttl, history, j, k) ensures j <= i {
      if j < |history| - 1 {
        UseEarlier(maxsize, ttl, history, j, k);
      }
    }
  }

  /** The number that a key carries is that of its last use. */
  lemma {:induction false} UsedIsLastUse<V(!new)>(maxsize: nat, ttl: real, history: seq<Timed<V>>, k: string)
    requires k in SlotRun(maxsize, ttl, history)
    ensures IsLastUse(maxsize, ttl, history, SlotRun(maxsize, ttl, history)[k].used, k)
  {
    var n := |history| - 1;
    var init, last := history[..n], history[n];
    SlotStepUsed(SlotRun(maxsize, ttl, init), maxsize, ttl, n, last, k);
    AnswersAlike(maxsize, ttl, init, k, last.now);
    if (last.op.Get? || last.op.Set?) && last.op.key == k {
      assert IsUse(maxsize, ttl, history, n, k);
    } else {
      UsedIsLastUse(maxsize, ttl, init, k);
      StillLastUse(maxsize, ttl, history, SlotRun(maxsize, ttl, init)[k].used, k);
    }
  }

  lemma {:induction false} SetWhenFull<V>(s: seq<Entry<V>>, maxsize: nat, ttl: real, key: string, value: V, now: real)
    requires maxsize > 0 && |s| == maxsize && !HoldsKey(s, key)
    ensures AfterSet(s, maxsize, ttl, key, value, now) == s[1..] + [Entry(key, now + ttl, value)]
  {
    WithoutAbsent(s, key);
    TrimPushed(s, Entry(key, now + ttl, value));
  }

  lemma {:induction false} TrimPushed<V>(s: seq<Entry<V>>, e: Entry<V>)
    requires s != []
    ensures Trim(s + [e], |s|) == s[1..] + [e]
  {
  }

  lemma {:induction false} WithoutAbsent<V>(s: seq<Entry<V>>, key: string)
    requires !HoldsKey(s, key)
    ensures Without(s, key) == s
  {
    forall e | e in s ensures e.key != key {
      var i :| 0 <= i < |s| && s[i] == e;
      assert s[i].key != key;
    }
    KeepAll(s, (e: Entry<V>) => e.key != key);
  }

  /** The entries stand in the order of their last uses. */
  lemma {:induction false} OrderIsLastUse<V(!new)>(maxsize: nat, ttl: real, history: seq<Timed<V>>, i: nat, j: nat)
      returns (a: nat, b: nat)
    requires i < j < |Run(maxsize, ttl, history)|
    ensures var s := Run(maxsize, ttl, history);
            IsLastUse(maxsize, ttl, history, a, s[i].key) && IsLastUse(maxsize, ttl, history, b, s[j].key) && a < b
  {
    var s, m := Run(maxsize, ttl, history), SlotRun(maxsize, ttl, history);
    EvictsLeastRecentlyUsed(maxsize, ttl, history);
    assert UsedBefore(m, s[i].key, s[j].key);
    a, b := m[s[i].key].used, m[s[j].key].used;
    UsedIsLastUse(maxsize, ttl, history, s[i].key);
    UsedIsLastUse(maxsize, ttl, history, s[j].key);
  }

  /** Setting a new key in a full cache drops the entry whose last set or hit is the oldest, and that one only. */
  lemma {:induction false} SetDropsOldestUse<V(!new)>(maxsize: nat, ttl: real, history: seq<Timed<V>>, key: string,
          value: V, now: real, i: nat, a: int, b: int)
    requires var s := Run(maxsize, ttl, history);
             && |s| == maxsize && !HoldsKey(s, key) && 0 < i < |s|
             && IsLastUse(maxsize, ttl, history, a, s[0].key) && IsLastUse(maxsize, ttl, history, b, s[i].key)
    ensures var s := Run(maxsize, ttl, history);
            AfterSet(s, maxsize, ttl, key, value, now) == s[1..] + [Entry(key, now + ttl, value)] && a < b
  {
    SetWhenFull(Run(maxsize, ttl, history), maxsize, ttl, key, value, now);
    var a', b' := OrderIsLastUse(maxsize, ttl, history, 0, i);
  }
}
