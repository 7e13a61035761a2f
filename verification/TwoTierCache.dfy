/**
  The two-tier cache of the catalog service: each replica keeps a local TtlCache whose entries live
  cacheTtl/3, in front of one Redis shared by all replicas whose entries live cacheTtl.
  A Redis call may fail, and a failed write may or may not have taken effect.
 */
module TwoTierCache {
  import opened Prelude
  import opened TtlLruCache

  /** A cached datum together with the time of the cache_set that stored it. */
  datatype Stamped = Stamped(data: string, setAt: real)

  datatype RedisEntry = RedisEntry(value: Stamped, expires: real)
  type RedisState = map<string, RedisEntry>
  type LocalState = seq<Entry<Stamped>>

  datatype Config = Config(maxsize: nat, cacheTtl: real)

  predicate ValidConfig(cfg: Config) { cfg.cacheTtl > 0.0 }

  /** How a Redis call ends; a lost call had no effect, an unacknowledged one did. */
  datatype Wire = Ok | Lost | Unacknowledged

  // ---- What each cache function does to one replica and to Redis ----

  function RedisGet(redis: RedisState, key: string, now: real, wire: Wire): Option<Stamped> {
    if wire.Ok? && key in redis && now <= redis[key].expires then Some(redis[key].value) else None
  }

  function GetAnswer(local: LocalState, redis: RedisState, key: string, now: real, wire: Wire): Option<Stamped> {
    match Answer(local, key, now)
    case Some(v) => Some(v)
    case None => RedisGet(redis, key, now, wire)
  }

  function LocalAfterGet(local: LocalState, redis: RedisState, cfg: Config, key: string, now: real,
          wire: Wire): LocalState {
    var touched := AfterGet(local, key, now);
    if Answer(local, key, now).Some? then touched
    else match RedisGet(redis, key, now, wire)
      case None => touched
      case Some(v) => AfterSet(touched, cfg.maxsize, cfg.cacheTtl / 3.0, key, v, now)
  }

  function LocalAfterSet(local: LocalState, cfg: Config, key: string, v: Stamped, now: real): LocalState {
    AfterSet(local, cfg.maxsize, cfg.cacheTtl / 3.0, key, v, now)
  }

  function RedisAfterSet(redis: RedisState, cfg: Config, key: string, v: Stamped, now: real, wire: Wire): RedisState {
    if wire.Lost? then redis else redis[key := RedisEntry(v, now + cfg.cacheTtl)]
  }

  function RedisAfterDelete(redis: RedisState, key: string, wire: Wire): RedisState {
    if wire.Lost? then redis else redis - {key}
  }

  /** A prefix scan that fails part way has deleted only the keys it had reached. */
  function RedisAfterScan(redis: RedisState, prefix: string, reached: set<string>, wire: Wire): RedisState {
    map k | k in redis && !(prefix <= k && (wire.Ok? || k in reached)) :: redis[k]
  }

  class Redis {
    var entries: RedisState

    constructor ()
      ensures entries == map[]
    {
      entries := map[];
    }
  }

  class Replica {
    const cfg: Config
    const local: TtlCache<Stamped>
    const redis: Redis

    ghost predicate Valid()
      reads this, local
    {
      local.Valid() && local.maxsize == cfg.maxsize && local.ttl == cfg.cacheTtl / 3.0
    }

    constructor (cfg: Config, redis: Redis)
      ensures Valid() && fresh(local) && this.redis == redis && this.cfg == cfg && local.store == []
    {
      this.cfg, this.redis := cfg, redis;
      this.local := new TtlCache(cfg.maxsize, cfg.cacheTtl / 3.0);
    }

    method CacheGet(key: string, now: real, wire: Wire) returns (value: Option<Stamped>)
      requires Valid()
      modifies local
      ensures Valid()
      ensures value == GetAnswer(old(local.store), redis.entries, key, now, wire)
      ensures local.store == LocalAfterGet(old(local.store), redis.entries, cfg, key, now, wire)
    {
      value := local.Get(key, now);
      if value.Some? {
        return;
      }
      if wire.Ok? && key in redis.entries && now <= redis.entries[key].expires {
        var data := redis.entries[key].value;
        local.Set(key, data, now);
        return Some(data);
      }
    }

    method CacheSet(key: string, data: string, now: real, wire: Wire)
      requires Valid()
      modifies local, redis
      ensures Valid()
      ensures local.store == LocalAfterSet(old(local.store), cfg, key, Stamped(data, now), now)
      ensures redis.entries == RedisAfterSet(old(redis.entries), cfg, key, Stamped(data, now), now, wire)
    {
      local.Set(key, Stamped(data, now), now);
      if !wire.Lost? {
        redis.entries := redis.entries[key := RedisEntry(Stamped(data, now), now + cfg.cacheTtl)];
      }
    }

    method CacheInvalidate(key: string, wire: Wire)
      requires Valid()
      modifies local, redis
      ensures Valid()
      ensures local.store == Without(old(local.store), key)
      ensures redis.entries == RedisAfterDelete(old(redis.entries), key, wire)
    {
      local.Delete(key);
      if !wire.Lost? {
        redis.entries := redis.entries - {key};
      }
    }

    method CacheInvalidatePrefix(prefix: string, reached: set<string>, wire: Wire)
      requires Valid()
      modifies local, redis
      ensures Valid()
      ensures local.store == WithoutPrefix(old(local.store), prefix)
      ensures redis.entries == RedisAfterScan(old(redis.entries), prefix, reached, wire)
    {
      local.ClearPrefix(prefix);
      redis.entries := map k | k in redis.entries && !(prefix <= k && (wire.Ok? || k in reached)) :: redis.entries[k];
    }
  }

  // ---- Runs of a whole cluster ----

  datatype Cluster = Cluster(locals: seq<LocalState>, redis: RedisState)

  datatype Call =
    | GetCall(key: string, wire: Wire)
    | SetCall(key: string, data: string, wire: Wire)
    | InvalidateCall(key: string, wire: Wire)
    | InvalidatePrefixCall(prefix: string, reached: set<string>, wire: Wire)

  datatype Event = Event(now: real, replica: nat, call: Call)

  /** What one call does to the entries of the replica it runs on. */
  function LocalAfter(local: LocalState, redis: RedisState, cfg: Config, e: Event): LocalState {
    match e.call
    case GetCall(key, wire) => LocalAfterGet(local, redis, cfg, key, e.now, wire)
    case SetCall(key, data, _) => LocalAfterSet(local, cfg, key, Stamped(data, e.now), e.now)
    case InvalidateCall(key, _) => Without(local, key)
    case InvalidatePrefixCall(prefix, _, _) => WithoutPrefix(local, prefix)
  }

  function RedisAfter(redis: RedisState, cfg: Config, e: Event): RedisState {
    match e.call
    case GetCall(_, _) => redis
    case SetCall(key, data, wire) => RedisAfterSet(redis, cfg, key, Stamped(data, e.now), e.now, wire)
    case InvalidateCall(key, wire) => RedisAfterDelete(redis, key, wire)
    case InvalidatePrefixCall(prefix, reached, wire) => RedisAfterScan(redis, prefix, reached, wire)
  }

  function After(c: Cluster, cfg: Config, e: Event): (c': Cluster)
    requires e.replica < |c.locals|
    ensures |c'.locals| == |c.locals|
  {
    Cluster(c.locals[e.replica := LocalAfter(c.locals[e.replica], c.redis, cfg, e)], RedisAfter(c.redis, cfg, e))
  }

  /** Events of n replicas in time order, none before start. */
  ghost predicate IsHistory(n: nat, start: real, history: seq<Event>) {
    && (forall i :: 0 <= i < |history| ==> history[i].replica < n && history[i].now >= start)
    && (forall i, j :: 0 <= i < j < |history| ==> history[i].now <= history[j].now)
  }

  function RunFrom(c: Cluster, cfg: Config, history: seq<Event>): (c': Cluster)
    requires forall i :: 0 <= i < |history| ==> history[i].replica < |c.locals|
    ensures |c'.locals| == |c.locals|
  {
    if history == [] then c
    else After(RunFrom(c, cfg, history[..|history| - 1]), cfg, history[|history| - 1])
  }

  function Empty(n: nat): Cluster {
    Cluster(seq(n, i => []), map[])
  }

  /** The time reached by a history that began at start. */
  function Clock(start: real, history: seq<Event>): real {
    if history == [] then start else history[|history| - 1].now
  }

  // ---- Bounded staleness ----

  ghost predicate LocalFresh(local: LocalState, cfg: Config, now: real) {
    forall e :: e in local ==>
      && e.expires <= now + cfg.cacheTtl / 3.0
      && e.expires <= e.value.setAt + cfg.cacheTtl + cfg.cacheTtl / 3.0
  }

  ghost predicate RedisFresh(redis: RedisState, cfg: Config) {
    forall k :: k in redis ==> redis[k].expires == redis[k].value.setAt + cfg.cacheTtl
  }

  ghost predicate ClusterFresh(c: Cluster, cfg: Config, now: real) {
    RedisFresh(c.redis, cfg) && forall r :: 0 <= r < |c.locals| ==> LocalFresh(c.locals[r], cfg, now)
  }

  /** Forgetting and reordering entries keeps them fresh, and so does the passing of time. */
  lemma {:induction false} FewerFresh(local: LocalState, fewer: LocalState, cfg: Config, before: real, now: real)
    requires ValidConfig(cfg) && LocalFresh(local, cfg, before) && before <= now
    requires forall e :: e in fewer ==> e in local
    ensures LocalFresh(fewer, cfg, now)
  {
  }

  /** The local copy of a value that was set at most cacheTtl ago. */
  lemma {:induction false} SetFresh(local: LocalState, cfg: Config, key: string, v: Stamped, now: real)
    requires ValidConfig(cfg) && LocalFresh(local, cfg, now) && now <= v.setAt + cfg.cacheTtl
    ensures LocalFresh(LocalAfterSet(local, cfg, key, v, now), cfg, now)
  {
  }

  lemma {:induction false} GetFresh(local: LocalState, redis: RedisState, cfg: Config, key: string, before: real,
          now: real, wire: Wire)
    requires ValidConfig(cfg) && LocalFresh(local, cfg, before) && RedisFresh(redis, cfg) && before <= now
    ensures LocalFresh(LocalAfterGet(local, redis, cfg, key, now, wire), cfg, now)
  {
    var touched := AfterGet(local, key, now);
    FewerFresh(local, touched, cfg, before, now);
    if RedisGet(redis, key, now, wire).Some? {
      SetFresh(touched, cfg, key, redis[key].value, now);
    }
  }

  lemma {:induction false} LocalStepFresh(local: LocalState, redis: RedisState, cfg: Config, before: real, e: Event)
    requires ValidConfig(cfg) && LocalFresh(local, cfg, before) && RedisFresh(redis, cfg) && before <= e.now
    ensures LocalFresh(LocalAfter(local, redis, cfg, e), cfg, e.now)
  {
    FewerFresh(local, local, cfg, before, e.now);
    match e.call
    case GetCall(key, wire) => GetFresh(local, redis, cfg, key, before, e.now, wire);
    case SetCall(key, data, _) => SetFresh(local, cfg, key, Stamped(data, e.now), e.now);
    case InvalidateCall(key, _) => FewerFresh(local, Without(local, key), cfg, before, e.now);
    case InvalidatePrefixCall(prefix, _, _) => FewerFresh(local, WithoutPrefix(local, prefix), cfg, before, e.now);
  }

  lemma {:induction false} RedisStepFresh(redis: RedisState, cfg: Config, e: Event)
    requires RedisFresh(redis, cfg)
    ensures RedisFresh(RedisAfter(redis, cfg, e), cfg)
  {
  }

  lemma {:induction false} AfterKeepsFresh(c: Cluster, cfg: Config, before: real, e: Event)
    requires ValidConfig(cfg)
    requires ClusterFresh(c, cfg, before) && before <= e.now && e.replica < |c.locals|
    ensures ClusterFresh(After(c, cfg, e), cfg, e.now)
  {
    var c' := After(c, cfg, e);
    RedisStepFresh(c.redis, cfg, e);
    LocalStepFresh(c.locals[e.replica], c.redis, cfg, before, e);
    forall r | 0 <= r < |c.locals| ensures LocalFresh(c'.locals[r], cfg, e.now) {
      if r != e.replica {
        FewerFresh(c.locals[r], c.locals[r], cfg, before, e.now);
      }
    }
  }

  lemma {:induction false} RunKeepsFresh(c: Cluster, cfg: Config, start: real, history: seq<Event>)
    requires ValidConfig(cfg) && ClusterFresh(c, cfg, start)
    requires IsHistory(|c.locals|, start, history)
    ensures ClusterFresh(RunFrom(c, cfg, history), cfg, Clock(start, history))
  {
    if history != [] {
      var before := history[..|history| - 1];
      RunKeepsFresh(c, cfg, start, before);
      AfterKeepsFresh(RunFrom(c, cfg, before), cfg, Clock(start, before), history[|history| - 1]);
    }
  }

  /**
    Whatever the replicas did and whichever Redis calls failed, an answer given at time t was set no
    earlier than t - 4/3 cacheTtl.
   */
  lemma {:induction false} BoundedStaleness(n: nat, cfg: Config, start: real, history: seq<Event>, r: nat,
          key: string, t: real, wire: Wire)
    requires ValidConfig(cfg) && IsHistory(n, start, history) && r < n && t >= Clock(start, history)
    ensures var c := RunFrom(Empty(n), cfg, history);
            var answer := GetAnswer(c.locals[r], c.redis, key, t, wire);
            answer.Some? ==> answer.value.setAt >= t - 4.0 * cfg.cacheTtl / 3.0
  {
    RunKeepsFresh(Empty(n), cfg, start, history);
    var c := RunFrom(Empty(n), cfg, history);
    assert LocalFresh(c.locals[r], cfg, Clock(start, history));
  }

  lemma {:induction false} RunOfTwo(c: Cluster, cfg: Config, e0: Event, e1: Event)
    requires e0.replica < |c.locals| && e1.replica < |c.locals|
    ensures RunFrom(c, cfg, [e0, e1]) == After(After(c, cfg, e0), cfg, e1)
  {
    assert [e0, e1][..1] == [e0] && [e0][..0] == [];
    assert RunFrom(c, cfg, [e0]) == After(c, cfg, e0);
  }

  /** A value copied from Redis at its last moment lives cacheTtl/3 more. */
  function LastMinuteCopy(cfg: Config, key: string, data: string): seq<Event> {
    [Event(0.0, 0, SetCall(key, data, Ok)), Event(cfg.cacheTtl, 1, GetCall(key, Ok))]
  }

  /** So the bound is reached, under every configuration that keeps anything locally. */
  lemma {:induction false} StalenessIsTight(cfg: Config, key: string, data: string)
    requires ValidConfig(cfg) && cfg.maxsize > 0
    ensures var history, t := LastMinuteCopy(cfg, key, data), 4.0 * cfg.cacheTtl / 3.0;
            && IsHistory(2, 0.0, history) && Clock(0.0, history) <= t
            && var c := RunFrom(Empty(2), cfg, history);
               GetAnswer(c.locals[1], c.redis, key, t, Ok) == Some(Stamped(data, 0.0))
  {
    var history := LastMinuteCopy(cfg, key, data);
    RunOfTwo(Empty(2), cfg, history[0], history[1]);
    var c := After(Empty(2), cfg, history[0]);
    assert c.locals[1] == [];
    CopyIsServed([], c.redis, cfg, key, cfg.cacheTtl);
  }

  lemma {:induction false} SetIsServed(local: LocalState, cfg: Config, key: string, v: Stamped, now: real)
    requires cfg.maxsize > 0
    ensures Lookup(LocalAfterSet(local, cfg, key, v, now), key) == Some(Entry(key, now + cfg.cacheTtl / 3.0, v))
  {
  }

  /** What a replica that holds nothing for key copies from Redis, it answers until its copy lapses. */
  lemma {:induction false} CopyIsServed(local: LocalState, redis: RedisState, cfg: Config, key: string, now: real)
    requires cfg.maxsize > 0 && key in redis && now <= redis[key].expires && Lookup(local, key).None?
    ensures var after := LocalAfterGet(local, redis, cfg, key, now, Ok);
            Answer(after, key, now + cfg.cacheTtl / 3.0) == Some(redis[key].value)
  {
    SetIsServed(local, cfg, key, redis[key].value, now);
  }

  // ---- Invalidation ----

  /** How long Redis may go on answering an older value: a replica that keeps nothing locally adds nothing to it. */
  function LastCopy(cfg: Config, i: real): real {
    if cfg.maxsize > 0 then i else i + cfg.cacheTtl / 3.0
  }

  /** Redis holds a value for key that was set before time i and that can still be copied, or answered, too late. */
  predicate HoldsStale(redis: RedisState, cfg: Config, key: string, i: real) {
    key in redis && redis[key].value.setAt < i && redis[key].expires > LastCopy(cfg, i)
  }

  ghost predicate LocalPurged(local: LocalState, cfg: Config, key: string, i: real) {
    forall e :: e in local && e.key == key ==> e.value.setAt >= i || e.expires <= i + cfg.cacheTtl / 3.0
  }

  /** Everything still held for key was set at or after time i, or is about to lapse. */
  ghost predicate Purged(c: Cluster, cfg: Config, key: string, i: real) {
    && !HoldsStale(c.redis, cfg, key, i)
    && forall r :: 0 <= r < |c.locals| ==> LocalPurged(c.locals[r], cfg, key, i)
  }

  /** A call that is meant to remove key. */
  predicate Targets(call: Call, key: string) {
    match call
    case InvalidateCall(k, _) => k == key
    case InvalidatePrefixCall(prefix, _, _) => prefix <= key
    case _ => false
  }

  /** Does this call remove key from Redis for certain? */
  predicate Invalidates(call: Call, key: string) {
    match call
    case InvalidateCall(k, wire) => k == key && !wire.Lost?
    case InvalidatePrefixCall(prefix, reached, wire) => prefix <= key && (wire.Ok? || key in reached)
    case _ => false
  }

  lemma {:induction false} FewerPurged(local: LocalState, fewer: LocalState, cfg: Config, key: string, i: real)
    requires LocalPurged(local, cfg, key, i)
    requires forall e :: e in fewer ==> e in local
    ensures LocalPurged(fewer, cfg, key, i)
  {
  }

  lemma {:induction false} SetPurged(local: LocalState, cfg: Config, key: string, i: real, k: string, v: Stamped,
          now: real)
    requires LocalPurged(local, cfg, key, i) && (cfg.maxsize == 0 ==> local == [])
    requires k == key ==> v.setAt >= i || now <= i || cfg.maxsize == 0
    ensures LocalPurged(LocalAfterSet(local, cfg, k, v, now), cfg, key, i)
  {
  }

  lemma {:induction false} LocalStepPurged(local: LocalState, redis: RedisState, cfg: Config, key: string, i: real,
          e: Event)
    requires LocalPurged(local, cfg, key, i) && (cfg.maxsize == 0 ==> local == [])
    requires !HoldsStale(redis, cfg, key, i) && i <= e.now
    ensures LocalPurged(LocalAfter(local, redis, cfg, e), cfg, key, i)
  {
    match e.call
    case GetCall(k, wire) =>
      var touched := AfterGet(local, k, e.now);
      FewerPurged(local, touched, cfg, key, i);
      if RedisGet(redis, k, e.now, wire).Some? {
        SetPurged(touched, cfg, key, i, k, redis[k].value, e.now);
      }
    case SetCall(k, data, _) => SetPurged(local, cfg, key, i, k, Stamped(data, e.now), e.now);
    case InvalidateCall(k, _) => FewerPurged(local, Without(local, k), cfg, key, i);
    case InvalidatePrefixCall(prefix, _, _) => FewerPurged(local, WithoutPrefix(local, prefix), cfg, key, i);
  }

  /** A cache of size 0 stays empty. */
  ghost predicate KeepsNothing(c: Cluster, cfg: Config) {
    cfg.maxsize == 0 ==> forall r :: 0 <= r < |c.locals| ==> c.locals[r] == []
  }

  lemma {:induction false} AfterKeepsNothing(c: Cluster, cfg: Config, e: Event)
    requires KeepsNothing(c, cfg) && e.replica < |c.locals|
    ensures KeepsNothing(After(c, cfg, e), cfg)
  {
    if cfg.maxsize == 0 {
      var local := c.locals[e.replica];
      assert local == [] && LocalAfter(local, c.redis, cfg, e) == [];
    }
  }

  lemma {:induction false} RunKeepsNothing(c: Cluster, cfg: Config, start: real, history: seq<Event>)
    requires KeepsNothing(c, cfg) && IsHistory(|c.locals|, start, history)
    ensures KeepsNothing(RunFrom(c, cfg, history), cfg)
  {
    if history != [] {
      var before := history[..|history| - 1];
      RunKeepsNothing(c, cfg, start, before);
      AfterKeepsNothing(RunFrom(c, cfg, before), cfg, history[|history| - 1]);
    }
  }

  lemma {:induction false} AfterKeepsPurged(c: Cluster, cfg: Config, key: string, i: real, e: Event)
    requires ValidConfig(cfg) && KeepsNothing(c, cfg)
    requires Purged(c, cfg, key, i) && i <= e.now && e.replica < |c.locals|
    ensures Purged(After(c, cfg, e), cfg, key, i)
  {
    LocalStepPurged(c.locals[e.replica], c.redis, cfg, key, i, e);
  }

  lemma {:induction false} RunKeepsPurged(c: Cluster, cfg: Config, key: string, i: real, history: seq<Event>)
    requires ValidConfig(cfg) && KeepsNothing(c, cfg) && Purged(c, cfg, key, i) && IsHistory(|c.locals|, i, history)
    ensures Purged(RunFrom(c, cfg, history), cfg, key, i)
  {
    if history != [] {
      var before := history[..|history| - 1];
      RunKeepsPurged(c, cfg, key, i, before);
      RunKeepsNothing(c, cfg, i, before);
      AfterKeepsPurged(RunFrom(c, cfg, before), cfg, key, i, history[|history| - 1]);
    }
  }

  /** Time t comes more than cacheTtl/3 after i, and replica r then answers a value set before i. */
  ghost predicate ServesOlder(c: Cluster, cfg: Config, key: string, i: real, later: seq<Event>, r: nat, t: real,
          wire: Wire) {
    && r < |c.locals| && IsHistory(|c.locals|, i, later) && t >= Clock(i, later) && t > i + cfg.cacheTtl / 3.0
    && var after := RunFrom(c, cfg, later);
       var answer := GetAnswer(after.locals[r], after.redis, key, t, wire);
       answer.Some? && answer.value.setAt < i
  }

  lemma {:induction false} PurgedServesNothingOlder(c: Cluster, cfg: Config, key: string, i: real, later: seq<Event>,
          r: nat, t: real, wire: Wire)
    requires ValidConfig(cfg) && KeepsNothing(c, cfg) && Purged(c, cfg, key, i)
    ensures !ServesOlder(c, cfg, key, i, later, r, t, wire)
  {
    if r < |c.locals| && IsHistory(|c.locals|, i, later) {
      RunKeepsPurged(c, cfg, key, i, later);
      assert LocalPurged(RunFrom(c, cfg, later).locals[r], cfg, key, i);
    }
  }

  /** What the cluster looks like once replica r has called for key to be removed. */
  lemma {:induction false} AfterTarget(c: Cluster, cfg: Config, key: string, inv: Event)
    requires inv.replica < |c.locals| && Targets(inv.call, key)
    ensures var c1 := After(c, cfg, inv);
            && Lookup(c1.locals[inv.replica], key).None?
            && (key in c1.redis <==> key in c.redis && !Invalidates(inv.call, key))
            && (key in c1.redis ==> c1.redis[key] == c.redis[key])
  {
  }

  lemma {:induction false} PurgedByTarget(c: Cluster, cfg: Config, before: real, key: string, inv: Event)
    requires ValidConfig(cfg) && ClusterFresh(c, cfg, before) && before <= inv.now
    requires inv.replica < |c.locals| && Targets(inv.call, key)
    requires Invalidates(inv.call, key) || !HoldsStale(c.redis, cfg, key, inv.now)
    ensures Purged(After(c, cfg, inv), cfg, key, inv.now)
  {
    var c1 := After(c, cfg, inv);
    AfterTarget(c, cfg, key, inv);
    AfterKeepsFresh(c, cfg, before, inv);
    forall r | 0 <= r < |c1.locals| ensures LocalPurged(c1.locals[r], cfg, key, inv.now) {
      assert LocalFresh(c1.locals[r], cfg, inv.now);
    }
  }

  lemma {:induction false} RunOfOne(c: Cluster, cfg: Config, e: Event)
    requires e.replica < |c.locals|
    ensures RunFrom(c, cfg, [e]) == After(c, cfg, e)
  {
    assert [e][..0] == [];
  }

  /** A stale value left in Redis is copied at its last moment, by the very replica that called for its removal. */
  lemma {:induction false} CopyOutlives(c: Cluster, cfg: Config, key: string, i: real, r: nat)
    requires ValidConfig(cfg) && cfg.maxsize > 0 && r < |c.locals| && Lookup(c.locals[r], key).None?
    requires HoldsStale(c.redis, cfg, key, i)
    ensures var last := c.redis[key].expires;
            ServesOlder(c, cfg, key, i, [Event(last, r, GetCall(key, Ok))], r, last + cfg.cacheTtl / 3.0, Ok)
  {
    var last := c.redis[key].expires;
    var get := Event(last, r, GetCall(key, Ok));
    CopyIsServed(c.locals[r], c.redis, cfg, key, last);
    RunOfOne(c, cfg, get);
    assert After(c, cfg, get).locals[r] == LocalAfterGet(c.locals[r], c.redis, cfg, key, last, Ok);
    assert IsHistory(|c.locals|, i, [get]);
  }

  lemma {:induction false} StaleIsServed(c: Cluster, cfg: Config, key: string, i: real, r: nat)
    requires ValidConfig(cfg) && HoldsStale(c.redis, cfg, key, i) && r < |c.locals| && Lookup(c.locals[r], key).None?
    ensures exists later, t :: ServesOlder(c, cfg, key, i, later, r, t, Ok)
  {
    if cfg.maxsize == 0 {
      assert ServesOlder(c, cfg, key, i, [], r, c.redis[key].expires, Ok);
    } else {
      CopyOutlives(c, cfg, key, i, r);
    }
  }

  /**
    A call that should remove key at time i fails of its purpose, so that some replica can answer a value set
    before i later than cacheTtl/3 after it, exactly when it had no effect on key in Redis and Redis then holds a
    value set before i that expires after it.
   */
  lemma {:induction false} LostInvalidationServesOldValue(n: nat, cfg: Config, start: real, earlier: seq<Event>,
          inv: Event, key: string)
    requires ValidConfig(cfg) && IsHistory(n, start, earlier)
    requires inv.replica < n && Clock(start, earlier) <= inv.now && Targets(inv.call, key)
    ensures var c := RunFrom(Empty(n), cfg, earlier);
            (exists later, r, t, wire :: ServesOlder(After(c, cfg, inv), cfg, key, inv.now, later, r, t, wire)) <==>
            !Invalidates(inv.call, key) && HoldsStale(c.redis, cfg, key, inv.now)
  {
    var c := RunFrom(Empty(n), cfg, earlier);
    var c1 := After(c, cfg, inv);
    RunKeepsFresh(Empty(n), cfg, start, earlier);
    RunKeepsNothing(Empty(n), cfg, start, earlier);
    AfterKeepsNothing(c, cfg, inv);
    if !Invalidates(inv.call, key) && HoldsStale(c.redis, cfg, key, inv.now) {
      AfterTarget(c, cfg, key, inv);
      StaleIsServed(c1, cfg, key, inv.now, inv.replica);
    } else {
      PurgedByTarget(c, cfg, Clock(start, earlier), key, inv);
      forall later, r, t, wire ensures !ServesOlder(c1, cfg, key, inv.now, later, r, t, wire) {
        PurgedServesNothingOlder(c1, cfg, key, inv.now, later, r, t, wire);
      }
    }
  }

  /**
    Once an invalidation of key at time i has reached Redis, no replica answers with a value set before i
    later than cacheTtl/3 after it, whatever else happens and fails in between.
   */
  lemma {:induction false} InvalidationTakesHold(n: nat, cfg: Config, start: real, earlier: seq<Event>, inv: Event,
          later: seq<Event>, r: nat, key: string, t: real, wire: Wire)
    requires ValidConfig(cfg) && IsHistory(n, start, earlier)
    requires inv.replica < n && Clock(start, earlier) <= inv.now && Invalidates(inv.call, key)
    requires IsHistory(n, inv.now, later) && r < n
    requires t >= Clock(inv.now, later) && t > inv.now + cfg.cacheTtl / 3.0
    ensures var c := RunFrom(After(RunFrom(Empty(n), cfg, earlier), cfg, inv), cfg, later);
            var answer := GetAnswer(c.locals[r], c.redis, key, t, wire);
            answer.Some? ==> answer.value.setAt >= inv.now
  {
    LostInvalidationServesOldValue(n, cfg, start, earlier, inv, key);
    assert !ServesOlder(After(RunFrom(Empty(n), cfg, earlier), cfg, inv), cfg, key, inv.now, later, r, t, wire);
  }

  // ---- What Redis and the replicas hold, read off the history ----

  /** What the last call that had an effect on key left in Redis. */
  function LastEffect(cfg: Config, history: seq<Event>, key: string): Option<RedisEntry> {
    if history == [] then None
    else
      var earlier, last := LastEffect(cfg, history[..|history| - 1], key), history[|history| - 1];
      match last.call
      case GetCall(_, _) => earlier
      case SetCall(k, data, wire) =>
        if k != key || wire == Lost then earlier
        else Some(RedisEntry(Stamped(data, last.now), last.now + cfg.cacheTtl))
      case InvalidateCall(k, wire) => if k != key || wire == Lost then earlier else None
      case InvalidatePrefixCall(prefix, reached, wire) =>
        if prefix <= key && (wire == Ok || key in reached) then None else earlier
  }

  /** Whatever was called and whichever calls failed, each key of Redis is as the last effective call on it left it. */
  lemma {:induction false} RedisIsLastEffect(n: nat, cfg: Config, start: real, history: seq<Event>, key: string)
    requires IsHistory(n, start, history)
    ensures var redis := RunFrom(Empty(n), cfg, history).redis;
            (if key in redis then Some(redis[key]) else None) == LastEffect(cfg, history, key)
  {
    if history != [] {
      RedisIsLastEffect(n, cfg, start, history[..|history| - 1], key);
    }
  }

  /** What Redis answers if it holds that. */
  function HeldAnswer(held: Option<RedisEntry>, now: real, wire: Wire): Option<Stamped> {
    if wire == Ok && held.Some? && now <= held.value.expires then Some(held.value.value) else None
  }

  lemma {:induction false} RedisGetIsLastEffect(n: nat, cfg: Config, start: real, history: seq<Event>, key: string,
          now: real, wire: Wire)
    requires IsHistory(n, start, history)
    ensures RedisGet(RunFrom(Empty(n), cfg, history).redis, key, now, wire) ==
            HeldAnswer(LastEffect(cfg, history, key), now, wire)
  {
    RedisIsLastEffect(n, cfg, start, history, key);
  }

  /** One operation on a local cache. */
  function Do(local: LocalState, cfg: Config, now: real, op: Op<Stamped>): LocalState {
    Step(local, cfg.maxsize, cfg.cacheTtl / 3.0, At(now, op))
  }

  /** The operations of replica r on its local cache: a get that finds nothing keeps a copy of what Redis answers. */
  function LocalView(cfg: Config, history: seq<Event>, r: nat): LocalState {
    if history == [] then []
    else
      var init, last := history[..|history| - 1], history[|history| - 1];
      var local := LocalView(cfg, init, r);
      if last.replica != r then local
      else match last.call
        case GetCall(key, wire) =>
          var touched := Do(local, cfg, last.now, Get(key));
          var shared := HeldAnswer(LastEffect(cfg, init, key), last.now, wire);
          if Answer(local, key, last.now).None? && shared.Some? then Do(touched, cfg, last.now, Set(key, shared.value))
          else touched
        case SetCall(key, data, _) => Do(local, cfg, last.now, Set(key, Stamped(data, last.now)))
        case InvalidateCall(key, _) => Do(local, cfg, last.now, Delete(key))
        case InvalidatePrefixCall(prefix, _, _) => Do(local, cfg, last.now, ClearPrefix(prefix))
  }

  /** The local cache of each replica is as its own operations leave it. */
  lemma {:induction false} LocalIsView(n: nat, cfg: Config, start: real, history: seq<Event>, r: nat)
    requires IsHistory(n, start, history) && r < n
    ensures RunFrom(Empty(n), cfg, history).locals[r] == LocalView(cfg, history, r)
  {
    if history != [] {
      var init, last := history[..|history| - 1], history[|history| - 1];
      LocalIsView(n, cfg, start, init, r);
      if last.replica == r && last.call.GetCall? {
        RedisGetIsLastEffect(n, cfg, start, init, last.call.key, last.now, last.call.wire);
      }
    }
  }

  /** So an answer is what the local cache answers, and if it has none what the last effective call left. */
  lemma {:induction false} AnswerFromHistory(n: nat, cfg: Config, start: real, history: seq<Event>, r: nat,
          key: string, t: real, wire: Wire)
    requires IsHistory(n, start, history) && r < n
    ensures var c := RunFrom(Empty(n), cfg, history);
            var local := Answer(LocalView(cfg, history, r), key, t);
            GetAnswer(c.locals[r], c.redis, key, t, wire) ==
            if local.Some? then local else HeldAnswer(LastEffect(cfg, history, key), t, wire)
  {
    LocalIsView(n, cfg, start, history, r);
    RedisGetIsLastEffect(n, cfg, start, history, key, t, wire);
  }

  // ---- A value that was set is served ----

  /** A call that sets key or should remove it. */
  predicate Touches(call: Call, key: string) {
    (call.SetCall? && call.key == key) || Targets(call, key)
  }

  /** What a local cache holds for key: v, or what it held before. */
  ghost predicate HoldsOnly(local: LocalState, before: LocalState, key: string, v: Stamped) {
    forall e :: e in local && e.key == key ==> e.value == v || e in before
  }

  lemma {:induction false} SetHolds(local: LocalState, cfg: Config, key: string, v: Stamped, now: real)
    ensures HoldsOnly(LocalAfterSet(local, cfg, key, v, now), [], key, v)
  {
    var all := Without(local, key) + [Entry(key, now + cfg.cacheTtl / 3.0, v)];
    forall e | e in LocalAfterSet(local, cfg, key, v, now) && e.key == key ensures e.value == v {
      assert e in all;
    }
  }

  lemma {:induction false} LocalStepHolds(local: LocalState, before: LocalState, redis: RedisState, cfg: Config,
          key: string, e: Event)
    requires key in redis && HoldsOnly(local, before, key, redis[key].value) && !Touches(e.call, key)
    ensures HoldsOnly(LocalAfter(local, redis, cfg, e), before, key, redis[key].value)
  {
  }

  lemma {:induction false} RunKeepsServing(c: Cluster, olds: seq<LocalState>, cfg: Config, key: string, v: RedisEntry,
          now: real, later: seq<Event>, r: nat)
    requires |olds| == |c.locals| && r < |olds| && IsHistory(|olds|, now, later)
    requires forall i :: 0 <= i < |later| ==> !Touches(later[i].call, key)
    requires key in c.redis && c.redis[key] == v && HoldsOnly(c.locals[r], olds[r], key, v.value)
    ensures var after := RunFrom(c, cfg, later);
            key in after.redis && after.redis[key] == v && HoldsOnly(after.locals[r], olds[r], key, v.value)
  {
    if later != [] {
      var init, last := later[..|later| - 1], later[|later| - 1];
      RunKeepsServing(c, olds, cfg, key, v, now, init, r);
      var before := RunFrom(c, cfg, init);
      if last.replica == r {
        LocalStepHolds(before.locals[r], olds[r], before.redis, cfg, key, last);
      }
    }
  }

  /**
    A value whose set reached Redis is answered by every replica that asks within its time to live, with no call on
    its key in between, except by one that still holds a local copy from before.
   */
  lemma {:induction false} SetIsAnswered(c: Cluster, cfg: Config, put: Event, later: seq<Event>, r: nat, t: real)
    requires put.replica < |c.locals| && r < |c.locals| && put.call.SetCall? && put.call.wire != Lost
    requires IsHistory(|c.locals|, put.now, later)
    requires forall i :: 0 <= i < |later| ==> !Touches(later[i].call, put.call.key)
    requires Clock(put.now, later) <= t <= put.now + cfg.cacheTtl
    ensures var key, v := put.call.key, Stamped(put.call.data, put.now);
            var after := RunFrom(After(c, cfg, put), cfg, later);
            var answer := GetAnswer(after.locals[r], after.redis, key, t, Ok);
            && answer.Some?
            && (answer.value == v ||
                (r != put.replica &&
                 exists e :: e in c.locals[r] && e.key == key && t <= e.expires && answer.value == e.value))
  {
    var key, v := put.call.key, Stamped(put.call.data, put.now);
    var c1 := After(c, cfg, put);
    var olds := c.locals[put.replica := []];
    SetHolds(c.locals[put.replica], cfg, key, v, put.now);
    assert r != put.replica ==> c1.locals[r] == olds[r];
    RunKeepsServing(c1, olds, cfg, key, RedisEntry(v, put.now + cfg.cacheTtl), put.now, later, r);
  }
}
