/** What the cache promises its clients, without the cache: a log of calls, the unbounded map
    "last value set, with its current expiry" that the log determines, and the size arithmetic. */
module CacheSpec {
  import opened Wrappers
  import opened Eviction

  datatype Event<V> =
    | Stored(key: string, value: V, expiresAt: Option<int>, marked: int)
    | Retimed(key: string, expiresAt: Option<int>)
    | Dropped(key: string)
    | Cleared
    | Looked(key: string, at: int, marked: int, result: Option<V>)

  datatype Promise<V> = Promise(value: V, expiresAt: Option<int>, usedAt: int, uses: nat)

  predicate Past(expiresAt: Option<int>, now: int) {
    expiresAt.Some? && now > expiresAt.value
  }

  // ---- The unbounded map ----

  function IdealStep<V>(m: map<string, Promise<V>>, e: Event<V>): (m': map<string, Promise<V>>) {
    match e
    case Stored(k, v, t, at) => m[k := Promise(v, t, at, 0)]
    case Retimed(k, t) => if k in m then m[k := m[k].(expiresAt := t)] else m
    case Dropped(k) => m - {k}
    case Cleared => map[]
    case Looked(k, _, at, r) => if r.Some? && k in m then m[k := m[k].(usedAt := at, uses := m[k].uses + 1)] else m
  }

  predicate GoodLookup<V(==)>(m: map<string, Promise<V>>, e: Event<V>) {
    e.Looked? && e.result.Some? ==>
      e.key in m && m[e.key].value == e.result.value && !Past(m[e.key].expiresAt, e.at)
  }

  /** What a log of calls amounts to: the promised map, whether every lookup that found something
      found the value promised at the time, unexpired, and how many calls there were of each kind. */
  datatype Ledger<V> = Ledger(
    promised: map<string, Promise<V>>, sound: bool, found: nat, lookups: nat, stores: nat)

  function LedgerStep<V(==)>(l: Ledger<V>, e: Event<V>): (l': Ledger<V>) {
    Ledger(
      IdealStep(l.promised, e),
      l.sound && GoodLookup(l.promised, e),
      l.found + (if e.Looked? && e.result.Some? then 1 else 0),
      l.lookups + (if e.Looked? then 1 else 0),
      l.stores + (if e.Stored? then 1 else 0))
  }

  function LedgerOf<V(==)>(log: seq<Event<V>>): (l: Ledger<V>) {
    if log == [] then Ledger(map[], true, 0, 0, 0)
    else LedgerStep(LedgerOf(log[..|log| - 1]), log[|log| - 1])
  }

  lemma LedgerExtends<V>(log: seq<Event<V>>, e: Event<V>)
    ensures LedgerOf(log + [e]) == LedgerStep(LedgerOf(log), e)
  {
  }

  predicate Replaces<V>(e: Event<V>, k: string) {
    e.Cleared? || ((e.Stored? || e.Dropped?) && e.key == k)
  }

  predicate Times<V>(e: Event<V>, k: string) {
    (e.Stored? || e.Retimed?) && e.key == k
  }

  /** Call i set k, and no later call set, removed or cleared it. */
  ghost predicate LastStore<V>(log: seq<Event<V>>, i: int, k: string) {
    && 0 <= i < |log| && log[i].Stored? && log[i].key == k
    && forall j :: i < j < |log| ==> !Replaces(log[j], k)
  }

  /** Call i gave k its expiry, and no later call gave it another. */
  ghost predicate LastTiming<V>(log: seq<Event<V>>, i: int, k: string) {
    && 0 <= i < |log| && Times(log[i], k)
    && forall j :: i < j < |log| ==> !Times(log[j], k)
  }

  /** The map holds k exactly when some call set it last, with the value that call set. */
  lemma {:induction false} IdealIsLastStore<V>(log: seq<Event<V>>, k: string)
    ensures k in LedgerOf(log).promised <==> exists i :: LastStore(log, i, k)
    ensures forall i :: LastStore(log, i, k) ==> k in LedgerOf(log).promised && LedgerOf(log).promised[k].value == log[i].value
  {
    if log != [] {
      var n := |log| - 1;
      var rest := log[..n];
      IdealIsLastStore(rest, k);
      if log[n].Stored? && log[n].key == k {
        assert LastStore(log, n, k);
      }
      forall i | LastStore(log, i, k) && i < n ensures LastStore(rest, i, k) && log[i] == rest[i] {}
      if k in LedgerOf(rest).promised && !Replaces(log[n], k) {
        var i :| LastStore(rest, i, k);
        assert LastStore(log, i, k);
      }
    }
  }

  /** Its expiry is the one given by the last call that set or changed it. */
  lemma {:induction false} IdealIsLastTiming<V>(log: seq<Event<V>>, k: string) returns (i: int)
    requires k in LedgerOf(log).promised
    ensures LastTiming(log, i, k) && LedgerOf(log).promised[k].expiresAt == log[i].expiresAt
  {
    var n := |log| - 1;
    if Times(log[n], k) {
      i := n;
    } else {
      i := IdealIsLastTiming(log[..n], k);
    }
  }

  /** Call i set k or found it. */
  predicate Uses<V>(e: Event<V>, k: string) {
    (e.Stored? || (e.Looked? && e.result.Some?)) && e.key == k
  }

  /** Call i was the last to set or find k. */
  ghost predicate LastUse<V>(log: seq<Event<V>>, i: int, k: string) {
    && 0 <= i < |log| && Uses(log[i], k)
    && forall j :: i < j < |log| ==> !Uses(log[j], k)
  }

  /** The access mark is the clock reading of the last call that set or found the key. */
  lemma {:induction false} IdealIsLastUse<V>(log: seq<Event<V>>, k: string) returns (i: int)
    requires k in LedgerOf(log).promised
    ensures LastUse(log, i, k) && LedgerOf(log).promised[k].usedAt == log[i].marked
  {
    var n := |log| - 1;
    if Uses(log[n], k) {
      i := n;
    } else {
      i := IdealIsLastUse(log[..n], k);
    }
  }

  lemma MarkedAtLastUse<V>(log: seq<Event<V>>, i: int, k: string)
    requires LastUse(log, i, k) && k in LedgerOf(log).promised
    ensures LedgerOf(log).promised[k].usedAt == log[i].marked
  {
    var j := IdealIsLastUse(log, k);
    assert i == j;
  }

  lemma TimedAtLastTiming<V>(log: seq<Event<V>>, i: int, k: string)
    requires LastTiming(log, i, k) && k in LedgerOf(log).promised
    ensures LedgerOf(log).promised[k].expiresAt == log[i].expiresAt
  {
    var j := IdealIsLastTiming(log, k);
    assert i == j;
  }

  /** How often k was found since it was last set. */
  function Hits<V>(log: seq<Event<V>>, k: string): (n: nat) {
    if log == [] then 0
    else
      var rest, e := log[..|log| - 1], log[|log| - 1];
      if e.Stored? && e.key == k then 0
      else Hits(rest, k) + if e.Looked? && e.result.Some? && e.key == k then 1 else 0
  }

  /** And the access count is the number of lookups that found it since it was set. */
  lemma {:induction false} IdealCountsHits<V>(log: seq<Event<V>>, k: string)
    requires k in LedgerOf(log).promised
    ensures LedgerOf(log).promised[k].uses == Hits(log, k)
  {
    var n := |log| - 1;
    if !(log[n].Stored? && log[n].key == k) { IdealCountsHits(log[..n], k); }
  }

  // ---- Safety of a whole log ----

  /** In a sound log a value that was found is the one set last before, neither replaced nor
      removed since, and its latest expiry had not passed. */
  lemma {:induction false} FoundIsLastStored<V>(log: seq<Event<V>>, at: nat) returns (stored: int, timed: int)
    requires LedgerOf(log).sound && at < |log| && log[at].Looked? && log[at].result.Some?
    ensures LastStore(log[..at], stored, log[at].key) && log[stored].value == log[at].result.value
    ensures LastTiming(log[..at], timed, log[at].key)
    ensures log[timed].expiresAt.None? || log[at].at <= log[timed].expiresAt.value
  {
    var n := |log| - 1;
    if at == n {
      IdealIsLastStore(log[..n], log[at].key);
      stored :| LastStore(log[..n], stored, log[at].key);
      timed := IdealIsLastTiming(log[..n], log[at].key);
    } else {
      assert log[..n][..at] == log[..at];
      stored, timed := FoundIsLastStored(log[..n], at);
    }
  }

  // ---- The bounded cache beside it ----

  predicate Agrees<V(==)>(c: Cached<V>, p: Promise<V>) {
    c.value == p.value && c.expiresAt == p.expiresAt && c.lastAccessed == p.usedAt && c.accessCount == p.uses
  }

  ghost predicate Within<V>(cache: map<string, Cached<V>>, m: map<string, Promise<V>>) {
    forall k :: k in cache ==> k in m && Agrees(cache[k], m[k])
  }

  ghost predicate Part<V(!new)>(after: map<string, Cached<V>>, before: map<string, Cached<V>>) {
    forall k :: k in after ==> k in before && after[k] == before[k]
  }

  ghost function TotalSize<V>(cache: map<string, Cached<V>>): (n: nat)
    decreases cache.Keys
  {
    if cache == map[] then 0
    else
      var k :| k in cache;
      cache[k].sizeBytes + TotalSize(cache - {k})
  }

  lemma {:induction false} TotalSizeWithout<V>(cache: map<string, Cached<V>>, k: string)
    requires k in cache
    ensures TotalSize(cache) == cache[k].sizeBytes + TotalSize(cache - {k})
    decreases cache.Keys
  {
    var c :| c in cache && TotalSize(cache) == cache[c].sizeBytes + TotalSize(cache - {c});
    if c != k {
      TotalSizeWithout(cache - {c}, k);
      TotalSizeWithout(cache - {k}, c);
      assert cache - {c} - {k} == cache - {k} - {c};
    }
  }

  lemma TotalSizeUpdate<V>(cache: map<string, Cached<V>>, k: string, v: Cached<V>)
    ensures TotalSize(cache[k := v]) == TotalSize(cache - {k}) + v.sizeBytes
    ensures k in cache ==> TotalSize(cache) == cache[k].sizeBytes + TotalSize(cache - {k})
    ensures k !in cache ==> cache - {k} == cache
  {
    TotalSizeWithout(cache[k := v], k);
    assert cache[k := v] - {k} == cache - {k};
    if k in cache { TotalSizeWithout(cache, k); }
  }

  // ---- Policy eviction ----

  function Without<V>(cache: map<string, Cached<V>>, keys: seq<string>): (r: map<string, Cached<V>>) {
    map k | k in cache && k !in keys :: cache[k]
  }

  function SizeOfKeys<V>(cache: map<string, Cached<V>>, keys: seq<string>): (n: nat)
    requires forall k :: k in keys ==> k in cache
  {
    if keys == [] then 0 else SizeOfKeys(cache, keys[..|keys| - 1]) + cache[keys[|keys| - 1]].sizeBytes
  }

  /** `order` lists the whole cache in the order of the policy, and what was given up is its
      first n keys, n being the least number that frees the target (all of them if none does). */
  ghost predicate EvictedPrefix<V(!new)>(p: Policy, now: int, target: int,
      before: map<string, Cached<V>>, after: map<string, Cached<V>>, order: seq<string>, n: nat) {
    && InEvictionOrder(p, now, order, before)
    && (forall k :: k in before ==> k in order)
    && n <= |order| && after == Without(before, order[..n])
    && (n < |order| ==> SizeOfKeys(before, order[..n]) >= target)
    && (n > 0 ==> SizeOfKeys(before, order[..n - 1]) < target)
  }

  ghost predicate PolicyEvicted<V(!new)>(p: Policy, now: int, target: int,
      before: map<string, Cached<V>>, after: map<string, Cached<V>>) {
    exists order: seq<string>, n: nat :: EvictedPrefix(p, now, target, before, after, order, n)
  }

  ghost predicate Listed<V>(keys: seq<string>, cache: map<string, Cached<V>>) {
    Distinct(keys) && forall k :: k in keys ==> k in cache
  }

  /** The first n keys are gone, and one fewer would not have freed the target. */
  ghost predicate GaveUp<V>(before: map<string, Cached<V>>, after: map<string, Cached<V>>,
      keys: seq<string>, n: int, freed: int, target: int) {
    && Listed(keys, before) && 0 <= n <= |keys|
    && after == Without(before, keys[..n]) && freed == SizeOfKeys(before, keys[..n])
    && (n > 0 ==> SizeOfKeys(before, keys[..n - 1]) < target)
  }

  lemma GiveUpNone<V>(cache: map<string, Cached<V>>, keys: seq<string>, target: int)
    requires Listed(keys, cache)
    ensures GaveUp(cache, cache, keys, 0, 0, target)
  {
  }

  lemma GiveUpNext<V>(before: map<string, Cached<V>>, after: map<string, Cached<V>>,
      keys: seq<string>, n: int, freed: int, target: int)
    requires GaveUp(before, after, keys, n, freed, target) && n < |keys| && freed < target
    ensures keys[n] in after && after[keys[n]] == before[keys[n]]
    ensures GaveUp(before, after - {keys[n]}, keys, n + 1, freed + before[keys[n]].sizeBytes, target)
  {
    WithoutOneMore(before, keys, n);
  }

  lemma WithoutOneMore<V>(cache: map<string, Cached<V>>, keys: seq<string>, n: nat)
    requires n < |keys| && Distinct(keys)
    requires forall k :: k in keys ==> k in cache
    ensures keys[n] in Without(cache, keys[..n])
    ensures Without(cache, keys[..n]) - {keys[n]} == Without(cache, keys[..n + 1])
    ensures SizeOfKeys(cache, keys[..n + 1]) == SizeOfKeys(cache, keys[..n]) + cache[keys[n]].sizeBytes
  {
    assert keys[..n + 1] == keys[..n] + [keys[n]];
    assert keys[..n + 1][..n] == keys[..n];
  }

  lemma {:induction false} SizesSplit<V>(cache: map<string, Cached<V>>, keys: seq<string>, n: nat)
    requires n <= |keys| && Distinct(keys)
    requires forall k :: k in keys ==> k in cache
    ensures TotalSize(cache) == TotalSize(Without(cache, keys[..n])) + SizeOfKeys(cache, keys[..n])
  {
    if n == 0 {
      assert Without(cache, keys[..0]) == cache;
    } else {
      SizesSplit(cache, keys, n - 1);
      WithoutOneMore(cache, keys, n - 1);
      TotalSizeWithout(Without(cache, keys[..n - 1]), keys[n - 1]);
    }
  }

  /** The last victim in the order of the policy, without which too little would be freed. */
  ghost predicate Needed<V(!new)>(p: Policy, now: int, target: int,
      before: map<string, Cached<V>>, after: map<string, Cached<V>>, last: string) {
    && last in before && last !in after
    && (forall v :: v in before && v !in after ==> !Ahead(p, now, before[last], before[v]))
    && TotalSize(before) - TotalSize(after) - before[last].sizeBytes < target
  }

  lemma AheadIsStrict<V>(p: Policy, now: int, a: Cached<V>)
    ensures !Ahead(p, now, a, a)
  {
  }

  lemma GoneIsInPrefix<V(!new)>(p: Policy, now: int, target: int,
      before: map<string, Cached<V>>, after: map<string, Cached<V>>, order: seq<string>, n: nat, k: string)
      returns (i: nat)
    requires EvictedPrefix(p, now, target, before, after, order, n) && k in before
    ensures i < |order| && order[i] == k && (k in after <==> n <= i)
  {
    i :| 0 <= i < |order| && order[i] == k;
    if i < n { assert order[..n][i] == k; }
    if k in order[..n] {
      var j :| 0 <= j < n && order[..n][j] == k;
      assert order[j] == order[i];
    }
  }

  lemma NoSurvivorAhead<V(!new)>(p: Policy, now: int, target: int,
      before: map<string, Cached<V>>, after: map<string, Cached<V>>, order: seq<string>, n: nat,
      v: string, s: string)
    requires EvictedPrefix(p, now, target, before, after, order, n)
    requires v in before && v !in after && s in after
    ensures s in before && !Ahead(p, now, before[s], before[v])
  {
  }

  lemma LastIsNeeded<V(!new)>(p: Policy, now: int, target: int,
      before: map<string, Cached<V>>, after: map<string, Cached<V>>, order: seq<string>, n: nat)
    requires EvictedPrefix(p, now, target, before, after, order, n) && n > 0
    ensures Needed(p, now, target, before, after, order[n - 1])
  {
    var last := order[n - 1];
    WithoutOneMore(before, order, n - 1);
    SizesSplit(before, order, n);
    assert order[..n][n - 1] == last;
    forall v | v in before && v !in after ensures !Ahead(p, now, before[last], before[v]) {
      var i := GoneIsInPrefix(p, now, target, before, after, order, n, v);
      AheadIsStrict(p, now, before[last]);
    }
  }

  lemma FreedEnough<V(!new)>(p: Policy, now: int, target: int,
      before: map<string, Cached<V>>, after: map<string, Cached<V>>, order: seq<string>, n: nat)
    requires EvictedPrefix(p, now, target, before, after, order, n)
    ensures after == map[] || TotalSize(before) - TotalSize(after) >= target
    ensures n == 0 ==> after == before
  {
    if n == |order| {
      assert order[..n] == order;
      assert after == map[];
    } else {
      SizesSplit(before, order, n);
    }
    if n == 0 { assert after == before; }
  }

  /** Nothing that stays ranks ahead of anything given up; the freed bytes reach the target
      unless nothing stays; and no more was given up than needed: sparing the last victim alone
      would have missed the target. */
  lemma EvictionIsFair<V(!new)>(p: Policy, now: int, target: int,
      before: map<string, Cached<V>>, after: map<string, Cached<V>>)
    requires PolicyEvicted(p, now, target, before, after)
    ensures Part(after, before)
    ensures forall v, s :: v in before && v !in after && s in after ==> !Ahead(p, now, before[s], before[v])
    ensures after == map[] || TotalSize(before) - TotalSize(after) >= target
    ensures after == before || exists last :: Needed(p, now, target, before, after, last)
  {
    var order: seq<string>, n: nat :| EvictedPrefix(p, now, target, before, after, order, n);
    FreedEnough(p, now, target, before, after, order, n);
    forall v, s | v in before && v !in after && s in after ensures !Ahead(p, now, before[s], before[v]) {
      NoSurvivorAhead(p, now, target, before, after, order, n, v, s);
    }
    if n > 0 {
      LastIsNeeded(p, now, target, before, after, order, n);
    }
  }

  // ---- Who is given up, from the cache before ----

  function Gone<V>(before: map<string, Cached<V>>, after: map<string, Cached<V>>): (r: map<string, Cached<V>>) {
    map k | k in before && k !in after :: before[k]
  }

  lemma {:induction false} GoneSize<V(!new)>(before: map<string, Cached<V>>, after: map<string, Cached<V>>)
    requires Part(after, before)
    ensures TotalSize(before) == TotalSize(after) + TotalSize(Gone(before, after))
    decreases after.Keys
  {
    if after == map[] {
      assert Gone(before, after) == before;
    } else {
      var k :| k in after;
      GoneSize(before - {k}, after - {k});
      assert Gone(before - {k}, after - {k}) == Gone(before, after);
      TotalSizeWithout(before, k);
      TotalSizeWithout(after, k);
    }
  }

  lemma PartIsSmaller<V(!new)>(part: map<string, Cached<V>>, whole: map<string, Cached<V>>)
    requires Part(part, whole)
    ensures TotalSize(part) <= TotalSize(whole)
  {
    GoneSize(whole, part);
  }

  /** The entries given up before k in any case, and those that may be: also the ones tied with it. */
  function MustPrecede<V>(p: Policy, now: int, cache: map<string, Cached<V>>, k: string): (r: map<string, Cached<V>>)
    requires k in cache
  {
    map e | e in cache && Ahead(p, now, cache[e], cache[k]) :: cache[e]
  }

  function MayPrecede<V>(p: Policy, now: int, cache: map<string, Cached<V>>, k: string): (r: map<string, Cached<V>>)
    requires k in cache
  {
    map e | e in cache && e != k && !Ahead(p, now, cache[k], cache[e]) :: cache[e]
  }

  lemma MayPrecedeDecides<V(!new)>(p: Policy, now: int, target: int,
      before: map<string, Cached<V>>, after: map<string, Cached<V>>, k: string)
    requires PolicyEvicted(p, now, target, before, after) && k in after
    ensures k in before && TotalSize(MayPrecede(p, now, before, k)) >= target
  {
    EvictionIsFair(p, now, target, before, after);
    GoneSize(before, after);
    PartIsSmaller(Gone(before, after), MayPrecede(p, now, before, k));
  }

  lemma MustPrecedeIsGone<V(!new)>(p: Policy, now: int,
      before: map<string, Cached<V>>, after: map<string, Cached<V>>, k: string, last: string)
    requires forall v, s :: v in before && v !in after && s in after && s in before ==> !Ahead(p, now, before[s], before[v])
    requires k in before && k !in after && last in before && !Ahead(p, now, before[last], before[k])
    ensures Part(MustPrecede(p, now, before, k), Gone(before, after) - {last})
  {
  }

  lemma MustPrecedeDecides<V(!new)>(p: Policy, now: int, target: int,
      before: map<string, Cached<V>>, after: map<string, Cached<V>>, k: string)
    requires PolicyEvicted(p, now, target, before, after) && k in before && k !in after
    ensures TotalSize(MustPrecede(p, now, before, k)) < target
  {
    EvictionIsFair(p, now, target, before, after);
    GoneSize(before, after);
    var last :| Needed(p, now, target, before, after, last);
    TotalSizeWithout(Gone(before, after), last);
    MustPrecedeIsGone(p, now, before, after, k, last);
    PartIsSmaller(MustPrecede(p, now, before, k), Gone(before, after) - {last});
  }

  /** An entry is given up if all that may precede it weigh less than the target, and stays if those
      that must precede it reach the target.  Only ties lie between the two. */
  lemma EvictedByRank<V(!new)>(p: Policy, now: int, target: int,
      before: map<string, Cached<V>>, after: map<string, Cached<V>>, k: string)
    requires PolicyEvicted(p, now, target, before, after) && k in before
    ensures TotalSize(MayPrecede(p, now, before, k)) < target ==> k !in after
    ensures TotalSize(MustPrecede(p, now, before, k)) >= target ==> k in after
  {
    if k in after {
      MayPrecedeDecides(p, now, target, before, after, k);
    } else {
      MustPrecedeDecides(p, now, target, before, after, k);
    }
  }

  lemma AheadUnlessTied<V>(p: Policy, now: int, a: Cached<V>, b: Cached<V>)
    requires ScoreOf(p, a, now) != ScoreOf(p, b, now)
    ensures Ahead(p, now, a, b) <==> !Ahead(p, now, b, a)
  {
  }

  lemma WithoutTies<V>(p: Policy, now: int, cache: map<string, Cached<V>>, k: string)
    requires k in cache
    requires forall e :: e in cache && e != k ==> ScoreOf(p, cache[e], now) != ScoreOf(p, cache[k], now)
    ensures MustPrecede(p, now, cache, k) == MayPrecede(p, now, cache, k)
  {
    AheadIsStrict(p, now, cache[k]);
    forall e | e in cache && e != k ensures Ahead(p, now, cache[e], cache[k]) <==> !Ahead(p, now, cache[k], cache[e]) {
      AheadUnlessTied(p, now, cache[e], cache[k]);
    }
  }

  /** Where nothing ties with the entry, that decides. */
  lemma EvictedByRankIff<V(!new)>(p: Policy, now: int, target: int,
      before: map<string, Cached<V>>, after: map<string, Cached<V>>, k: string)
    requires PolicyEvicted(p, now, target, before, after) && k in before
    requires forall e :: e in before && e != k ==> ScoreOf(p, before[e], now) != ScoreOf(p, before[k], now)
    ensures k !in after <==> TotalSize(MustPrecede(p, now, before, k)) < target
  {
    WithoutTies(p, now, before, k);
    EvictedByRank(p, now, target, before, after, k);
  }
}
