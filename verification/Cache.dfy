/** The cache layer: a map of cached values, a heap of expirations and a byte counter, updated in
    place.  Clock readings are parameters, one for each reading the code takes; iteration order of
    the map and ties in the heap are arbitrary. */
module Cache {
  import opened Wrappers
  import opened Eviction
  import opened CacheSpec

  datatype Expiration = Expiration(key: string, expiresAt: int)

  /** The heap has an entry for k that is due. */
  ghost predicate Due(heap: seq<Expiration>, k: string, now: int) {
    exists e :: e in heap && e.key == k && e.expiresAt <= now
  }

  ghost function Undue<V>(cache: map<string, Cached<V>>, heap: seq<Expiration>, now: int): map<string, Cached<V>> {
    map k | k in cache && !Due(heap, k, now) :: cache[k]
  }

  /** Draining the heap and collecting it again without the entries of k. */
  function Untracked(heap: seq<Expiration>, k: string): (r: seq<Expiration>)
    ensures forall e :: e in r <==> e in heap && e.key != k
  {
    if heap == [] then []
    else (if heap[0].key != k then [heap[0]] else []) + Untracked(heap[1..], k)
  }

  /** Some entry is earliest. */
  lemma {:induction false} EarliestExists(heap: seq<Expiration>) returns (i: nat)
    requires heap != []
    ensures i < |heap| && Earliest(heap, i)
  {
    i := 0;
    if |heap| > 1 {
      var j := EarliestExists(heap[1..]);
      if heap[1..][j].expiresAt < heap[0].expiresAt { i := j + 1; }
    }
  }

  predicate Earliest(heap: seq<Expiration>, i: nat)
    requires i < |heap|
  {
    forall j :: 0 <= j < |heap| ==> heap[i].expiresAt <= heap[j].expiresAt
  }

  /** Exactly the entries that are not due are left. */
  ghost predicate Swept(before: seq<Expiration>, after: seq<Expiration>, now: int) {
    forall e :: e in after <==> e in before && e.expiresAt > now
  }

  ghost predicate DueKeys(expired: seq<string>, heap: seq<Expiration>, now: int) {
    forall k :: k in expired <==> Due(heap, k, now)
  }

  /** Popping has removed due entries only, and has collected their keys. */
  ghost predicate Draining(before: seq<Expiration>, heap: seq<Expiration>, expired: seq<string>, now: int) {
    && (forall e :: e in heap ==> e in before)
    && (forall e :: e in before && e !in heap ==> e.expiresAt <= now && e.key in expired)
    && (forall k :: k in expired ==> Due(before, k, now))
  }

  lemma DrainStep(before: seq<Expiration>, heap: seq<Expiration>, expired: seq<string>, now: int, i: nat)
    requires Draining(before, heap, expired, now)
    requires i < |heap| && heap[i].expiresAt <= now
    ensures Draining(before, heap[..i] + heap[i + 1..], expired + [heap[i].key], now)
  {
  }

  lemma DrainEnds(before: seq<Expiration>, heap: seq<Expiration>, expired: seq<string>, now: int, i: nat)
    requires Draining(before, heap, expired, now)
    requires heap == [] || (i < |heap| && Earliest(heap, i) && heap[i].expiresAt > now)
    ensures Swept(before, heap, now) && DueKeys(expired, before, now)
  {
  }

  lemma WithoutNext<V>(cache: map<string, Cached<V>>, keys: seq<string>, i: nat)
    requires i < |keys|
    ensures var m := Without(cache, keys[..i]);
            Without(cache, keys[..i + 1]) == if keys[i] in m then m - {keys[i]} else m
  {
  }

  lemma SweepRemovesDue<V>(cache: map<string, Cached<V>>, heap: seq<Expiration>, expired: seq<string>, now: int)
    requires DueKeys(expired, heap, now)
    ensures Without(cache, expired) == Undue(cache, heap, now)
  {
  }

  function ExpiryOf(ttl: Option<nat>, now: int): Option<int> {
    if ttl.Some? then Some(now + ttl.value * 1_000_000_000) else None
  }

  lemma WithinUpdate<V>(cache: map<string, Cached<V>>, m: map<string, Promise<V>>, k: string, v: Cached<V>)
    requires Within(cache, m)
    ensures Within(cache[k := v], m[k := Promise(v.value, v.expiresAt, v.lastAccessed, v.accessCount)])
  {
  }

  lemma WithinTouched<V>(cache: map<string, Cached<V>>, m: map<string, Promise<V>>, k: string, at: int, now: int, r: Option<V>)
    requires Within(cache, m) && k in cache && r.Some?
    ensures Within(cache[k := Touched(cache[k], now)], IdealStep(m, Looked(k, at, now, r)))
  {
  }

  lemma NothingFound<V>(m: map<string, Promise<V>>, k: string, at: int, now: int)
    ensures IdealStep(m, Looked(k, at, now, None)) == m
  {
  }

  function Touched<V>(v: Cached<V>, now: int): Cached<V> {
    v.(lastAccessed := now, accessCount := v.accessCount + 1)
  }

  /** A lookup finds exactly the keys that are there and not past their expiry, marks what it
      found, and forgets what it did not. */
  ghost predicate LookedUp<V(!new)>(before: map<string, Cached<V>>, after: map<string, Cached<V>>,
      key: string, tested: int, marked: int, r: Option<V>) {
    && (r.Some? <==> key in before && (before[key].expiresAt.None? || tested <= before[key].expiresAt.value))
    && (r.Some? ==> r.value == before[key].value && after == before[key := Touched(before[key], marked)])
    && (r.None? ==> after == before - {key})
  }

  /** Exactly the entries of keys that left the cache are gone. */
  ghost predicate Cleaned<V>(heap: seq<Expiration>, heap': seq<Expiration>,
      before: map<string, Cached<V>>, after: map<string, Cached<V>>) {
    forall e :: e in heap' <==> e in heap && (e.key in before ==> e.key in after)
  }

  function Pushed(key: string, expiresAt: Option<int>): seq<Expiration> {
    if expiresAt.Some? then [Expiration(key, expiresAt.value)] else []
  }

  /** The heap holds the entry that will drop the key when its time has come. */
  predicate Tracked(heap: seq<Expiration>, key: string, expiresAt: Option<int>) {
    expiresAt.Some? && Expiration(key, expiresAt.value) in heap
  }

  lemma TrackedIff<V>(heap: seq<Expiration>, heap': seq<Expiration>,
      before: map<string, Cached<V>>, after: map<string, Cached<V>>, key: string, expiresAt: Option<int>)
    requires Cleaned(heap + Pushed(key, expiresAt), heap', before, after) && expiresAt.Some?
    ensures Tracked(heap', key, expiresAt) <==> (key in before ==> key in after)
  {
    assert (heap + Pushed(key, expiresAt))[|heap|] == Expiration(key, expiresAt.value);
  }

  lemma CleanedNext<V>(heap: seq<Expiration>, heap': seq<Expiration>,
      before: map<string, Cached<V>>, after: map<string, Cached<V>>, key: string)
    requires Cleaned(heap, heap', before, after) && key in before
    ensures Cleaned(heap, Untracked(heap', key), before, after - {key})
  {
  }

  // ---- When a sweep comes too early ----

  predicate Sooner(at: int, expiresAt: Option<int>) {
    expiresAt.None? || at < expiresAt.value
  }

  /** The heap has an entry for k from before its expiry. */
  ghost predicate Early(heap: seq<Expiration>, k: string, expiresAt: Option<int>) {
    exists e :: e in heap && e.key == k && Sooner(e.expiresAt, expiresAt)
  }

  /** Some sweep drops an entry before its expiry exactly if the heap has an entry of its key from
      before that. */
  lemma SweptEarlyIff<V>(cache: map<string, Cached<V>>, heap: seq<Expiration>, k: string)
    requires k in cache
    ensures (exists now :: k !in Undue(cache, heap, now) && Sooner(now, cache[k].expiresAt))
            <==> Early(heap, k, cache[k].expiresAt)
  {
    if Early(heap, k, cache[k].expiresAt) {
      var e :| e in heap && e.key == k && Sooner(e.expiresAt, cache[k].expiresAt);
      assert k !in Undue(cache, heap, e.expiresAt);
    }
  }

  /** Sweeps drop an entry neither too early nor too late exactly if the heap has its expiry, should
      there be one, and nothing sooner. */
  lemma SweptOnTimeIff<V>(cache: map<string, Cached<V>>, heap: seq<Expiration>, k: string)
    requires k in cache
    ensures (forall now :: k in Undue(cache, heap, now) <==> Sooner(now, cache[k].expiresAt))
            <==> !Early(heap, k, cache[k].expiresAt) && (cache[k].expiresAt.Some? ==> Tracked(heap, k, cache[k].expiresAt))
  {
    var x := cache[k].expiresAt;
    SweptEarlyIff(cache, heap, k);
    if x.Some? && !Early(heap, k, x) && !Tracked(heap, k, x) {
      assert k in Undue(cache, heap, x.value);
    }
  }

  /** A set that succeeds leaves its entry to an early sweep exactly if the heap had a sooner entry
      of the key and making room did not evict the key. */
  lemma EarlyAfterSetIff<V>(heap: seq<Expiration>, heap': seq<Expiration>,
      before: map<string, Cached<V>>, left: map<string, Cached<V>>, key: string, expiresAt: Option<int>)
    requires Cleaned(heap + Pushed(key, expiresAt), heap', before, left)
    ensures Early(heap', key, expiresAt) <==> Early(heap, key, expiresAt) && (key in before ==> key in left)
  {
    if Early(heap, key, expiresAt) && (key in before ==> key in left) {
      var e :| e in heap && e.key == key && Sooner(e.expiresAt, expiresAt);
      assert e in heap + Pushed(key, expiresAt) && e in heap';
    }
  }

  /** A refused set leaves the old entry of its key to an early sweep exactly if it was so already,
      or the refused expiry is sooner than that of the old entry. */
  lemma EarlyAfterRefusalIff(heap: seq<Expiration>, key: string, refused: Option<int>, expiresAt: Option<int>)
    ensures Early(heap + Pushed(key, refused), key, expiresAt) <==>
            Early(heap, key, expiresAt) || (refused.Some? && Sooner(refused.value, expiresAt))
  {
    var heap' := heap + Pushed(key, refused);
    if Early(heap, key, expiresAt) {
      var e :| e in heap && e.key == key && Sooner(e.expiresAt, expiresAt);
      assert e in heap';
    }
    if refused.Some? { assert heap'[|heap|] == Expiration(key, refused.value); }
  }

  class CacheLayer<V(==,!new)> {
    const maxSize: nat
    const policy: Policy
    const sizeOf: V -> nat

    var cache: map<string, Cached<V>>
    var heap: seq<Expiration>
    var currentSize: int
    var hits: nat
    var misses: nat
    var sets: nat

    /** Every call so far. */
    ghost var log: seq<Event<V>>

    /** What they amount to. */
    ghost var ledger: Ledger<V>

    /** Between any two calls: the cache is part of the promised map, the byte counter is exact,
        no lookup has ever been wrong, and the counters count the log. */
    ghost predicate Valid()
      reads this
    {
      && Consistent()
      && ledger == LedgerOf(log) && ledger.sound
      && hits == ledger.found && hits + misses == ledger.lookups && sets == ledger.stores
    }

    ghost predicate Consistent()
      reads this`cache, this`ledger, this`currentSize
    {
      Within(cache, ledger.promised) && currentSize == TotalSize(cache)
    }

    constructor (maxSize: nat, policy: Policy, sizeOf: V -> nat)
      ensures Valid() && log == [] && cache == map[] && heap == []
      ensures this.maxSize == maxSize && this.policy == policy && this.sizeOf == sizeOf
    {
      this.maxSize, this.policy, this.sizeOf := maxSize, policy, sizeOf;
      cache, heap, currentSize, hits, misses, sets := map[], [], 0, 0, 0, 0;
      log, ledger := [], LedgerOf([]);
    }

    // ---- Expiry ----

    /** Pops every due entry, earliest first. */
    method GetExpiredKeys(now: int) returns (expired: seq<string>)
      modifies this`heap
      ensures Swept(old(heap), heap, now) && DueKeys(expired, old(heap), now)
    {
      expired := [];
      while heap != []
        invariant Draining(old(heap), heap, expired, now)
        decreases |heap|
      {
        ghost var first := EarliestExists(heap);
        var i: nat :| i < |heap| && Earliest(heap, i);
        if heap[i].expiresAt > now {
          DrainEnds(old(heap), heap, expired, now, i);
          return;
        }
        DrainStep(old(heap), heap, expired, now, i);
        expired := expired + [heap[i].key];
        heap := heap[..i] + heap[i + 1..];
      }
      DrainEnds(old(heap), heap, expired, now, 0);
    }

    method EvictExpired(now: int)
      requires Consistent()
      modifies this`cache, this`heap, this`currentSize
      ensures Consistent()
      ensures cache == Undue(old(cache), old(heap), now) && Swept(old(heap), heap, now)
    {
      var expired := GetExpiredKeys(now);
      for i := 0 to |expired|
        invariant Consistent() && Swept(old(heap), heap, now)
        invariant cache == Without(old(cache), expired[..i])
      {
        var key := expired[i];
        WithoutNext(old(cache), expired, i);
        if key in cache {
          TotalSizeWithout(cache, key);
          currentSize := currentSize - cache[key].sizeBytes;
          cache := cache - {key};
        }
      }
      assert expired[..|expired|] == expired;
      SweepRemovesDue(old(cache), old(heap), expired, now);
    }

    // ---- Lookup and removal ----

    /** Forgets one key, without the client asking. */
    method Discard(key: string) returns (found: bool)
      requires Consistent()
      modifies this`cache, this`heap, this`currentSize
      ensures Consistent()
      ensures found == (key in old(cache)) && cache == old(cache) - {key}
      ensures heap == if found then Untracked(old(heap), key) else old(heap)
    {
      found := key in cache;
      if found {
        TotalSizeWithout(cache, key);
        currentSize := currentSize - cache[key].sizeBytes;
        cache := cache - {key};
        heap := Untracked(heap, key);
      } else {
        assert cache - {key} == cache;
      }
    }

    method MarkAccessed(key: string, now: int)
      requires Consistent() && key in cache
      modifies this`cache
      ensures currentSize == TotalSize(cache) && cache == old(cache)[key := Touched(old(cache)[key], now)]
    {
      TotalSizeUpdate(cache, key, Touched(cache[key], now));
      cache := cache[key := Touched(cache[key], now)];
    }

    /** What is returned, and what is left, once the sweep is done. */
    method LookUp(key: string, tested: int, marked: int) returns (r: Option<V>)
      requires Consistent()
      modifies this`cache, this`heap, this`currentSize, this`hits, this`misses
      ensures currentSize == TotalSize(cache) && GoodLookup(ledger.promised, Looked(key, tested, marked, r))
      ensures Within(cache, IdealStep(ledger.promised, Looked(key, tested, marked, r)))
      ensures hits == old(hits) + (if r.Some? then 1 else 0) && hits + misses == old(hits + misses) + 1
      ensures LookedUp(old(cache), cache, key, tested, marked, r)
    {
      NothingFound(ledger.promised, key, tested, marked);
      if key in cache {
        if Past(cache[key].expiresAt, tested) {
          var _ := Discard(key);
          misses := misses + 1;
          r := None;
        } else {
          r := Hit(key, tested, marked);
        }
      } else {
        assert cache == cache - {key};
        misses := misses + 1;
        r := None;
      }
    }

    /** A lookup that finds its key. */
    method Hit(key: string, tested: int, marked: int) returns (r: Option<V>)
      requires Consistent() && key in cache && !Past(cache[key].expiresAt, tested)
      modifies this`cache, this`hits
      ensures currentSize == TotalSize(cache) && GoodLookup(ledger.promised, Looked(key, tested, marked, r))
      ensures Within(cache, IdealStep(ledger.promised, Looked(key, tested, marked, r)))
      ensures r == Some(old(cache)[key].value) && hits == old(hits) + 1
      ensures cache == old(cache)[key := Touched(old(cache)[key], marked)]
    {
      r := Some(cache[key].value);
      WithinTouched(cache, ledger.promised, key, tested, marked, r);
      MarkAccessed(key, marked);
      hits := hits + 1;
    }

    /** Clock readings: the heap sweep, the expiry test, the access mark. */
    method Get(key: string, swept: int, tested: int, marked: int) returns (r: Option<V>)
      requires Valid()
      modifies this`cache, this`heap, this`currentSize, this`hits, this`misses, this`log, this`ledger
      ensures Valid() && log == old(log) + [Looked(key, tested, marked, r)]
      ensures LookedUp(Undue(old(cache), old(heap), swept), cache, key, tested, marked, r)
    {
      EvictExpired(swept);
      r := LookUp(key, tested, marked);
      Record(Looked(key, tested, marked, r));
    }

    /** Bookkeeping of the proof: one more call. */
    ghost method Record(e: Event<V>)
      requires ledger == LedgerOf(log)
      modifies this`log, this`ledger
      ensures log == old(log) + [e] && ledger == LedgerOf(log) && ledger == LedgerStep(old(ledger), e)
      ensures ledger.promised == IdealStep(old(ledger).promised, e)
    {
      LedgerExtends(log, e);
      log, ledger := log + [e], LedgerStep(ledger, e);
    }

    method Remove(key: string) returns (found: bool)
      requires Valid()
      modifies this`cache, this`heap, this`currentSize, this`log, this`ledger
      ensures Valid() && log == old(log) + [Dropped(key)]
      ensures found == (key in old(cache)) && cache == old(cache) - {key}
    {
      found := Discard(key);
      Record(Dropped(key));
    }

    // ---- Eviction by policy ----

    /** The entries in the map's iteration order, whatever that is. */
    method Candidates() returns (cands: seq<Candidate<V>>)
      ensures Drawn(cands, cache) && Covers(cands, cache)
    {
      cands := [];
      var left := cache.Keys;
      while left != {}
        invariant left <= cache.Keys && Drawn(cands, cache)
        invariant forall k :: k in cache && k !in left ==> (k, cache[k]) in cands
        invariant forall i :: 0 <= i < |cands| ==> cands[i].0 !in left
      {
        var k :| k in left;
        cands := cands + [(k, cache[k])];
        left := left - {k};
      }
    }

    /** Gives keys up in the order listed until the target is freed. */
    method GiveUp(victims: seq<string>, target: nat) returns (n: nat, freed: nat)
      requires Consistent() && Listed(victims, cache)
      modifies this`cache, this`heap, this`currentSize
      ensures Consistent() && Cleaned(old(heap), heap, old(cache), cache)
      ensures GaveUp(old(cache), cache, victims, n, freed, target) && (n < |victims| ==> freed >= target)
    {
      n, freed := 0, 0;
      GiveUpNone(cache, victims, target);
      while n < |victims|
        invariant Consistent() && Cleaned(old(heap), heap, old(cache), cache)
        invariant GaveUp(old(cache), cache, victims, n, freed, target)
      {
        if freed >= target { break; }
        GiveUpNext(old(cache), cache, victims, n, freed, target);
        CleanedNext(old(heap), heap, old(cache), cache, victims[n]);
        freed := freed + cache[victims[n]].sizeBytes;
        var _ := Discard(victims[n]);
        n := n + 1;
      }
    }

    method EvictByPolicy(target: nat, now: int)
      requires Consistent()
      modifies this`cache, this`heap, this`currentSize
      ensures Consistent() && Cleaned(old(heap), heap, old(cache), cache)
      ensures policy == NoEviction ==> cache == old(cache)
      ensures policy != NoEviction ==> PolicyEvicted(policy, now, target, old(cache), cache)
    {
      var cands := Candidates();
      var victims := SelectVictims(policy, cands, |cands|, now);
      if policy != NoEviction { VictimsInOrder(policy, cands, now, cache); }
      var n, freed := GiveUp(victims, target);
      if policy != NoEviction {
        assert EvictedPrefix(policy, now, target, old(cache), cache, victims, n);
      }
    }

    /** Makes room for `required` bytes, or refuses when nothing may be evicted.  Evicts a fifth
        more than is missing. */
    method EnsureSpace(required: nat, now: int) returns (ok: bool)
      requires Consistent()
      modifies this`cache, this`heap, this`currentSize
      ensures Consistent() && Cleaned(old(heap), heap, old(cache), cache)
      ensures ok <==> old(currentSize) + required <= maxSize || policy != NoEviction
      ensures RoomMade(old(cache), cache, required, now) && (!ok ==> heap == old(heap))
      ensures ok ==> currentSize + required <= maxSize || cache == map[]
    {
      if currentSize + required <= maxSize { return true; }
      if policy == NoEviction { return false; }
      var missing := currentSize + required - maxSize;
      EvictByPolicy(missing * 6 / 5, now);
      EvictionIsFair(policy, now, missing * 6 / 5, old(cache), cache);
      return true;
    }

    /** Nothing goes while there is room or eviction is off; otherwise the policy evicts. */
    ghost predicate RoomMade(before: map<string, Cached<V>>, after: map<string, Cached<V>>, required: nat, now: int) {
      var missing := TotalSize(before) + required - maxSize;
      if missing <= 0 || policy == NoEviction then after == before
      else PolicyEvicted(policy, now, missing * 6 / 5, before, after)
    }

    method Put(key: string, v: Cached<V>)
      requires Valid() && v.accessCount == 0
      modifies this`cache, this`currentSize, this`sets, this`log, this`ledger
      ensures Valid() && cache == old(cache)[key := v]
      ensures log == old(log) + [Stored(key, v.value, v.expiresAt, v.lastAccessed)]
      ensures currentSize <= old(currentSize) + v.sizeBytes
    {
      TotalSizeUpdate(cache, key, v);
      WithinUpdate(cache, ledger.promised, key, v);
      if key in cache { currentSize := currentSize - cache[key].sizeBytes; }
      cache := cache[key := v];
      currentSize := currentSize + v.sizeBytes;
      sets := sets + 1;
      Record(Stored(key, v.value, v.expiresAt, v.lastAccessed));
    }

    /** The first half of a set: the expiration is pushed, then room is made. */
    method Reserve(key: string, expiresAt: Option<int>, size: nat, scored: int) returns (ok: bool)
      requires Consistent()
      modifies this`cache, this`heap, this`currentSize
      ensures Consistent() && RoomMade(old(cache), cache, size, scored)
      ensures ok <==> old(currentSize) + size <= maxSize || policy != NoEviction
      ensures !ok ==> heap == old(heap) + Pushed(key, expiresAt)
      ensures ok ==> currentSize + size <= maxSize || cache == map[]
      ensures Cleaned(old(heap) + Pushed(key, expiresAt), heap, old(cache), cache)
    {
      heap := heap + Pushed(key, expiresAt);
      ok := EnsureSpace(size, scored);
    }

    /** Clock readings: the expiry, the access mark, the eviction scores. */
    method SetWithTtl(key: string, value: V, ttl: Option<nat>, timed: int, marked: int, scored: int)
        returns (ok: bool, ghost left: map<string, Cached<V>>)
      requires Valid()
      modifies this`cache, this`heap, this`currentSize, this`sets, this`log, this`ledger
      ensures Valid()
      ensures ok <==> old(currentSize) + sizeOf(value) <= maxSize || policy != NoEviction
      // A refused call still leaves its expiration behind, which later drops the key's old value.
      ensures !ok ==> cache == old(cache) && log == old(log)
                      && heap == old(heap) + Pushed(key, ExpiryOf(ttl, timed))
      ensures RoomMade(old(cache), left, sizeOf(value), scored)
      ensures ok ==> cache == left[key := Cached(value, ExpiryOf(ttl, timed), marked, 0, sizeOf(value))]
      ensures ok ==> log == old(log) + [Stored(key, value, ExpiryOf(ttl, timed), marked)]
      // The size bound.
      ensures ok ==> currentSize <= maxSize || cache.Keys == {key}
      ensures Cleaned(old(heap) + Pushed(key, ExpiryOf(ttl, timed)), heap, old(cache), left)
    {
      var cached := Cached(value, ExpiryOf(ttl, timed), marked, 0, sizeOf(value));
      ok := Reserve(key, cached.expiresAt, cached.sizeBytes, scored);
      left := cache;
      if ok {
        Put(key, cached);
      }
    }

    /** What making room does to the heap decides whether the entry that is then stored is tracked:
        exactly if the key's old value was not evicted.  It is tracked for sure if the key was absent,
        nothing was missing, or the entries that must precede it reach the target of the eviction;
        it is not if those that may precede it weigh less.  Only ties lie between the two. */
    lemma TrackedByRank(heap: seq<Expiration>, heap': seq<Expiration>,
        before: map<string, Cached<V>>, left: map<string, Cached<V>>, key: string, at: int, required: nat, now: int)
      requires RoomMade(before, left, required, now)
      requires Cleaned(heap + Pushed(key, Some(at)), heap', before, left)
      requires policy != NoEviction || TotalSize(before) + required <= maxSize
      ensures Tracked(heap', key, Some(at)) <==> (key in before ==> key in left)
      ensures var missing := TotalSize(before) + required - maxSize;
              && (key !in before || missing <= 0 ==> Tracked(heap', key, Some(at)))
              && (key in before && missing > 0 ==>
                    && (TotalSize(MustPrecede(policy, now, before, key)) >= missing * 6 / 5 ==> Tracked(heap', key, Some(at)))
                    && (TotalSize(MayPrecede(policy, now, before, key)) < missing * 6 / 5 ==> !Tracked(heap', key, Some(at))))
    {
      TrackedIff(heap, heap', before, left, key, Some(at));
      var missing := TotalSize(before) + required - maxSize;
      if key in before && missing > 0 {
        EvictedByRank(policy, now, missing * 6 / 5, before, left, key);
      }
    }

    // ---- Whom the policies spare ----

    /** What one eviction spares: b goes only if a goes, when a ranks ahead. */
    lemma SparesLater(left: map<string, Cached<V>>, required: nat, now: int, a: string, b: string)
      requires RoomMade(cache, left, required, now) && a in cache && b in cache && Ahead(policy, now, cache[a], cache[b])
      ensures b !in left ==> a !in left
    {
      var missing := TotalSize(cache) + required - maxSize;
      if missing > 0 && policy != NoEviction { EvictionIsFair(policy, now, missing * 6 / 5, cache, left); }
    }

    /** LRU: an entry that was last set or found at least a second after another is not evicted
        while the other stays. */
    lemma LruSparesUsed(left: map<string, Cached<V>>, required: nat, now: int, a: string, b: string, i: int, j: int)
      requires Valid() && policy == LRU && RoomMade(cache, left, required, now) && a in cache && b in cache
      requires LastUse(log, i, a) && LastUse(log, j, b)
      requires log[i].marked + 1_000_000_000 <= log[j].marked <= now
      ensures b !in left ==> a !in left
    {
      MarkedAtLastUse(log, i, a);
      MarkedAtLastUse(log, j, b);
      AheadIsMeant(LRU, now, cache[a], cache[b]);
      SparesLater(left, required, now, a, b);
    }

    /** LFU: nor one that was found more often since it was set. */
    lemma LfuSparesUsed(left: map<string, Cached<V>>, required: nat, now: int, a: string, b: string)
      requires Valid() && policy == LFU && RoomMade(cache, left, required, now) && a in cache && b in cache
      requires Hits(log, a) < Hits(log, b)
      ensures b !in left ==> a !in left
    {
      IdealCountsHits(log, a);
      IdealCountsHits(log, b);
      AheadIsMeant(LFU, now, cache[a], cache[b]);
      SparesLater(left, required, now, a, b);
    }

    /** TTL: nor one that was given no expiry, or one at least two seconds later. */
    lemma TtlSparesLater(left: map<string, Cached<V>>, required: nat, now: int, a: string, b: string, i: int, j: int)
      requires Valid() && policy == TTL && RoomMade(cache, left, required, now) && a in cache && b in cache
      requires LastTiming(log, i, a) && LastTiming(log, j, b) && log[i].expiresAt.Some?
      requires log[j].expiresAt.Some? ==> log[i].expiresAt.value + 2_000_000_000 <= log[j].expiresAt.value
      ensures b !in left ==> a !in left
    {
      TimedAtLastTiming(log, i, a);
      TimedAtLastTiming(log, j, b);
      AheadIsMeant(TTL, now, cache[a], cache[b]);
      SparesLater(left, required, now, a, b);
    }

    // ---- Changing an expiry; clearing ----

    /** Replaces the expiry of a cached key, and its heap entries with it. */
    method Retime(key: string, expiresAt: Option<int>) returns (found: bool)
      requires Valid()
      modifies this`cache, this`heap, this`log, this`ledger
      ensures Valid() && found == (key in old(cache))
      ensures !found ==> cache == old(cache) && heap == old(heap) && log == old(log)
      ensures found ==> cache == old(cache)[key := old(cache)[key].(expiresAt := expiresAt)]
      ensures found ==> log == old(log) + [Retimed(key, expiresAt)]
      ensures found ==> heap == Untracked(old(heap), key) + Pushed(key, expiresAt)
    {
      found := key in cache;
      if found {
        var v := cache[key].(expiresAt := expiresAt);
        TotalSizeUpdate(cache, key, v);
        WithinUpdate(cache, ledger.promised, key, v);
        cache := cache[key := v];
        heap := Untracked(heap, key) + Pushed(key, expiresAt);
        Record(Retimed(key, expiresAt));
      }
    }

    method Expire(key: string, ttl: nat, now: int) returns (found: bool)
      requires Valid()
      modifies this`cache, this`heap, this`log, this`ledger
      ensures Valid() && found == (key in old(cache))
      ensures log == old(log) + if found then [Retimed(key, ExpiryOf(Some(ttl), now))] else []
      // From now on the key leaves when, and not before, its new time has come.
      ensures found ==> key in cache && forall t :: Due(heap, key, t) <==> now + ttl * 1_000_000_000 <= t
    {
      found := Retime(key, ExpiryOf(Some(ttl), now));
      if found {
        ghost var e := Expiration(key, now + ttl * 1_000_000_000);
        assert heap[|heap| - 1] == e;
      }
    }

    method Persist(key: string) returns (found: bool)
      requires Valid()
      modifies this`cache, this`heap, this`log, this`ledger
      ensures Valid() && found == (key in old(cache))
      ensures log == old(log) + if found then [Retimed(key, None)] else []
      // From now on no time makes the key leave.
      ensures found ==> key in cache && forall t :: !Due(heap, key, t) && !Past(cache[key].expiresAt, t)
    {
      found := Retime(key, None);
    }

    /** The promised expiry, in whole seconds from now. */
    method Ttl(key: string, now: int) returns (r: Option<int>)
      requires Valid()
      ensures r.Some? <==> key in cache
      ensures r.Some? ==> key in LedgerOf(log).promised &&
                          (match LedgerOf(log).promised[key].expiresAt
                           case None => r.value == -1
                           case Some(t) => r.value == WholeSeconds(t - now))
    {
      if key in cache {
        r := match cache[key].expiresAt
             case Some(t) => Some(WholeSeconds(t - now))
             case None => Some(-1);
      } else {
        r := None;
      }
    }

    method Clear()
      requires Valid()
      modifies this`cache, this`heap, this`currentSize, this`log, this`ledger
      ensures Valid() && cache == map[] && heap == [] && currentSize == 0
      ensures log == old(log) + [Cleared]
    {
      cache, heap, currentSize := map[], [], 0;
      Record(Cleared);
    }
  }

  lemma EvictedIsUndue<V>(heap: seq<Expiration>, heap': seq<Expiration>,
      before: map<string, Cached<V>>, after: map<string, Cached<V>>, key: string)
    requires Cleaned(heap, heap', before, after) && key in before && key !in after
    ensures forall now :: !Due(heap', key, now)
  {
  }

  lemma OnlyEntryEvicted<V(!new)>(before: map<string, Cached<V>>, left: map<string, Cached<V>>, v: Cached<V>, target: nat)
    requires before == map["k" := v] && target > 0 && PolicyEvicted(LRU, 0, target, before, left)
    ensures "k" !in left
  {
    assert MayPrecede(LRU, 0, before, "k") == map[];
    EvictedByRank(LRU, 0, target, before, left, "k");
  }

  lemma OneEntrySize<V>(before: map<string, Cached<V>>, v: Cached<V>)
    requires before == map["k" := v]
    ensures TotalSize(before) == v.sizeBytes
  {
    TotalSizeWithout(before, "k");
    assert before - {"k"} == map[];
  }

  /** A cache with one entry of eight bytes, set at time zero. */
  method OneEntry<V(==,!new)>(maxSize: nat, policy: Policy, v: V, ttl: Option<nat>) returns (c: CacheLayer<V>)
    requires maxSize >= 8
    ensures fresh(c) && c.Valid() && c.maxSize == maxSize && c.policy == policy && c.sizeOf(v) == 8
    ensures c.cache == map["k" := Cached(v, ExpiryOf(ttl, 0), 0, 0, 8)] && c.currentSize == TotalSize(c.cache) == 8
    ensures forall e :: e in c.heap <==> e in Pushed("k", ExpiryOf(ttl, 0))
  {
    c := new CacheLayer(maxSize, policy, _ => 8);
    assert TotalSize(c.cache) == 0;
    var ok, left := c.SetWithTtl("k", v, ttl, 0, 0, 0);
    assert left == map[];
    OneEntrySize(c.cache, c.cache["k"]);
  }

  /** Overwriting the only entry with one that does not fit beside it: the new entry has an expiry,
      but no sweep will ever drop it. */
  method LosesTrack<V(==,!new)>(v: V) returns (c: CacheLayer<V>)
    ensures c.Valid() && "k" in c.cache && c.cache["k"].expiresAt == Some(1_000_000_000)
    ensures forall now :: !Due(c.heap, "k", now)
  {
    c := OneEntry(10, LRU, v, Some(1));
    ghost var before, heap := c.cache, c.heap;
    var ok, left := c.SetWithTtl("k", v, Some(1), 0, 0, 0);
    OnlyEntryEvicted(before, left, before["k"], 7);
    EvictedIsUndue(heap + Pushed("k", Some(1_000_000_000)), c.heap, before, left, "k");
  }

  /** Overwriting an entry with one that never expires: the old expiry drops the new entry. */
  method OverwrittenSweptEarly<V(==,!new)>(v: V) returns (c: CacheLayer<V>)
    ensures c.Valid() && "k" in c.cache && c.cache["k"].expiresAt == None && Early(c.heap, "k", None)
  {
    c := OneEntry(20, LRU, v, Some(1));
    ghost var before, heap := c.cache, c.heap;
    assert Pushed("k", Some(1_000_000_000))[0] == Expiration("k", 1_000_000_000);
    assert Expiration("k", 1_000_000_000) in heap;
    var ok, left := c.SetWithTtl("k", v, None, 0, 0, 0);
    EarlyAfterSetIff(heap, c.heap, before, left, "k", None);
  }

  /** A refused set: its expiry drops the entry it did not replace. */
  method RefusalSweptEarly<V(==,!new)>(v: V) returns (c: CacheLayer<V>)
    ensures c.Valid() && "k" in c.cache && c.cache["k"].expiresAt == None && Early(c.heap, "k", None)
  {
    c := OneEntry(10, NoEviction, v, None);
    ghost var heap := c.heap;
    var ok, left := c.SetWithTtl("k", v, Some(1), 0, 0, 0);
    EarlyAfterRefusalIff(heap, "k", Some(1_000_000_000), None);
  }
}
