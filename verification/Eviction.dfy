/** Eviction order of the cache: how cached values are scored and in which order they are given
    up.  Times are nanoseconds on one clock; scores are exact. */
module Eviction {
  import opened Wrappers
  import opened Sorting

  datatype Cached<V> = Cached(
    value: V,
    expiresAt: Option<int>,
    lastAccessed: int,
    accessCount: nat,
    sizeBytes: nat)

  datatype Policy = LRU | LFU | TTL | NoEviction

  /** A score, with the largest float kept apart: it stands for "no expiry". */
  datatype Score = Finite(n: int) | Greatest

  /** A duration in whole seconds, truncated toward zero. */
  function WholeSeconds(d: int): (s: int) {
    if d >= 0 then d / 1_000_000_000 else -((-d) / 1_000_000_000)
  }

  lemma WholeSecondsIs(d: int)
    ensures 0 <= d ==> WholeSeconds(d) * 1_000_000_000 <= d < (WholeSeconds(d) + 1) * 1_000_000_000
    ensures WholeSeconds(-d) == -WholeSeconds(d)
  {
  }

  function ScoreOf<V>(p: Policy, v: Cached<V>, now: int): (s: Score) {
    match p
    case LRU => Finite(WholeSeconds(now - v.lastAccessed))
    case LFU => Finite(v.accessCount)
    case TTL => (match v.expiresAt case Some(t) => Finite(WholeSeconds(t - now)) case None => Greatest)
    case NoEviction => Finite(0)
  }

  predicate Below(a: Score, b: Score) {
    match (a, b)
    case (Finite(x), Finite(y)) => x < y
    case (Finite(_), Greatest) => true
    case (Greatest, _) => false
  }

  /** a is given up strictly before b: LRU sorts scores downwards, the others upwards. */
  predicate Ahead<V>(p: Policy, now: int, a: Cached<V>, b: Cached<V>) {
    if p == LRU
    then Below(ScoreOf(p, b, now), ScoreOf(p, a, now))
    else Below(ScoreOf(p, a, now), ScoreOf(p, b, now))
  }

  // ---- What the order means for a client ----

  /** The values the policy is documented to give up first: used longer ago, used less often,
      expiring sooner. */
  predicate MeantAhead<V>(p: Policy, a: Cached<V>, b: Cached<V>) {
    match p
    case LRU => a.lastAccessed < b.lastAccessed
    case LFU => a.accessCount < b.accessCount
    case TTL => a.expiresAt.Some? && (b.expiresAt.None? || a.expiresAt.value < b.expiresAt.value)
    case NoEviction => false
  }

  /** The order never contradicts the documented one, agrees with it entirely under LFU, and
      under the two time policies can only miss differences that vanish in whole seconds. */
  lemma AheadIsMeant<V>(p: Policy, now: int, a: Cached<V>, b: Cached<V>)
    ensures Ahead(p, now, a, b) ==> MeantAhead(p, a, b)
    ensures MeantAhead(p, a, b) ==>
              (Ahead(p, now, a, b) <==> ScoreOf(p, a, now) != ScoreOf(p, b, now))
    ensures p == LFU ==> (Ahead(p, now, a, b) <==> MeantAhead(p, a, b))
    ensures p == LRU && b.lastAccessed <= now && a.lastAccessed + 1_000_000_000 <= b.lastAccessed ==>
              Ahead(p, now, a, b)
    ensures p == TTL && a.expiresAt.Some? && b.expiresAt.Some? ==>
              (a.expiresAt.value + 2_000_000_000 <= b.expiresAt.value ==> Ahead(p, now, a, b))
  {
  }

  // ---- Choosing victims ----

  type Candidate<V> = (string, Cached<V>)

  function AheadOf<V>(p: Policy, now: int): (before: (Candidate<V>, Candidate<V>) -> bool) {
    (a: Candidate<V>, b: Candidate<V>) => Ahead(p, now, a.1, b.1)
  }

  lemma AheadIsWeakOrder<V(!new)>(p: Policy, now: int)
    ensures WeakOrder(AheadOf<V>(p, now))
  {
  }

  /** Candidates taken from a map: each names its own current value, no key twice. */
  ghost predicate Drawn<V>(cands: seq<Candidate<V>>, cache: map<string, Cached<V>>) {
    && (forall i :: 0 <= i < |cands| ==> cands[i].0 in cache && cands[i].1 == cache[cands[i].0])
    && (forall i, j :: 0 <= i < j < |cands| ==> cands[i].0 != cands[j].0)
  }

  /** Keys in the order they will be given up. */
  function KeysOf<V>(s: seq<Candidate<V>>): (keys: seq<string>)
    ensures |keys| == |s| && forall i :: 0 <= i < |s| ==> keys[i] == s[i].0
  {
    seq(|s|, i requires 0 <= i < |s| => s[i].0)
  }

  function SelectVictims<V>(p: Policy, cands: seq<Candidate<V>>, count: nat, now: int): (victims: seq<string>) {
    if p == NoEviction then []
    else
      var keys := KeysOf(SortBy(AheadOf(p, now), cands));
      if count < |keys| then keys[..count] else keys
  }

  ghost predicate InEvictionOrder<V>(p: Policy, now: int, keys: seq<string>, cache: map<string, Cached<V>>) {
    && Distinct(keys)
    && (forall i :: 0 <= i < |keys| ==> keys[i] in cache)
    && (forall i, j :: 0 <= i < j < |keys| ==> !Ahead(p, now, cache[keys[j]], cache[keys[i]]))
  }

  ghost predicate Distinct(keys: seq<string>) {
    forall i, j :: 0 <= i < j < |keys| ==> keys[i] != keys[j]
  }

  lemma DistinctCandidates<V>(a: seq<Candidate<V>>, b: seq<Candidate<V>>, cache: map<string, Cached<V>>)
    requires Drawn(a, cache) && multiset(a) == multiset(b)
    ensures Drawn(b, cache)
  {
    forall i | 0 <= i < |b| ensures b[i].0 in cache && b[i].1 == cache[b[i].0] {
      assert b[i] in multiset(b);
      assert b[i] in a;
    }
    forall i, j | 0 <= i < j < |b| ensures b[i].0 != b[j].0 {
      if b[i].0 == b[j].0 {
        assert b[i] == b[j];
        TwiceCounts(b, i, j);
        OnceCounts(a, b[i], cache);
        assert false;
      }
    }
  }

  lemma TwiceCounts<T>(s: seq<T>, i: nat, j: nat)
    requires i < j < |s| && s[i] == s[j]
    ensures multiset(s)[s[i]] >= 2
  {
    var left, right := s[..j], s[j..];
    assert s == left + right;
    assert s[i] in left && s[j] in right;
  }

  lemma {:induction false} OnceCounts<V>(a: seq<Candidate<V>>, c: Candidate<V>, cache: map<string, Cached<V>>)
    requires Drawn(a, cache)
    ensures multiset(a)[c] <= 1
  {
    if a != [] {
      var rest := a[..|a| - 1];
      assert a == rest + [a[|a| - 1]];
      OnceCounts(rest, c, cache);
    }
  }

  /** Every entry of the map is among the candidates. */
  ghost predicate Covers<V>(cands: seq<Candidate<V>>, cache: map<string, Cached<V>>) {
    forall k :: k in cache ==> (k, cache[k]) in cands
  }

  lemma KeysInOrder<V>(p: Policy, now: int, s: seq<Candidate<V>>, cache: map<string, Cached<V>>)
    requires Drawn(s, cache) && Ordered(AheadOf(p, now), s)
    ensures InEvictionOrder(p, now, KeysOf(s), cache)
  {
  }

  lemma KeysCover<V>(s: seq<Candidate<V>>, cache: map<string, Cached<V>>)
    requires Covers(s, cache)
    ensures forall k :: k in cache ==> k in KeysOf(s)
  {
  }

  lemma SamePairsCover<V>(a: seq<Candidate<V>>, b: seq<Candidate<V>>, cache: map<string, Cached<V>>)
    requires Covers(a, cache) && multiset(a) == multiset(b)
    ensures Covers(b, cache)
  {
    forall k | k in cache ensures (k, cache[k]) in b {
      assert (k, cache[k]) in multiset(a);
    }
  }

  /** Selecting among all candidates lists every key once, in the order of the policy. */
  lemma VictimsInOrder<V(!new)>(p: Policy, cands: seq<Candidate<V>>, now: int, cache: map<string, Cached<V>>)
    requires p != NoEviction
    requires Drawn(cands, cache) && Covers(cands, cache)
    ensures InEvictionOrder(p, now, SelectVictims(p, cands, |cands|, now), cache)
    ensures forall k :: k in cache ==> k in SelectVictims(p, cands, |cands|, now)
  {
    var sorted := SortBy(AheadOf(p, now), cands);
    assert SelectVictims(p, cands, |cands|, now) == KeysOf(sorted);
    AheadIsWeakOrder<V>(p, now);
    SortsBy(AheadOf(p, now), cands);
    DistinctCandidates(cands, sorted, cache);
    SamePairsCover(cands, sorted, cache);
    KeysInOrder(p, now, sorted, cache);
    KeysCover(sorted, cache);
  }

  /** A request for fewer victims is met by the front of the same order. */
  lemma FewerVictims<V>(p: Policy, cands: seq<Candidate<V>>, count: nat, now: int)
    ensures SelectVictims(p, cands, count, now) <= SelectVictims(p, cands, |cands|, now)
    ensures |SelectVictims(p, cands, count, now)| ==
            if p == NoEviction then 0 else if count < |cands| then count else |cands|
  {
  }

  /** Two accesses within one second of each other can be given up in either order: whole
      seconds hide which was used longer ago. */
  lemma SubSecondAccessesTie<V>(v: V)
    ensures var used, usedLater := Cached(v, None, 0, 0, 1), Cached(v, None, 999_999_999, 0, 1);
            && MeantAhead(LRU, used, usedLater)
            && SelectVictims(LRU, [("later", usedLater), ("earlier", used)], 1, 999_999_999) == ["later"]
  {
    var a, b := ("earlier", Cached(v, None, 0, 0, 1)), ("later", Cached(v, None, 999_999_999, 0, 1));
    var s := [b, a];
    var now := 999_999_999;
    assert s[1..] == [a] && s[1..][1..] == [];
    var before := AheadOf(LRU, now);
    assert SortBy(before, s[1..][1..]) == [];
    assert SortBy(before, s[1..]) == InsertInto(before, a, []) == [a];
    assert WholeSeconds(now - a.1.lastAccessed) == 0;
    assert InsertInto(before, b, [a]) == [b, a];
    assert KeysOf(s)[..1] == ["later"];
  }
}
