/**
 The open-addressing hash table with linear probing, tombstones and versions.

  This is the theory of table states as values; the in-place table of module
`HashTable` is built on it.
 */
module Probing {
  import opened Memory
  import opened KvSpec

  const EMPTY: nat := 0
  const TOMBSTONE: nat := 1

  datatype Entry = Entry(hash: nat, version: nat, keyLen: nat, valLen: nat, offset: nat)

  type RawHash = Bytes -> nat

  predicate Live(e: Entry) {
    e.hash != EMPTY && e.hash != TOMBSTONE
  }

  predicate LiveAt(es: seq<Entry>, i: int) {
    0 <= i < |es| && Live(es[i])
  }

  predicate EmptyAt(es: seq<Entry>, i: int) {
    0 <= i < |es| && es[i].hash == EMPTY
  }

  /** The two smallest hash values are reserved for EMPTY and TOMBSTONE. */
  function HashKey(raw: RawHash, key: Bytes): (h: nat)
    ensures h >= 2
  {
    if raw(key) <= TOMBSTONE then 2 else raw(key)
  }

  function BlockOf(e: Entry): Block {
    Block(e.offset, e.keyLen + e.valLen)
  }

  function KeyOf(e: Entry, mem: Bytes): Bytes
    requires Fits(BlockOf(e), mem)
  {
    mem[e.offset..e.offset + e.keyLen]
  }

  function ValueOf(e: Entry, mem: Bytes): Bytes
    requires Fits(BlockOf(e), mem)
  {
    mem[e.offset + e.keyLen..e.offset + e.keyLen + e.valLen]
  }

  // ---------------------------------------------------------------- probing

  /** Number of probe steps from slot `home` to slot `i` around the table. */
  function Dist(home: nat, i: nat, cap: nat): (d: nat)
    requires home < cap && i < cap
    ensures d < cap
  {
    if home <= i then i - home else i + cap - home
  }

  function Home(hash: nat, cap: nat): (h: nat)
    requires cap > 0
    ensures h < cap
  {
    hash % cap
  }

  /** The hash is the raw one unless that is reserved. */
  lemma HashIsRaw(raw: RawHash, key: Bytes)
    ensures HashKey(raw, key) == raw(key) <==> raw(key) >= 2
  {
  }

  /** Homes repeat with the capacity, and below it each hash has its own. */
  lemma HomeIsRemainder(hash: nat, cap: nat)
    requires cap > 0
    ensures Home(cap + hash, cap) == Home(hash, cap)
    ensures hash < cap ==> Home(hash, cap) == hash
  {
    AddDivisor(hash, cap);
  }

  lemma NextSlot(home: nat, i: nat, cap: nat)
    requires home < cap && i < cap
    requires Dist(home, i, cap) + 1 < cap
    ensures (i + 1) % cap < cap
    ensures Dist(home, (i + 1) % cap, cap) == Dist(home, i, cap) + 1
  {
    if i + 1 < cap {
      assert (i + 1) % cap == i + 1;
    } else {
      assert (i + 1) % cap == 0;
    }
  }

  lemma DistInjective(home: nat, i: nat, j: nat, cap: nat)
    requires home < cap && i < cap && j < cap
    requires Dist(home, i, cap) == Dist(home, j, cap)
    ensures i == j
  {
  }

  // ---------------------------------------------------------- representation

  type Slots = map<Bytes, nat>

  ghost predicate EntryOk(raw: RawHash, e: Entry, mem: Bytes) {
    && Fits(BlockOf(e), mem)
    && e.hash == HashKey(raw, KeyOf(e, mem))
  }

  /** Every live slot is the slot recorded for its own key. */
  ghost predicate SlotOk(raw: RawHash, es: seq<Entry>, mem: Bytes, slot: Slots, i: nat)
    requires i < |es|
  {
    Live(es[i]) ==>
      && EntryOk(raw, es[i], mem)
      && KeyOf(es[i], mem) in slot
      && slot[KeyOf(es[i], mem)] == i
  }

  /** No EMPTY slot lies on the cyclic path from `home` up to `i`. */
  ghost predicate PathOk(es: seq<Entry>, home: nat, i: nat)
    requires home < |es| && i < |es|
  {
    forall j {:trigger EmptyAt(es, j)} :: EmptyAt(es, j) ==> Dist(home, i, |es|) <= Dist(home, j, |es|)
  }

  /** No EMPTY slot lies between a live slot's home and the slot itself. */
  ghost predicate ChainOk(es: seq<Entry>, i: nat)
    requires i < |es|
  {
    Live(es[i]) ==> PathOk(es, Home(es[i].hash, |es|), i)
  }

  ghost predicate Separated(es: seq<Entry>) {
    forall i, j {:trigger LiveAt(es, i), LiveAt(es, j)} :: i != j && LiveAt(es, i) && LiveAt(es, j) ==>
      Disjoint(BlockOf(es[i]), BlockOf(es[j]))
  }

  ghost predicate KeyOk(es: seq<Entry>, mem: Bytes, slot: Slots, k: Bytes)
    requires k in slot
  {
    && slot[k] < |es|
    && Live(es[slot[k]])
    && Fits(BlockOf(es[slot[k]]), mem)
    && KeyOf(es[slot[k]], mem) == k
  }

  /** The entries and arena bytes represent a map whose keys sit at `slot`. */
  ghost predicate Rep(raw: RawHash, es: seq<Entry>, mem: Bytes, slot: Slots) {
    && |es| > 0
    && (forall i :: 0 <= i < |es| ==> SlotOk(raw, es, mem, slot, i))
    && (forall i :: 0 <= i < |es| ==> ChainOk(es, i))
    && Separated(es)
    && (forall k :: k in slot ==> KeyOk(es, mem, slot, k))
  }

  function RecordAt(e: Entry, mem: Bytes): Versioned
    requires Fits(BlockOf(e), mem)
  {
    Versioned(ValueOf(e, mem), e.version)
  }

  /** The represented map. */
  ghost function Contents(raw: RawHash, es: seq<Entry>, mem: Bytes, slot: Slots): (m: Store)
    requires Rep(raw, es, mem, slot)
    ensures forall k :: k in m <==> k in slot
  {
    map k | k in slot :: assert KeyOk(es, mem, slot, k); RecordAt(es[slot[k]], mem)
  }

  lemma ContentsAt(raw: RawHash, es: seq<Entry>, mem: Bytes, slot: Slots, k: Bytes)
    requires Rep(raw, es, mem, slot)
    requires k in slot
    ensures KeyOk(es, mem, slot, k)
    ensures Contents(raw, es, mem, slot)[k] == RecordAt(es[slot[k]], mem)
    ensures |k| == es[slot[k]].keyLen
    ensures |Contents(raw, es, mem, slot)[k].value| == es[slot[k]].valLen
  {
  }

  /** Every live block but that of slot `except` reads the same in `mem'`. */
  ghost predicate SameElsewhere(es: seq<Entry>, except: int, mem: Bytes, mem': Bytes) {
    && |mem'| == |mem|
    && forall i {:trigger LiveAt(es, i)} :: LiveAt(es, i) && i != except && Fits(BlockOf(es[i]), mem) ==>
         Read(mem', BlockOf(es[i])) == Read(mem, BlockOf(es[i]))
  }

  /** `b` touches no live block but that of slot `except`. */
  ghost predicate Clear(es: seq<Entry>, except: int, b: Block) {
    forall i {:trigger LiveAt(es, i)} :: LiveAt(es, i) && i != except ==> Disjoint(b, BlockOf(es[i]))
  }

  /** The allocator contract as these entries see it, the block of slot
      `except` having been given back. */
  ghost predicate Granted(es: seq<Entry>, except: int, mem: Bytes, size: nat, g: Grant) {
    && SameElsewhere(es, except, mem, g.bytes)
    && (size == 0 ==> g.offset == 0)
    && (g.offset != 0 ==> Fits(Block(g.offset, size), mem) && Clear(es, except, Block(g.offset, size)))
  }

  lemma SameBlock(e: Entry, mem: Bytes, mem': Bytes)
    requires |mem'| == |mem| && Fits(BlockOf(e), mem)
    requires Read(mem', BlockOf(e)) == Read(mem, BlockOf(e))
    ensures KeyOf(e, mem') == KeyOf(e, mem)
    ensures ValueOf(e, mem') == ValueOf(e, mem)
  {
    var b := BlockOf(e);
    assert KeyOf(e, mem) == Read(mem, b)[..e.keyLen];
    assert KeyOf(e, mem') == Read(mem', b)[..e.keyLen];
    assert ValueOf(e, mem) == Read(mem, b)[e.keyLen..];
    assert ValueOf(e, mem') == Read(mem', b)[e.keyLen..];
  }

  /** The representation depends on the arena only through its live blocks. */
  lemma RepFrame(raw: RawHash, es: seq<Entry>, mem: Bytes, mem': Bytes, slot: Slots)
    requires Rep(raw, es, mem, slot)
    requires SameElsewhere(es, -1, mem, mem')
    ensures Rep(raw, es, mem', slot)
    ensures Contents(raw, es, mem', slot) == Contents(raw, es, mem, slot)
  {
    forall i | 0 <= i < |es|
      ensures SlotOk(raw, es, mem', slot, i)
    {
      assert SlotOk(raw, es, mem, slot, i);
      if LiveAt(es, i) { SameBlock(es[i], mem, mem'); }
    }
    forall k | k in slot
      ensures KeyOk(es, mem', slot, k) && RecordAt(es[slot[k]], mem') == RecordAt(es[slot[k]], mem)
    {
      assert KeyOk(es, mem, slot, k) && LiveAt(es, slot[k]);
      SameBlock(es[slot[k]], mem, mem');
    }
  }

  // ------------------------------------------------------------ state changes

  /** Slot `s` is the only one whose entry changes. */
  ghost predicate Changes(es: seq<Entry>, s: nat, es': seq<Entry>) {
    s < |es| == |es'| && es' == es[s := es'[s]]
  }

  lemma SeparatedUpdate(es: seq<Entry>, s: nat, es': seq<Entry>)
    requires Changes(es, s, es') && Separated(es)
    requires Live(es'[s]) ==> Clear(es, s, BlockOf(es'[s]))
    ensures Separated(es')
  {
    forall i, j | i != j && LiveAt(es', i) && LiveAt(es', j)
      ensures Disjoint(BlockOf(es'[i]), BlockOf(es'[j]))
    {
      assert i != s ==> LiveAt(es, i);
      assert j != s ==> LiveAt(es, j);
    }
  }

  lemma ChainsUpdate(es: seq<Entry>, s: nat, es': seq<Entry>)
    requires Changes(es, s, es')
    requires es'[s].hash != EMPTY
    requires Live(es'[s]) ==> PathOk(es, Home(es'[s].hash, |es|), s)
    requires forall i :: 0 <= i < |es| ==> ChainOk(es, i)
    ensures forall i :: 0 <= i < |es'| ==> ChainOk(es', i)
  {
    forall i | 0 <= i < |es'|
      ensures ChainOk(es', i)
    {
      assert ChainOk(es, i);
      assert forall j :: EmptyAt(es', j) ==> EmptyAt(es, j);
    }
  }

  /** Slots other than `s` keep their keys and blocks when `slot'` agrees with
      `slot` away from `key`, and `s` belonged to nobody but `key`. */
  lemma SlotsUpdate(raw: RawHash, es: seq<Entry>, mem: Bytes, slot: Slots, key: Bytes, s: nat,
                    es': seq<Entry>, mem': Bytes, slot': Slots)
    requires Rep(raw, es, mem, slot) && Changes(es, s, es')
    requires SameElsewhere(es, s, mem, mem')
    requires slot' - {key} == slot - {key}
    requires key in slot ==> slot[key] == s
    requires SlotOk(raw, es', mem', slot', s)
    ensures forall i :: 0 <= i < |es'| ==> SlotOk(raw, es', mem', slot', i)
  {
    forall i | 0 <= i < |es'|
      ensures SlotOk(raw, es', mem', slot', i)
    {
      assert SlotOk(raw, es, mem, slot, i);
      if i != s && LiveAt(es, i) {
        SameBlock(es[i], mem, mem');
        var k := KeyOf(es[i], mem);
        assert k in slot - {key};
        assert slot[k] == (slot - {key})[k];
      }
    }
  }

  /** `k` is held in both states, with the same value and version. */
  ghost predicate SameRecord(es: seq<Entry>, mem: Bytes, slot: Slots,
                             es': seq<Entry>, mem': Bytes, slot': Slots, k: Bytes)
  {
    && k in slot && KeyOk(es, mem, slot, k)
    && k in slot' && KeyOk(es', mem', slot', k)
    && RecordAt(es'[slot'[k]], mem') == RecordAt(es[slot[k]], mem)
  }

  lemma KeysUpdate(raw: RawHash, es: seq<Entry>, mem: Bytes, slot: Slots, key: Bytes, s: nat,
                   es': seq<Entry>, mem': Bytes, slot': Slots)
    requires Rep(raw, es, mem, slot) && Changes(es, s, es')
    requires SameElsewhere(es, s, mem, mem')
    requires slot' - {key} == slot - {key}
    requires !Live(es[s]) || (key in slot && slot[key] == s)
    ensures forall k :: k in slot && k != key ==> SameRecord(es, mem, slot, es', mem', slot', k)
  {
    forall k | k in slot && k != key
      ensures SameRecord(es, mem, slot, es', mem', slot', k)
    {
      assert KeyOk(es, mem, slot, k);
      if Live(es[s]) { assert KeyOk(es, mem, slot, key); }
      assert LiveAt(es, slot[k]);
      SameBlock(es[slot[k]], mem, mem');
      assert k in slot' - {key};
      assert slot[k] == (slot - {key})[k];
    }
  }

  /** The one step behind every write: slot `s` becomes a live record of `key`
      or a tombstone. */
  ghost predicate StepOk(raw: RawHash, es: seq<Entry>, mem: Bytes, slot: Slots, key: Bytes, s: nat,
                         es': seq<Entry>, mem': Bytes, slot': Slots)
  {
    && Changes(es, s, es')
    && SameElsewhere(es, s, mem, mem')
    && (if key in slot then slot[key] == s else !Live(es[s]))
    && slot' == (if Live(es'[s]) then slot[key := s] else slot - {key})
    && es'[s].hash != EMPTY
    && (Live(es'[s]) ==>
          && EntryOk(raw, es'[s], mem') && KeyOf(es'[s], mem') == key
          && PathOk(es, Home(es'[s].hash, |es|), s)
          && Clear(es, s, BlockOf(es'[s])))
  }

  lemma StepRep(raw: RawHash, es: seq<Entry>, mem: Bytes, slot: Slots, key: Bytes, s: nat,
                es': seq<Entry>, mem': Bytes, slot': Slots)
    requires Rep(raw, es, mem, slot)
    requires StepOk(raw, es, mem, slot, key, s, es', mem', slot')
    ensures Rep(raw, es', mem', slot')
    ensures forall k :: k in slot && k != key ==> SameRecord(es, mem, slot, es', mem', slot', k)
  {
    assert slot' - {key} == slot - {key};
    SlotsUpdate(raw, es, mem, slot, key, s, es', mem', slot');
    KeysUpdate(raw, es, mem, slot, key, s, es', mem', slot');
    ChainsUpdate(es, s, es');
    SeparatedUpdate(es, s, es');
    forall k | k in slot'
      ensures KeyOk(es', mem', slot', k)
    {
      if k != key { assert SameRecord(es, mem, slot, es', mem', slot', k); }
    }
  }

  lemma RemoveAbsent(m: Store, key: Bytes)
    requires key !in m
    ensures m - {key} == m
  {
  }

  lemma PutOnly(m: Store, m': Store, key: Bytes)
    requires forall k :: k in m' <==> k in m || k == key
    requires forall k :: k in m && k != key ==> m'[k] == m[k]
    ensures m' == m[key := m'[key]]
  {
  }

  lemma RemoveOnly(m: Store, m': Store, key: Bytes)
    requires forall k :: k in m' <==> k in m && k != key
    requires forall k :: k in m && k != key ==> m'[k] == m[k]
    ensures m' == m - {key}
  {
  }

  lemma SameRecordsSameMap(raw: RawHash, es: seq<Entry>, mem: Bytes, slot: Slots, key: Bytes,
                           es': seq<Entry>, mem': Bytes, slot': Slots)
    requires Rep(raw, es, mem, slot) && Rep(raw, es', mem', slot')
    requires forall k :: k in slot && k != key ==> SameRecord(es, mem, slot, es', mem', slot', k)
    ensures forall k :: k in slot && k != key ==>
              k in slot' && Contents(raw, es', mem', slot')[k] == Contents(raw, es, mem, slot)[k]
  {
  }

  /** A step preserves the representation and changes the map at `key` only. */
  lemma Step(raw: RawHash, es: seq<Entry>, mem: Bytes, slot: Slots, key: Bytes, s: nat,
             es': seq<Entry>, mem': Bytes, slot': Slots)
    requires Rep(raw, es, mem, slot)
    requires StepOk(raw, es, mem, slot, key, s, es', mem', slot')
    ensures Rep(raw, es', mem', slot')
    ensures if Live(es'[s]) then
              Contents(raw, es', mem', slot') == Contents(raw, es, mem, slot)[key := RecordAt(es'[s], mem')]
            else
              Contents(raw, es', mem', slot') == Contents(raw, es, mem, slot) - {key}
  {
    StepRep(raw, es, mem, slot, key, s, es', mem', slot');
    SameRecordsSameMap(raw, es, mem, slot, key, es', mem', slot');
    if Live(es'[s]) {
      ContentsAt(raw, es', mem', slot', key);
      PutOnly(Contents(raw, es, mem, slot), Contents(raw, es', mem', slot'), key);
    } else {
      RemoveOnly(Contents(raw, es, mem, slot), Contents(raw, es', mem', slot'), key);
    }
  }

  // -------------------------------------------------------------- EMPTY slots

  function EmptyCount(es: seq<Entry>): (n: nat)
    ensures n <= |es|
  {
    if es == [] then 0
    else EmptyCount(es[..|es| - 1]) + if es[|es| - 1].hash == EMPTY then 1 else 0
  }

  lemma {:induction false} EmptyCountUpdate(es: seq<Entry>, i: nat, e: Entry)
    requires i < |es|
    ensures EmptyCount(es[i := e])
         == EmptyCount(es) - (if es[i].hash == EMPTY then 1 else 0) + (if e.hash == EMPTY then 1 else 0)
  {
    var n := |es| - 1;
    if i < n {
      EmptyCountUpdate(es[..n], i, e);
      assert es[i := e][..n] == es[..n][i := e];
    } else {
      assert es[i := e][..n] == es[..n];
    }
  }

  lemma {:induction false} EmptyCountPositive(es: seq<Entry>)
    ensures EmptyCount(es) > 0 <==> exists i :: 0 <= i < |es| && es[i].hash == EMPTY
  {
    if es != [] {
      var n := |es| - 1;
      EmptyCountPositive(es[..n]);
      if EmptyCount(es[..n]) > 0 {
        var i :| 0 <= i < n && es[..n][i].hash == EMPTY;
        assert es[i].hash == EMPTY;
      }
      if i :| 0 <= i < |es| && es[i].hash == EMPTY {
        if i < n { assert es[..n][i].hash == EMPTY; }
      }
    }
  }

  // --------------------------------------------------------------- live slots

  function LiveCount(es: seq<Entry>): (n: nat)
    ensures n <= |es|
  {
    if es == [] then 0
    else LiveCount(es[..|es| - 1]) + if Live(es[|es| - 1]) then 1 else 0
  }

  lemma {:induction false} BlankCounts(es: seq<Entry>)
    requires forall i :: 0 <= i < |es| ==> es[i].hash == EMPTY
    ensures EmptyCount(es) == |es| && LiveCount(es) == 0
  {
    if es != [] { BlankCounts(es[..|es| - 1]); }
  }

  lemma {:induction false} LiveCountUpdate(es: seq<Entry>, i: nat, e: Entry)
    requires i < |es|
    ensures LiveCount(es[i := e]) == LiveCount(es) - (if Live(es[i]) then 1 else 0) + (if Live(e) then 1 else 0)
  {
    var n := |es| - 1;
    if i < n {
      LiveCountUpdate(es[..n], i, e);
      assert es[i := e][..n] == es[..n][i := e];
    } else {
      assert es[i := e][..n] == es[..n];
    }
  }

  lemma {:induction false} LiveCountIs(es: seq<Entry>, live: set<nat>)
    requires forall i :: i in live <==> LiveAt(es, i)
    ensures LiveCount(es) == |live|
  {
    if es == [] {
      assert live == {};
    } else {
      var n: nat := |es| - 1;
      LiveCountIs(es[..n], live - {n});
    }
  }

  lemma ValuesWithout(m: Slots, k: Bytes)
    requires k in m && forall l :: l in m && m[l] == m[k] ==> l == k
    ensures m.Values == (m - {k}).Values + {m[k]} && m[k] !in (m - {k}).Values
  {
    var m' := m - {k};
    forall v ensures v in m.Values <==> v in m'.Values || v == m[k] {
      if v in m.Values && v != m[k] {
        var l :| l in m && m[l] == v;
        assert l in m' && m'[l] == v;
      }
    }
  }

  lemma KeysWithout(m: Slots, k: Bytes)
    requires k in m
    ensures |m| == |m - {k}| + 1
  {
  }

  lemma {:induction false} InjectiveCount(m: Slots)
    requires forall k, l :: k in m && l in m && m[k] == m[l] ==> k == l
    ensures |m.Values| == |m|
  {
    if k :| k in m {
      InjectiveCount(m - {k});
      ValuesWithout(m, k);
      KeysWithout(m, k);
    } else {
      assert m.Values == {};
    }
  }

  /** The number of live slots is the number of keys of the map. */
  lemma LiveCountIsCardinality(raw: RawHash, es: seq<Entry>, mem: Bytes, slot: Slots)
    requires Rep(raw, es, mem, slot)
    ensures LiveCount(es) == |Contents(raw, es, mem, slot)|
  {
    forall i
      ensures i in slot.Values <==> LiveAt(es, i)
    {
      if LiveAt(es, i) {
        assert SlotOk(raw, es, mem, slot, i);
        assert slot[KeyOf(es[i], mem)] == i;
      }
      if i in slot.Values {
        var k :| k in slot && slot[k] == i;
        assert KeyOk(es, mem, slot, k);
      }
    }
    LiveCountIs(es, slot.Values);
    forall k, l | k in slot && l in slot && slot[k] == slot[l]
      ensures k == l
    {
      assert KeyOk(es, mem, slot, k) && KeyOk(es, mem, slot, l);
    }
    InjectiveCount(slot);
    assert Contents(raw, es, mem, slot).Keys == slot.Keys;
  }

  // -------------------------------------------------------------- termination

  /** Slot `i` ends a probe for `key`: it is EMPTY or holds the key. */
  ghost predicate Stops(raw: RawHash, es: seq<Entry>, mem: Bytes, key: Bytes, i: nat)
    requires i < |es|
  {
    || es[i].hash == EMPTY
    || (es[i].hash == HashKey(raw, key) && Fits(BlockOf(es[i]), mem) && KeyOf(es[i], mem) == key)
  }

  /** The slot visited after `n` probe steps. */
  function Probe(home: nat, n: nat, cap: nat): (i: nat)
    requires cap > 0
    ensures i < cap
  {
    (home + n) % cap
  }

  lemma AroundOnce(i: nat, cap: nat)
    requires i < cap
    ensures (i + cap) % cap == i
  {
    var n := i + cap;
    var q := n / cap;
    assert q * cap + n % cap == n;
    assert q >= 2 ==> q * cap >= 2 * cap;
    assert q <= 0 ==> q * cap <= 0;
  }

  lemma ProbeReaches(home: nat, i: nat, cap: nat)
    requires home < cap && i < cap
    ensures Probe(home, Dist(home, i, cap), cap) == i
  {
    if home > i { AroundOnce(i, cap); }
  }

  /** A slot that stops a probe is EMPTY or the key's own slot. */
  lemma StopsIff(raw: RawHash, es: seq<Entry>, mem: Bytes, slot: Slots, key: Bytes, i: nat)
    requires Rep(raw, es, mem, slot)
    requires i < |es|
    ensures Stops(raw, es, mem, key, i) <==> es[i].hash == EMPTY || (key in slot && slot[key] == i)
  {
    assert SlotOk(raw, es, mem, slot, i);
    if key in slot { assert KeyOk(es, mem, slot, key); }
  }

  /** `find_entry` would go around the table for ever. */
  ghost predicate NeverStops(raw: RawHash, es: seq<Entry>, mem: Bytes, key: Bytes)
    requires |es| > 0
  {
    forall n: nat :: !Stops(raw, es, mem, key, Probe(Home(HashKey(raw, key), |es|), n, |es|))
  }

  /** A probe for `key` stops exactly when the key is present or some slot is
      EMPTY. */
  lemma ProbeStopsIff(raw: RawHash, es: seq<Entry>, mem: Bytes, slot: Slots, key: Bytes)
    requires Rep(raw, es, mem, slot)
    ensures NeverStops(raw, es, mem, key) <==> key !in slot && EmptyCount(es) == 0
  {
    var home := Home(HashKey(raw, key), |es|);
    EmptyCountPositive(es);
    if key in slot || EmptyCount(es) > 0 {
      if key in slot { assert KeyOk(es, mem, slot, key); }
      var i: nat :| i < |es| && (es[i].hash == EMPTY || (key in slot && slot[key] == i));
      StopsIff(raw, es, mem, slot, key, i);
      ProbeReaches(home, i, |es|);
      assert Stops(raw, es, mem, key, Probe(home, Dist(home, i, |es|), |es|));
    } else {
      forall n: nat
        ensures !Stops(raw, es, mem, key, Probe(home, n, |es|))
      {
        StopsIff(raw, es, mem, slot, key, Probe(home, n, |es|));
      }
    }
  }

  // ------------------------------------------------------- growth that fails

  /** Changing the first byte of a block changes its key or its value. */
  lemma ScribbleShows(e: Entry, mem: Bytes, mem': Bytes)
    requires |mem'| == |mem| && Fits(BlockOf(e), mem) && BlockOf(e).len > 0
    requires mem'[e.offset] != mem[e.offset]
    ensures KeyOf(e, mem') != KeyOf(e, mem) || ValueOf(e, mem') != ValueOf(e, mem)
  {
  }

  /** There is an allocator behaviour within the contract that scribbles on
      the first byte of a freed block. */
  lemma ScribblingGrant(es: seq<Entry>, mem: Bytes, s: nat, size: nat) returns (g: Grant)
    requires s < |es| && Live(es[s]) && Separated(es)
    requires Fits(BlockOf(es[s]), mem) && BlockOf(es[s]).len > 0
    ensures g.offset == 0 && Granted(es, s, mem, size, g)
    ensures g.bytes[es[s].offset] != mem[es[s].offset]
  {
    var at := es[s].offset;
    var flipped: Byte := if mem[at] == 0 then 1 else 0;
    g := Grant(0, Write(mem, at, [flipped]));
    forall i | LiveAt(es, i) && i != s && Fits(BlockOf(es[i]), mem)
      ensures Read(g.bytes, BlockOf(es[i])) == Read(mem, BlockOf(es[i]))
    {
      assert LiveAt(es, s);
      ReadElsewhere(mem, at, [flipped], BlockOf(es[i]));
    }
  }

  ghost predicate Survives(raw: RawHash, es: seq<Entry>, mem: Bytes, slot: Slots, mem': Bytes)
    requires Rep(raw, es, mem, slot)
  {
    && Rep(raw, es, mem', slot)
    && Contents(raw, es, mem', slot) == Contents(raw, es, mem, slot)
  }

  lemma RecordIsBlock(e: Entry, mem: Bytes)
    requires Fits(BlockOf(e), mem)
    ensures Read(mem, BlockOf(e)) == KeyOf(e, mem) + ValueOf(e, mem)
  {
  }

  /** If only the block of one record may have changed, the table survives
      exactly if that block reads the same. */
  lemma SurvivesIffSame(raw: RawHash, es: seq<Entry>, mem: Bytes, slot: Slots, key: Bytes, mem': Bytes)
    requires Rep(raw, es, mem, slot) && key in slot && KeyOk(es, mem, slot, key)
    requires SameElsewhere(es, slot[key], mem, mem')
    ensures Survives(raw, es, mem, slot, mem') <==> Read(mem', BlockOf(es[slot[key]])) == Read(mem, BlockOf(es[slot[key]]))
  {
    var e := es[slot[key]];
    if Read(mem', BlockOf(e)) == Read(mem, BlockOf(e)) {
      RepFrame(raw, es, mem, mem', slot);
    }
    if Survives(raw, es, mem, slot, mem') {
      ContentsAt(raw, es, mem, slot, key);
      ContentsAt(raw, es, mem', slot, key);
      RecordIsBlock(e, mem);
      RecordIsBlock(e, mem');
    }
  }

  /** A growing write frees the old block before it allocates. When the
      allocation then fails, the table survives every allocator that meets
      the contract if and only if the freed block was empty. */
  lemma FailedGrowthIff(raw: RawHash, es: seq<Entry>, mem: Bytes, slot: Slots, key: Bytes, size: nat)
    requires Rep(raw, es, mem, slot)
    requires key in slot && KeyOk(es, mem, slot, key)
    ensures (forall g: Grant :: Granted(es, slot[key], mem, size, g) && g.offset == 0 ==>
               Survives(raw, es, mem, slot, g.bytes))
       <==> BlockOf(es[slot[key]]).len == 0
  {
    var s := slot[key];
    if BlockOf(es[s]).len == 0 {
      forall g: Grant | Granted(es, s, mem, size, g) && g.offset == 0
        ensures Survives(raw, es, mem, slot, g.bytes)
      {
        RepFrame(raw, es, mem, g.bytes, slot);
      }
    } else {
      var g := ScribblingGrant(es, mem, s, size);
      ScribbleShows(es[s], mem, g.bytes);
      assert !Survives(raw, es, mem, slot, g.bytes);
    }
  }
}
