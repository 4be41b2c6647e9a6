/**
 The hash table as it runs: entries changed in place, key and value bytes kept
 in memory shared with the arena and with other tables.
 */
module HashTable {
  import opened Wrappers
  import opened Memory
  import opened KvSpec
  import opened Probing

  /** The arena's bytes. Several tables may hold blocks in the same memory. */
  class SharedMemory {
    var bytes: Bytes

    constructor (bytes: Bytes)
      ensures this.bytes == bytes
    {
      this.bytes := bytes;
    }
  }

  /** The tables holding `es` and `foreign` share memory without overlap. */
  ghost predicate Apart(es: seq<Entry>, foreign: seq<Entry>) {
    forall i, j {:trigger LiveAt(es, i), LiveAt(foreign, j)} :: LiveAt(es, i) && LiveAt(foreign, j) ==>
      Disjoint(BlockOf(es[i]), BlockOf(foreign[j]))
  }

  /** Copying key and value into a block. */
  function WriteRecord(mem: Bytes, at: nat, key: Bytes, value: Bytes): (r: Bytes)
    requires at + |key| + |value| <= |mem|
    ensures |r| == |mem|
  {
    Write(Write(mem, at, key), at + |key|, value)
  }

  lemma WriteRecordShows(mem: Bytes, at: nat, key: Bytes, value: Bytes)
    requires at + |key| + |value| <= |mem|
    ensures WriteRecord(mem, at, key, value)[at..at + |key|] == key
    ensures WriteRecord(mem, at, key, value)[at + |key|..at + |key| + |value|] == value
  {
  }

  /** Writing a record into a block clear of all others leaves them alone. */
  lemma WriteRecordFrame(es: seq<Entry>, s: int, mem: Bytes, mem': Bytes, at: nat, key: Bytes, value: Bytes)
    requires SameElsewhere(es, s, mem, mem')
    requires at + |key| + |value| <= |mem|
    requires Clear(es, s, Block(at, |key| + |value|))
    ensures SameElsewhere(es, s, mem, WriteRecord(mem', at, key, value))
  {
    forall i | LiveAt(es, i) && i != s && Fits(BlockOf(es[i]), mem)
      ensures Read(WriteRecord(mem', at, key, value), BlockOf(es[i])) == Read(mem, BlockOf(es[i]))
    {
      ReadElsewhere(mem', at, key, BlockOf(es[i]));
      ReadElsewhere(Write(mem', at, key), at + |key|, value, BlockOf(es[i]));
    }
  }

  /** One slot changed, and its record was copied to `offset`. */
  ghost predicate Placed(es: seq<Entry>, s: nat, es': seq<Entry>, offset: nat, key: Bytes, value: Bytes, mem: Bytes, mem': Bytes) {
    && Changes(es, s, es')
    && es'[s].offset == offset && BlockOf(es'[s]).len <= |key| + |value|
    && offset + |key| + |value| <= |mem| && mem' == WriteRecord(mem, offset, key, value)
  }

  /** One slot became a tombstone. */
  ghost predicate Buried(es: seq<Entry>, s: nat, es': seq<Entry>) {
    Changes(es, s, es') && es'[s].hash == TOMBSTONE
  }

  /** Where a write puts its record: in the block it was granted if it asked
      for one, else in the old block. */
  ghost predicate Recorded(es: seq<Entry>, mem: Bytes, m: Store, slot: Slots, key: Bytes, value: Bytes, g: Grant,
                           slot': Slots, es': seq<Entry>, mem': Bytes)
  {
    && key in slot' && slot'[key] < |es| && (key in slot ==> slot'[key] == slot[key])
    && if Asks(m, key, value)
       then Placed(es, slot'[key], es', g.offset, key, value, g.bytes, mem')
       else Placed(es, slot'[key], es', es[slot'[key]].offset, key, value, mem, mem')
  }

  /** The invariant of the table: it represents a map, `size` counts its keys,
      and each fresh insertion ever made has used up one EMPTY slot. */
  ghost predicate TableOk(raw: RawHash, es: seq<Entry>, mem: Bytes, slot: Slots, m: Store, size: nat, inserted: nat) {
    && Rep(raw, es, mem, slot)
    && m == Contents(raw, es, mem, slot)
    && size == LiveCount(es)
    && EmptyCount(es) + inserted == |es|
  }

  class Table {
    const raw: RawHash
    const arena: SharedMemory
    const entries: array<Entry>
    var size: nat
    /** The map the table holds. */
    ghost var contents: Store
    /** Where each stored key sits. */
    ghost var slot: Slots
    /** How many fresh insertions were ever made. */
    ghost var inserted: nat

    ghost predicate Valid()
      reads this, arena, entries
    {
      TableOk(raw, entries[..], arena.bytes, slot, contents, size, inserted)
    }

    constructor (capacity: nat, arena: SharedMemory, raw: RawHash)
      requires capacity > 0
      ensures Valid() && contents == map[]
      ensures this.arena == arena && this.raw == raw && entries.Length == capacity
      ensures inserted == 0 && size == 0 && fresh(entries)
      ensures forall i :: 0 <= i < entries.Length ==> !Live(entries[i])
    {
      var blank := Entry(EMPTY, 0, 0, 0, 0);
      this.raw := raw;
      this.arena := arena;
      entries := new Entry[capacity](_ => blank);
      size := 0;
      slot := map[];
      contents := map[];
      inserted := 0;
      new;
      BlankCounts(entries[..]);
    }

    /** A probe for `key` comes to an end (see `ProbeStopsIff`). */
    ghost predicate Probes(key: Bytes)
      reads this, entries
    {
      key in contents || inserted < entries.Length
    }

    method FindEntry(key: Bytes, hash: nat) returns (index: nat, isMatch: bool)
      requires Valid() && Probes(key) && hash == HashKey(raw, key)
      ensures index < entries.Length
      ensures isMatch <==> key in slot
      ensures isMatch ==> index == slot[key]
      ensures !isMatch ==> entries[index].hash == EMPTY
      ensures PathOk(entries[..], Home(hash, entries.Length), index)
    {
      ghost var es := entries[..];
      var cap := entries.Length;
      var home := Home(hash, cap);
      ghost var goal := FindGoal(raw, es, arena.bytes, slot, key);
      index := home;
      while true
        invariant index < cap
        invariant Dist(home, index, cap) <= Dist(home, goal, cap)
        invariant PathOk(es, home, index)
        decreases Dist(home, goal, cap) - Dist(home, index, cap)
      {
        ProbeStep(raw, es, arena.bytes, slot, key, goal, index);
        var e := entries[index];
        if e.hash == EMPTY {
          return index, false;
        } else if e.hash == hash {
          if e.keyLen == |key| && KeyOf(e, arena.bytes) == key {
            return index, true;
          }
        }
        var next := (index + 1) % cap;
        ExtendPath(es, home, index, next);
        index := next;
      }
    }

    method Get(key: Bytes) returns (r: Option<Bytes>)
      requires Valid() && Probes(key)
      ensures r == if key in contents then Some(contents[key].value) else None
    {
      var index, isMatch := FindEntry(key, HashKey(raw, key));
      if isMatch {
        ContentsAt(raw, entries[..], arena.bytes, slot, key);
        r := Some(ValueOf(entries[index], arena.bytes));
      } else {
        r := None;
      }
    }

    /** The slot whose block is given back before `key` gets a larger one. */
    ghost function Freed(key: Bytes): int
      reads this
    {
      if key in slot then slot[key] else -1
    }

    /** What the arena may do when asked for a block for `key`. */
    ghost predicate GrantedFor(key: Bytes, value: Bytes, foreign: seq<Entry>, g: Grant)
      reads this, arena, entries
    {
      && Granted(entries[..], Freed(key), arena.bytes, |key| + |value|, g)
      && Granted(foreign, -1, arena.bytes, |key| + |value|, g)
    }

    /** An allocation is made, and fails after the old block was given back. */
    ghost predicate LosesBlock(key: Bytes, value: Bytes, g: Grant)
      reads this
    {
      Grows(contents, key, value) && g.offset == 0
    }

    /** The rest of a write once the block is chosen: copy the bytes, then
        point slot `s` at them. */
    method Store(key: Bytes, value: Bytes, s: nat, e: Entry, mem: Bytes, ghost foreign: seq<Entry>)
      requires Valid() && Apart(entries[..], foreign)
      requires Writable(raw, entries[..], arena.bytes, slot, key, value, s, e, mem, foreign)
      modifies this, arena, entries
      ensures Valid() && Apart(entries[..], foreign)
      ensures SameElsewhere(foreign, -1, old(arena.bytes), arena.bytes)
      ensures contents == old(contents)[key := Versioned(value[..e.valLen], e.version)]
      ensures inserted == old(inserted) + if key in old(slot) then 0 else 1
      ensures size == old(size) + if key in old(slot) then 0 else 1
      ensures key in slot && slot[key] == s
      ensures Placed(old(entries[..]), s, entries[..], e.offset, key, value, mem, arena.bytes)
    {
      ghost var es := entries[..];
      StoreOk(raw, es, arena.bytes, slot, contents, size, inserted, key, value, s, e, mem, foreign);
      if entries[s].hash == EMPTY {
        size := size + 1;
        inserted := inserted + 1;
      }
      arena.bytes := WriteRecord(mem, e.offset, key, value);
      entries[s] := e;
      slot := slot[key := s];
      contents := contents[key := Versioned(value[..e.valLen], e.version)];
      assert entries[..] == es[s := e];
    }

    method InsertNew(key: Bytes, value: Bytes, s: nat, g: Grant, ghost foreign: seq<Entry>) returns (r: KvResult<bool>)
      requires Valid() && Apart(entries[..], foreign)
      requires key !in slot && s < entries.Length && entries[s].hash == EMPTY
      requires PathOk(entries[..], Home(HashKey(raw, key), entries.Length), s)
      requires GrantedFor(key, value, foreign, g)
      modifies this, arena, entries
      ensures Valid() && Apart(entries[..], foreign)
      ensures SameElsewhere(foreign, -1, old(arena.bytes), arena.bytes)
      ensures if g.offset == 0 then
                && r == Err(OutOfMemory) && contents == old(contents) && inserted == old(inserted) && size == old(size)
                && entries[..] == old(entries[..]) && arena.bytes == g.bytes
              else
                && Recorded(old(entries[..]), old(arena.bytes), old(contents), old(slot), key, value, g,
                            slot, entries[..], arena.bytes)
                && r == Ok(true) && contents == old(contents)[key := Versioned(value, 1)]
                && inserted == old(inserted) + 1 && size == old(size) + 1
    {
      if g.offset == 0 {
        RepFrame(raw, entries[..], arena.bytes, g.bytes, slot);
        arena.bytes := g.bytes;
        return Err(OutOfMemory);
      }
      assert value[..|value|] == value;
      Store(key, value, s, Entry(HashKey(raw, key), 1, |key|, |value|, g.offset), g.bytes, foreign);
      r := Ok(true);
    }

    /** Give a stored key another value, in its old block if that is large
        enough, else in a new one; the old block is freed first. */
    method Rewrite(key: Bytes, value: Bytes, s: nat, valLen: nat, version: nat, g: Grant, ghost foreign: seq<Entry>)
      returns (ok: bool)
      requires Valid() && Apart(entries[..], foreign)
      requires key in slot && slot[key] == s && s < entries.Length && valLen <= |value|
      requires GrantedFor(key, value, foreign, g)
      modifies this, arena, entries
      ensures ok <==> !old(LosesBlock(key, value, g))
      ensures ok ==>
                && Valid() && Apart(entries[..], foreign) && inserted == old(inserted) && size == old(size)
                && contents == old(contents)[key := Versioned(value[..valLen], version)]
                && Recorded(old(entries[..]), old(arena.bytes), old(contents), old(slot), key, value, g,
                            slot, entries[..], arena.bytes)
      ensures !ok ==> OnlyBytesChanged(old(entries[..]), old(slot), old(contents), old(size), old(inserted), g.bytes)
      ensures SameElsewhere(foreign, -1, old(arena.bytes), arena.bytes)
    {
      ContentsAt(raw, entries[..], arena.bytes, slot, key);
      StoredAt(raw, entries[..], arena.bytes, slot, key);
      var e := entries[s];
      var offset, mem := e.offset, arena.bytes;
      if |key| + |value| > e.keyLen + e.valLen {
        if g.offset == 0 {
          arena.bytes := g.bytes;
          return false;
        }
        offset, mem := g.offset, g.bytes;
      } else {
        SubBlockClear(entries[..], foreign, s, |key| + |value|);
      }
      Store(key, value, s, Entry(e.hash, version, |key|, valLen, offset), mem, foreign);
      ok := true;
    }

    /** The table is as it was except for what the arena did to the bytes. */
    ghost predicate OnlyBytesChanged(es: seq<Entry>, slot: Slots, m: Store, size: nat, inserted: nat, bytes: Bytes)
      reads this, arena, entries
    {
      && entries[..] == es && this.slot == slot && contents == m
      && this.size == size && this.inserted == inserted && arena.bytes == bytes
    }

    /** An insertion that finds its key: the value changes, the version does not. */
    method Update(key: Bytes, value: Bytes, s: nat, g: Grant, ghost foreign: seq<Entry>) returns (r: KvResult<bool>)
      requires Valid() && Apart(entries[..], foreign)
      requires key in slot && slot[key] == s && s < entries.Length && |key| <= U32_MAX && |value| <= U32_MAX
      requires GrantedFor(key, value, foreign, g)
      modifies this, arena, entries
      ensures r == InsertResult(old(contents), key, value, g.offset != 0)
      ensures SameElsewhere(foreign, -1, old(arena.bytes), arena.bytes)
      ensures if old(LosesBlock(key, value, g))
              then OnlyBytesChanged(old(entries[..]), old(slot), old(contents), old(size), old(inserted), g.bytes)
              else
                && Valid() && Apart(entries[..], foreign) && inserted == old(inserted) && size == old(size)
                && contents == InsertMap(old(contents), key, value, g.offset != 0)
                && Recorded(old(entries[..]), old(arena.bytes), old(contents), old(slot), key, value, g,
                            slot, entries[..], arena.bytes)
    {
      ContentsAt(raw, entries[..], arena.bytes, slot, key);
      assert value[..|value|] == value;
      var ok := Rewrite(key, value, s, |value|, entries[s].version, g, foreign);
      r := if ok then Ok(false) else Err(OutOfMemory);
    }

    /** Insert or update. `g` is what the arena answers if it is asked. */
    method Insert(key: Bytes, value: Bytes, g: Grant, ghost foreign: seq<Entry>) returns (r: KvResult<bool>)
      requires Valid() && Probes(key) && Apart(entries[..], foreign)
      requires GrantedFor(key, value, foreign, g)
      modifies this, arena, entries
      ensures r == InsertResult(old(contents), key, value, g.offset != 0)
      ensures r.Ok? ==> Stores(old(contents), contents, key, value)
      ensures SameElsewhere(foreign, -1, old(arena.bytes), arena.bytes)
      ensures r == Err(KeyTooLarge) || !old(LosesBlock(key, value, g)) ==>
                && Valid() && Apart(entries[..], foreign)
                && contents == InsertMap(old(contents), key, value, g.offset != 0)
                && (var added := if r == Ok(true) then 1 else 0;
                    inserted == old(inserted) + added && size == old(size) + added)
      ensures r.Ok? ==>
                Recorded(old(entries[..]), old(arena.bytes), old(contents), old(slot), key, value, g,
                            slot, entries[..], arena.bytes)
      ensures r.Err? ==> entries[..] == old(entries[..]) && arena.bytes == if r == Err(KeyTooLarge) then old(arena.bytes) else g.bytes
      ensures !(r == Err(KeyTooLarge) || !old(LosesBlock(key, value, g))) ==>
                OnlyBytesChanged(old(entries[..]), old(slot), old(contents), old(size), old(inserted), g.bytes)
    {
      if |key| > U32_MAX || |value| > U32_MAX {
        return Err(KeyTooLarge);
      }
      InsertStores(contents, key, value, g.offset != 0);
      var index, isMatch := FindEntry(key, HashKey(raw, key));
      if isMatch {
        r := Update(key, value, index, g, foreign);
      } else {
        r := InsertNew(key, value, index, g, foreign);
      }
    }

    /** Compare-and-swap on the version. */
    method Cas(key: Bytes, expected: nat, value: Bytes, g: Grant, ghost foreign: seq<Entry>) returns (r: KvResult<nat>)
      requires Valid() && Probes(key) && Apart(entries[..], foreign)
      requires GrantedFor(key, value, foreign, g)
      modifies this, arena, entries
      ensures r == CasResult(old(contents), key, expected, value, g.offset != 0)
      ensures r.Ok? ==> Stores(old(contents), contents, key, Truncated(value))
      ensures SameElsewhere(foreign, -1, old(arena.bytes), arena.bytes)
      ensures r != Err(OutOfMemory) ==>
                && Valid() && Apart(entries[..], foreign) && inserted == old(inserted) && size == old(size)
                && contents == CasMap(old(contents), key, expected, value, g.offset != 0)
      ensures r.Ok? ==>
                Recorded(old(entries[..]), old(arena.bytes), old(contents), old(slot), key, value, g,
                            slot, entries[..], arena.bytes)
      ensures r.Err? && r != Err(OutOfMemory) ==> entries[..] == old(entries[..]) && arena.bytes == old(arena.bytes)
      ensures r == Err(OutOfMemory) ==>
                OnlyBytesChanged(old(entries[..]), old(slot), old(contents), old(size), old(inserted), g.bytes)
    {
      var index, isMatch := FindEntry(key, HashKey(raw, key));
      if !isMatch {
        return Err(NotFound);
      }
      ContentsAt(raw, entries[..], arena.bytes, slot, key);
      if entries[index].version != expected {
        return Err(VersionMismatch);
      }
      CasStores(contents, key, expected, value, g.offset != 0);
      var ok := Rewrite(key, value, index, Wrap32(|value|), Wrap64(expected + 1), g, foreign);
      r := if ok then Ok(Wrap64(expected + 1)) else Err(OutOfMemory);
    }

    /** The tombstone is written and the block given back. */
    method Bury(key: Bytes, s: nat, after: Bytes, ghost foreign: seq<Entry>)
      requires Valid() && key in slot && slot[key] == s && Apart(entries[..], foreign)
      requires s < entries.Length
      requires SameElsewhere(entries[..], Freed(key), arena.bytes, after)
      requires SameElsewhere(foreign, -1, arena.bytes, after)
      modifies this, arena, entries
      ensures Valid() && Apart(entries[..], foreign)
      ensures SameElsewhere(foreign, -1, old(arena.bytes), arena.bytes)
      ensures contents == old(contents) - {key}
      ensures inserted == old(inserted) && size == old(size) - 1
      ensures Buried(old(entries[..]), s, entries[..]) && arena.bytes == after
    {
      ghost var es := entries[..];
      entries[s] := Entry(TOMBSTONE, entries[s].version, 0, 0, 0);
      RemoveOk(raw, es, arena.bytes, slot, contents, size, inserted, key, s, entries[..], after, slot - {key});
      assert forall i {:trigger LiveAt(entries[..], i)} :: LiveAt(entries[..], i) ==> LiveAt(es, i);
      arena.bytes := after;
      size := size - 1;
      slot := slot - {key};
      contents := contents - {key};
    }

    /** Remove a key; the result is the size handed back to the arena, which
        is computed in 32 bits. `after` is the arena once the block is freed. */
    method Remove(key: Bytes, after: Bytes, ghost foreign: seq<Entry>) returns (r: Option<nat>)
      requires Valid() && Probes(key) && Apart(entries[..], foreign)
      requires SameElsewhere(entries[..], Freed(key), arena.bytes, after)
      requires SameElsewhere(foreign, -1, arena.bytes, after)
      modifies this, arena, entries
      ensures Valid() && Apart(entries[..], foreign)
      ensures SameElsewhere(foreign, -1, old(arena.bytes), arena.bytes)
      ensures contents == old(contents) - {key}
      ensures inserted == old(inserted) && size == old(size) - if r.Some? then 1 else 0
      ensures r == RemoveResult(old(contents), key)
      ensures if key in old(slot)
              then Buried(old(entries[..]), old(slot)[key], entries[..]) && arena.bytes == after
              else entries[..] == old(entries[..]) && arena.bytes == old(arena.bytes)
    {
      var index, isMatch := FindEntry(key, HashKey(raw, key));
      if isMatch {
        ContentsAt(raw, entries[..], arena.bytes, slot, key);
        r := Some(Wrap32(entries[index].keyLen + entries[index].valLen));
        Bury(key, index, after, foreign);
      } else {
        RemoveAbsent(contents, key);
        r := None;
      }
    }
  }

  lemma StoredAt(raw: RawHash, es: seq<Entry>, mem: Bytes, slot: Slots, key: Bytes)
    requires Rep(raw, es, mem, slot) && key in slot
    ensures slot[key] < |es| && es[slot[key]].hash == HashKey(raw, key)
    ensures PathOk(es, Home(HashKey(raw, key), |es|), slot[key])
    ensures Fits(BlockOf(es[slot[key]]), mem) && LiveAt(es, slot[key])
  {
    assert KeyOk(es, mem, slot, key);
    assert SlotOk(raw, es, mem, slot, slot[key]) && ChainOk(es, slot[key]);
  }

  /** The first bytes of an entry's own block are clear of all other blocks. */
  lemma SubBlockClear(es: seq<Entry>, foreign: seq<Entry>, s: nat, len: nat)
    requires Separated(es) && Apart(es, foreign) && LiveAt(es, s) && len <= BlockOf(es[s]).len
    ensures Clear(es, s, Block(es[s].offset, len))
    ensures Clear(foreign, -1, Block(es[s].offset, len))
  {
  }

  lemma RemoveOk(raw: RawHash, es: seq<Entry>, before: Bytes, slot: Slots, m: Store,
                 size: nat, inserted: nat, key: Bytes, s: nat, es': seq<Entry>, after: Bytes, slot': Slots)
    requires TableOk(raw, es, before, slot, m, size, inserted)
    requires key in slot && slot[key] == s && slot' == slot - {key}
    requires Changes(es, s, es') && es'[s].hash == TOMBSTONE
    requires SameElsewhere(es, s, before, after)
    ensures size > 0
    ensures TableOk(raw, es', after, slot', m - {key}, size - 1, inserted)
  {
    EmptyCountUpdate(es, s, es'[s]);
    LiveCountUpdate(es, s, es'[s]);
    ContentsAt(raw, es, before, slot, key);
    Step(raw, es, before, slot, key, s, es', after, slot');
  }

  /** `e` may become slot `s`'s record of `key`: its block lies in `mem`, away
      from every other live block, and `mem` keeps those blocks. */
  ghost predicate Writable(raw: RawHash, es: seq<Entry>, before: Bytes, slot: Slots, key: Bytes, value: Bytes,
                           s: nat, e: Entry, mem: Bytes, foreign: seq<Entry>)
  {
    && s < |es|
    && (if key in slot then slot[key] == s else es[s].hash == EMPTY)
    && PathOk(es, Home(HashKey(raw, key), |es|), s)
    && e.hash == HashKey(raw, key) && e.keyLen == |key| && e.valLen <= |value|
    && SameElsewhere(es, s, before, mem)
    && SameElsewhere(foreign, -1, before, mem)
    && Fits(Block(e.offset, |key| + |value|), mem)
    && Clear(es, s, Block(e.offset, |key| + |value|))
    && Clear(foreign, -1, Block(e.offset, |key| + |value|))
  }

  lemma WriteStep(raw: RawHash, es: seq<Entry>, before: Bytes, slot: Slots, key: Bytes, value: Bytes,
                  s: nat, e: Entry, mem: Bytes, foreign: seq<Entry>)
    requires Rep(raw, es, before, slot) && Apart(es, foreign)
    requires Writable(raw, es, before, slot, key, value, s, e, mem, foreign)
    ensures var es', mem', slot' := es[s := e], WriteRecord(mem, e.offset, key, value), slot[key := s];
            && Rep(raw, es', mem', slot')
            && Contents(raw, es', mem', slot')
               == Contents(raw, es, before, slot)[key := Versioned(value[..e.valLen], e.version)]
            && SameElsewhere(foreign, -1, before, mem')
            && Apart(es', foreign)
  {
    var es', mem', slot' := es[s := e], WriteRecord(mem, e.offset, key, value), slot[key := s];
    WriteRecordFrame(es, s, before, mem, e.offset, key, value);
    WriteRecordFrame(foreign, -1, before, mem, e.offset, key, value);
    forall i, j | LiveAt(es', i) && LiveAt(foreign, j)
      ensures Disjoint(BlockOf(es'[i]), BlockOf(foreign[j]))
    {
      assert i != s ==> LiveAt(es, i);
    }
    WriteRecordShows(mem, e.offset, key, value);
    assert ValueOf(e, mem') == value[..e.valLen] by {
      assert mem'[e.offset + |key|..e.offset + |key| + |value|] == value;
      assert ValueOf(e, mem') == mem'[e.offset + |key|..e.offset + |key| + |value|][..e.valLen];
    }
    if key in slot { assert KeyOk(es, before, slot, key); }
    assert StepOk(raw, es, before, slot, key, s, es', mem', slot');
    Step(raw, es, before, slot, key, s, es', mem', slot');
  }

  lemma StoreOk(raw: RawHash, es: seq<Entry>, before: Bytes, slot: Slots, m: Store,
                size: nat, inserted: nat, key: Bytes, value: Bytes, s: nat, e: Entry, mem: Bytes, foreign: seq<Entry>)
    requires TableOk(raw, es, before, slot, m, size, inserted) && Apart(es, foreign)
    requires Writable(raw, es, before, slot, key, value, s, e, mem, foreign)
    ensures es[s].hash == EMPTY <==> key !in slot
    ensures var es', mem', slot' := es[s := e], WriteRecord(mem, e.offset, key, value), slot[key := s];
            var d := if es[s].hash == EMPTY then 1 else 0;
            && TableOk(raw, es', mem', slot', m[key := Versioned(value[..e.valLen], e.version)], size + d, inserted + d)
            && SameElsewhere(foreign, -1, before, mem')
            && Apart(es', foreign)
  {
    WriteStep(raw, es, before, slot, key, value, s, e, mem, foreign);
    EmptyCountUpdate(es, s, e);
    LiveCountUpdate(es, s, e);
    if key in slot { ContentsAt(raw, es, before, slot, key); }
  }

  /** Where a probe for `key` is bound to stop. */
  ghost predicate IsGoal(es: seq<Entry>, slot: Slots, key: Bytes, goal: nat) {
    goal < |es| && if key in slot then goal == slot[key] else es[goal].hash == EMPTY
  }

  lemma FindGoal(raw: RawHash, es: seq<Entry>, mem: Bytes, slot: Slots, key: Bytes) returns (goal: nat)
    requires Rep(raw, es, mem, slot)
    requires key in slot || EmptyCount(es) > 0
    ensures IsGoal(es, slot, key, goal)
  {
    if key in slot {
      assert KeyOk(es, mem, slot, key);
      goal := slot[key];
    } else {
      EmptyCountPositive(es);
      goal :| 0 <= goal < |es| && es[goal].hash == EMPTY;
    }
  }

  /** One probe step: the slot settles the search, or the goal is still ahead. */
  lemma ProbeStep(raw: RawHash, es: seq<Entry>, mem: Bytes, slot: Slots, key: Bytes, goal: nat, i: nat)
    requires Rep(raw, es, mem, slot) && i < |es| && IsGoal(es, slot, key, goal)
    requires Dist(Home(HashKey(raw, key), |es|), i, |es|) <= Dist(Home(HashKey(raw, key), |es|), goal, |es|)
    ensures es[i].hash == EMPTY ==> key !in slot
    ensures es[i].hash == HashKey(raw, key) ==>
              Fits(BlockOf(es[i]), mem) && (KeyOf(es[i], mem) == key <==> key in slot && slot[key] == i)
    ensures Stops(raw, es, mem, key, i) || (
              var home := Home(HashKey(raw, key), |es|);
              && Dist(home, i, |es|) < Dist(home, goal, |es|)
              && Dist(home, (i + 1) % |es|, |es|) == Dist(home, i, |es|) + 1)
  {
    var home := Home(HashKey(raw, key), |es|);
    StopsIff(raw, es, mem, slot, key, i);
    assert SlotOk(raw, es, mem, slot, i);
    if key in slot && es[i].hash == EMPTY { FoundOnPath(raw, es, mem, slot, key, i); }
    if !Stops(raw, es, mem, key, i) {
      if Dist(home, i, |es|) == Dist(home, goal, |es|) { DistInjective(home, i, goal, |es|); }
      NextSlot(home, i, |es|);
    }
  }

  /** A stored key is not beyond an EMPTY slot of its own probe path. */
  lemma FoundOnPath(raw: RawHash, es: seq<Entry>, mem: Bytes, slot: Slots, key: Bytes, i: nat)
    requires Rep(raw, es, mem, slot) && key in slot && i < |es|
    requires es[i].hash == EMPTY
    ensures slot[key] < |es|
    ensures Dist(Home(HashKey(raw, key), |es|), slot[key], |es|) < Dist(Home(HashKey(raw, key), |es|), i, |es|)
  {
    assert KeyOk(es, mem, slot, key);
    assert SlotOk(raw, es, mem, slot, slot[key]);
    assert ChainOk(es, slot[key]);
    assert EmptyAt(es, i);
    if Dist(Home(HashKey(raw, key), |es|), slot[key], |es|) == Dist(Home(HashKey(raw, key), |es|), i, |es|) {
      DistInjective(Home(HashKey(raw, key), |es|), slot[key], i, |es|);
    }
  }

  lemma ExtendPath(es: seq<Entry>, home: nat, i: nat, next: nat)
    requires home < |es| && i < |es| && next < |es|
    requires Dist(home, next, |es|) == Dist(home, i, |es|) + 1
    requires PathOk(es, home, i) && es[i].hash != EMPTY
    ensures PathOk(es, home, next)
  {
  }

  /** Removing a key never gives its slot back: inserting and removing one key
      over and over leaves an empty map in a table where no probe for any key
      comes to an end (see `ProbeStopsIff`). */
  method Churn(t: Table, key: Bytes, value: Bytes, at: nat)
    requires t.Valid() && t.contents == map[] && t.inserted == 0
    requires |key| <= U32_MAX && |value| <= U32_MAX && |key| + |value| > 0
    requires at > 0 && at + |key| + |value| <= |t.arena.bytes|
    modifies t, t.arena, t.entries
    ensures t.Valid() && t.contents == map[]
    ensures forall k :: NeverStops(t.raw, t.entries[..], t.arena.bytes, k)
  {
    for i := 0 to t.entries.Length
      invariant t.Valid() && t.contents == map[] && t.inserted == i
      invariant |t.arena.bytes| == old(|t.arena.bytes|)
    {
      NothingLive(t.raw, t.entries[..], t.arena.bytes, t.slot);
      var inserted := t.Insert(key, value, Grant(at, t.arena.bytes), []);
      assert t.contents == map[key := Versioned(value, 1)];
      var removed := t.Remove(key, t.arena.bytes, []);
    }
    forall k
      ensures NeverStops(t.raw, t.entries[..], t.arena.bytes, k)
    {
      ProbeStopsIff(t.raw, t.entries[..], t.arena.bytes, t.slot, k);
    }
  }

  lemma NothingLive(raw: RawHash, es: seq<Entry>, mem: Bytes, slot: Slots)
    requires Rep(raw, es, mem, slot) && Contents(raw, es, mem, slot) == map[]
    ensures forall i :: !LiveAt(es, i)
  {
    forall i
      ensures !LiveAt(es, i)
    {
      if 0 <= i < |es| { assert SlotOk(raw, es, mem, slot, i); }
    }
  }
}
