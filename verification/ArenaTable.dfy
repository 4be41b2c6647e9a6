/**
 The hash table and the arena working together: what the table asks for is
 answered by the arena itself, so that nothing about the allocator is left to
 be supposed but the sizes it is asked for.
 */
module ArenaTable {
  import opened Wrappers
  import opened Memory
  import opened KvSpec
  import opened Probing
  import opened HashTable
  import opened TableOnArena
  import A = Arena
  import R = ArenaRuns

  /** The alignment the table asks for. */
  const ALIGN: nat := 8

  /** The arena is sound, and each record has a block of it to itself. */
  ghost predicate Settled(es: seq<Entry>, w: R.World, d: A.Demand) {
    A.Disciplined(d) && A.Shape(w.arena) && R.Good(w, d) && Housed(es, -1, w.heap)
  }

  /** The block that a write gives back first: that of a record which has to grow. */
  ghost function Outgrown(es: seq<Entry>, slot: Slots, m: Store, key: Bytes, value: Bytes): Option<Block> {
    if Grows(m, key, value) && key in slot && LiveAt(es, slot[key]) then Some(BlockOf(es[slot[key]])) else None
  }

  /** The arena, and the blocks in use, once that block was given back. */
  function Opened(a: A.State, b: Option<Block>): (a': A.State)
    requires A.Shape(a)
    ensures A.Shape(a') && a'.limit == a.limit
  {
    if b.Some? then A.Free(a, b.value.offset, b.value.len) else a
  }

  ghost function Emptied(heap: R.Heap, b: Option<Block>): R.Heap {
    if b.Some? then heap - {b.value.offset} else heap
  }

  lemma FreeKeepsShape(a: A.State, o: nat, len: nat)
    requires A.Shape(a)
    ensures A.Shape(A.Free(a, o, len)) && A.Free(a, o, len).limit == a.limit
  {
  }

  /** The slot of the record that is written over. */
  ghost function SlotOf(slot: Slots, key: Bytes): int {
    if key in slot then slot[key] else -1
  }

  ghost predicate Known(raw: RawHash, es: seq<Entry>, mem: Bytes, slot: Slots, m: Store) {
    Rep(raw, es, mem, slot) && m == Contents(raw, es, mem, slot)
  }

  /** How a write finds out whether it asks, and what it gives back first. */
  lemma OutgrownFromEntry(raw: RawHash, es: seq<Entry>, mem: Bytes, slot: Slots, m: Store, key: Bytes, value: Bytes)
    requires Known(raw, es, mem, slot, m)
    ensures key in slot ==>
              && LiveAt(es, slot[key])
              && Asks(m, key, value) == (|key| + |value| > BlockOf(es[slot[key]]).len)
              && Outgrown(es, slot, m, key, value) == if Asks(m, key, value) then Some(BlockOf(es[slot[key]])) else None
    ensures key !in slot ==> Asks(m, key, value) && Outgrown(es, slot, m, key, value) == None
  {
    if key in slot { ContentsAt(raw, es, mem, slot, key); }
  }

  /** Giving that block back is a step of the arena, and leaves the other
      records housed. */
  lemma OpenedIsGood(raw: RawHash, es: seq<Entry>, slot: Slots, m: Store, w: R.World, d: A.Demand, key: Bytes, value: Bytes,
                     b: Option<Block>)
    requires Settled(es, w, d) && Known(raw, es, w.arena.mem, slot, m) && b == Outgrown(es, slot, m, key, value)
    ensures R.Good(R.World(Opened(w.arena, b), Emptied(w.heap, b)), d)
    ensures Housed(es, SlotOf(slot, key), Emptied(w.heap, b))
  {
    OutgrownFromEntry(raw, es, w.arena.mem, slot, m, key, value);
    if b.Some? {
      GiveIsLegal(w, es, slot[key], b.value.len);
      R.GiveGood(w, d, b.value.offset, b.value.len);
      GiveKeepsHoused(es, slot[key], w.heap);
    }
  }

  /** Whatever the arena answers, the table is proved against it. */
  lemma AnswerIsGranted(raw: RawHash, es: seq<Entry>, slot: Slots, m: Store, w: R.World, d: A.Demand, key: Bytes, value: Bytes,
                        b: Option<Block>, size: nat)
    requires Settled(es, w, d) && Known(raw, es, w.arena.mem, slot, m) && b == Outgrown(es, slot, m, key, value)
    requires Asked(w, d, size, ALIGN)
    ensures Granted(es, SlotOf(slot, key), w.arena.mem, size, Answer(Opened(w.arena, b), size, ALIGN))
  {
    if b.Some? {
      OutgrownFromEntry(raw, es, w.arena.mem, slot, m, key, value);
      var w' := R.World(Opened(w.arena, b), Emptied(w.heap, b));
      GiveIsLegal(w, es, slot[key], b.value.len);
      GrowGrants(w, d, w', es, slot[key], size, ALIGN);
    } else {
      AllocateGrants(w, d, es, SlotOf(slot, key), size, ALIGN);
    }
  }

  // ------------------------------------------------------- after the operations

  lemma RecordIsOneWrite(mem: Bytes, at: nat, key: Bytes, value: Bytes)
    requires at + |key| + |value| <= |mem|
    ensures WriteRecord(mem, at, key, value) == Write(mem, at, key + value)
  {
  }

  lemma WriteWhole(block: Bytes, data: Bytes)
    requires |block| == |data|
    ensures Write(block, 0, data) == data
  {
  }

  lemma ChangedEntry(es: seq<Entry>, s: nat, es': seq<Entry>)
    requires Changes(es, s, es')
    ensures es' == es[s := es'[s]]
  {
  }

  lemma TakeGood(w: R.World, d: A.Demand, size: nat, w1: R.World)
    requires A.Disciplined(d) && R.Good(w, d) && Asked(w, d, size, ALIGN) && A.Offset(w.arena, size, ALIGN) != 0
    requires w1 == R.Step(w, R.Alloc(size, ALIGN))
    ensures var off := A.Offset(w.arena, size, ALIGN);
            && off !in w.heap && off in w1.heap && |w1.heap[off]| == size && off + size <= |w1.arena.mem|
            && w1.heap == w.heap[off := w1.heap[off]]
            && A.Shape(w1.arena) && R.Good(w1, d)
  {
    R.AllocGood(w, d, size, ALIGN);
    R.GrantedWhole(w, d, size, ALIGN);
    BlocksFit(w1, d);
    GoodHasShape(w1, d);
  }

  lemma PutWhole(w: R.World, w1: R.World, d: A.Demand, off: nat, data: Bytes)
    requires A.Shape(w1.arena) && R.Good(w1, d) && off in w1.heap && w1.heap == w.heap[off := w1.heap[off]]
    requires |w1.heap[off]| == |data| && off + |data| <= |w1.arena.mem|
    ensures R.Good(R.World(w1.arena.(mem := Write(w1.arena.mem, off, data)), w.heap[off := data]), d)
  {
    R.PutGood(w1, d, off, 0, data);
    WriteWhole(w1.heap[off], data);
    assert w1.heap[off := data] == w.heap[off := data];
  }

  /** A block allocated and filled is again a sound arena. */
  lemma FillGood(w: R.World, d: A.Demand, data: Bytes)
    requires A.Disciplined(d) && R.Good(w, d) && Asked(w, d, |data|, ALIGN) && A.Offset(w.arena, |data|, ALIGN) != 0
    ensures var off, a := A.Offset(w.arena, |data|, ALIGN), A.Allocate(w.arena, |data|, ALIGN);
            && off !in w.heap && off + |data| <= |a.mem|
            && A.Shape(a) && R.Good(R.World(a.(mem := Write(a.mem, off, data)), w.heap[off := data]), d)
  {
    var off := A.Offset(w.arena, |data|, ALIGN);
    var w1 := R.Step(w, R.Alloc(|data|, ALIGN));
    TakeGood(w, d, |data|, w1);
    PutWhole(w, w1, d, off, data);
  }

  lemma GoodHasShape(w: R.World, d: A.Demand)
    requires R.Good(w, d)
    ensures A.Shape(w.arena)
  {
    var owner: A.Owners, stacks: A.Stacks :| R.GoodBy(w, d, owner, stacks);
  }

  /** A record written into a new block. */
  lemma PlaceSettles(w: R.World, d: A.Demand, es: seq<Entry>, s: nat, es': seq<Entry>, key: Bytes, value: Bytes, mem': Bytes)
    requires A.Disciplined(d) && R.Good(w, d) && Housed(es, s, w.heap) && Asked(w, d, |key| + |value|, ALIGN)
    requires var g := Answer(w.arena, |key| + |value|, ALIGN);
             g.offset != 0 && Placed(es, s, es', g.offset, key, value, g.bytes, mem')
    ensures var size := |key| + |value|;
            Settled(es', R.World(A.Allocate(w.arena, size, ALIGN).(mem := mem'),
                                 w.heap[A.Offset(w.arena, size, ALIGN) := key + value]), d)
  {
    var data := key + value;
    var off, a := A.Offset(w.arena, |data|, ALIGN), A.Allocate(w.arena, |data|, ALIGN);
    assert |data| == |key| + |value|;
    FillGood(w, d, data);
    RecordIsOneWrite(a.mem, off, key, value);
    assert mem' == Write(a.mem, off, data);
    var w' := R.World(a.(mem := mem'), w.heap[off := data]);
    assert R.Good(w', d);
    GoodHasShape(w', d);
    ChangedEntry(es, s, es');
    StoreKeepsHoused(es, s, es'[s], w.heap, data);
  }

  /** A record written over one at least as long. */
  lemma OverwriteSettles(w: R.World, d: A.Demand, es: seq<Entry>, s: nat, es': seq<Entry>, key: Bytes, value: Bytes, mem': Bytes)
    requires Settled(es, w, d) && LiveAt(es, s) && |key| + |value| <= BlockOf(es[s]).len
    requires Placed(es, s, es', es[s].offset, key, value, w.arena.mem, mem')
    ensures var o := es[s].offset;
            && o in w.heap && |key + value| <= |w.heap[o]|
            && Settled(es', R.World(w.arena.(mem := mem'), w.heap[o := Write(w.heap[o], 0, key + value)]), d)
  {
    var o := es[s].offset;
    RecordIsOneWrite(w.arena.mem, o, key, value);
    R.PutGood(w, d, o, 0, key + value);
    ChangedEntry(es, s, es');
    ShrinkKeepsHoused(es, s, es'[s], w.heap);
  }

  /** The block of the key's record, if there is one, is given back with the
      32-bit sum of its lengths. */
  ghost predicate Releases(es: seq<Entry>, slot: Slots, key: Bytes, w: R.World, w': R.World) {
    if key in slot then
      && A.Shape(w.arena) && LiveAt(es, slot[key])
      && (var e := es[slot[key]]; w' == R.World(A.Free(w.arena, e.offset, Wrap32(BlockOf(e).len)), w.heap - {e.offset}))
    else w' == w
  }

  lemma RemoveSettles(es: seq<Entry>, slot: Slots, key: Bytes, w: R.World, d: A.Demand, es': seq<Entry>, w': R.World)
    requires Settled(es, w, d) && Releases(es, slot, key, w, w')
    requires key in slot ==> Buried(es, slot[key], es')
    requires key !in slot ==> es' == es
    ensures Settled(es', w', d)
  {
    if key in slot {
      var e := es[slot[key]];
      GiveIsLegal(w, es, slot[key], Wrap32(BlockOf(e).len));
      R.GiveGood(w, d, e.offset, Wrap32(BlockOf(e).len));
      FreeKeepsShape(w.arena, e.offset, Wrap32(BlockOf(e).len));
      BuryKeepsHoused(es, slot[key], es', w.heap);
    }
  }

  /** The arena after a write that put its record where `Recorded` says. */
  function Written(ready: A.State, asks: bool, size: nat, mem': Bytes): A.State
    requires A.Shape(ready)
  {
    (if asks then A.Allocate(ready, size, ALIGN) else ready).(mem := mem')
  }

  /** A write that asked for its block. */
  lemma AskedSettles(raw: RawHash, es: seq<Entry>, slot: Slots, m: Store, w: R.World, d: A.Demand, key: Bytes, value: Bytes,
                     b: Option<Block>, s: nat, es': seq<Entry>, mem': Bytes) returns (w': R.World)
    requires Settled(es, w, d) && Known(raw, es, w.arena.mem, slot, m) && b == Outgrown(es, slot, m, key, value)
    requires Asked(w, d, |key| + |value|, ALIGN) && (key in slot ==> s == slot[key])
    requires var g := Answer(Opened(w.arena, b), |key| + |value|, ALIGN);
             g.offset != 0 && Placed(es, s, es', g.offset, key, value, g.bytes, mem')
    ensures w'.arena == A.Allocate(Opened(w.arena, b), |key| + |value|, ALIGN).(mem := mem') && Settled(es', w', d)
  {
    var ready := R.World(Opened(w.arena, b), Emptied(w.heap, b));
    OpenedIsGood(raw, es, slot, m, w, d, key, value, b);
    assert Housed(es, s, ready.heap);
    PlaceSettles(ready, d, es, s, es', key, value, mem');
    w' := R.World(A.Allocate(ready.arena, |key| + |value|, ALIGN).(mem := mem'),
                  ready.heap[A.Offset(ready.arena, |key| + |value|, ALIGN) := key + value]);
  }

  lemma WriteSettles(raw: RawHash, es: seq<Entry>, slot: Slots, m: Store, w: R.World, d: A.Demand, key: Bytes, value: Bytes,
                     b: Option<Block>, g: Grant, slot': Slots, es': seq<Entry>, mem': Bytes) returns (w': R.World)
    requires Settled(es, w, d) && Known(raw, es, w.arena.mem, slot, m) && b == Outgrown(es, slot, m, key, value)
    requires Asks(m, key, value) ==>
               && Asked(w, d, |key| + |value|, ALIGN)
               && g == Answer(Opened(w.arena, b), |key| + |value|, ALIGN) && g.offset != 0
    requires Recorded(es, w.arena.mem, m, slot, key, value, g, slot', es', mem')
    ensures w'.arena == Written(Opened(w.arena, b), Asks(m, key, value), |key| + |value|, mem') && Settled(es', w', d)
  {
    var s := slot'[key];
    if Asks(m, key, value) {
      w' := AskedSettles(raw, es, slot, m, w, d, key, value, b, s, es', mem');
    } else {
      ContentsAt(raw, es, w.arena.mem, slot, key);
      OverwriteSettles(w, d, es, s, es', key, value, mem');
      var o := es[s].offset;
      w' := R.World(w.arena.(mem := mem'), w.heap[o := Write(w.heap[o], 0, key + value)]);
    }
  }

  /** A growing write has lost the block of its record: the table still stands
      exactly if no free node is written there, or one that looks the same. */
  ghost predicate StandsIfSame(raw: RawHash, es: seq<Entry>, slot: Slots, key: Bytes, a: A.State, mem': Bytes) {
    && A.Shape(a) && Rep(raw, es, a.mem, slot) && key in slot && slot[key] < |es|
    && (var b := BlockOf(es[slot[key]]);
        && Fits(b, a.mem)
        && (Survives(raw, es, a.mem, slot, mem') <==> (A.Recycled(b.len) ==> LooksFree(a, b))))
  }

  /** What the arena answers to a write of `size` bytes that gives back `b`
      first, if the write asks at all. */
  function Offered(a: A.State, b: Option<Block>, asks: bool, size: nat): Grant
    requires A.Shape(a)
  {
    if asks then Answer(Opened(a, b), size, ALIGN) else Grant(0, a.mem)
  }

  lemma LostOffer(raw: RawHash, es: seq<Entry>, slot: Slots, m: Store, w: R.World, d: A.Demand, key: Bytes, value: Bytes,
                  b: Option<Block>, asks: bool, size: nat, g: Grant)
    requires Settled(es, w, d) && Known(raw, es, w.arena.mem, slot, m) && b == Outgrown(es, slot, m, key, value)
    requires asks == Asks(m, key, value) && g == Offered(w.arena, b, asks, size)
    ensures Grows(m, key, value) && g.offset == 0 ==> StandsIfSame(raw, es, slot, key, w.arena, g.bytes)
  {
    OutgrownFromEntry(raw, es, w.arena.mem, slot, m, key, value);
    if Grows(m, key, value) && g.offset == 0 {
      FailedGrowthOnArenaIff(raw, es, slot, key, w, d, size, ALIGN);
    }
  }

  lemma NoGrant(es: seq<Entry>, s: int, mem: Bytes, size: nat)
    ensures Granted(es, s, mem, size, Grant(0, mem))
  {
  }

  lemma OfferIsGranted(raw: RawHash, es: seq<Entry>, slot: Slots, m: Store, w: R.World, d: A.Demand, key: Bytes, value: Bytes,
                       b: Option<Block>, asks: bool, size: nat, g: Grant)
    requires Settled(es, w, d) && Known(raw, es, w.arena.mem, slot, m) && b == Outgrown(es, slot, m, key, value)
    requires asks ==> Asked(w, d, size, ALIGN)
    requires g == Offered(w.arena, b, asks, size)
    ensures Granted(es, SlotOf(slot, key), w.arena.mem, size, g)
  {
    if asks {
      AnswerIsGranted(raw, es, slot, m, w, d, key, value, b, size);
    } else {
      NoGrant(es, SlotOf(slot, key), w.arena.mem, size);
    }
  }

  // ------------------------------------------------------------------ the table

  class BackedTable {
    const table: Table
    var space: A.State
    /** The blocks of the arena in use, with their bytes. */
    ghost var heap: R.Heap
    /** The sizes that may be asked for. */
    ghost const demand: A.Demand
    /** All operations so far. */
    ghost var history: seq<Op>

    ghost predicate Valid()
      reads this, table, table.arena, table.entries
    {
      && table.Valid() && table.arena.bytes == space.mem
      && Settled(table.entries[..], R.World(space, heap), demand)
      && table.contents == Run(history)
    }

    constructor (capacity: nat, raw: RawHash, space: A.State, ghost demand: A.Demand)
      requires capacity > 0 && A.Disciplined(demand)
      requires R.IsFresh(R.World(space, map[])) && A.OnGrain(space.limit, demand.words)
      ensures Valid() && history == [] && this.demand == demand && table.entries.Length == capacity
    {
      var shared := new SharedMemory(space.mem);
      table := new Table(capacity, shared, raw);
      this.space := space;
      this.demand := demand;
      heap := map[];
      history := [];
      new;
      R.FreshGood(R.World(space, map[]), demand);
    }

    method Get(key: Bytes) returns (r: Option<Bytes>)
      requires Valid() && table.Probes(key)
      ensures r == if key in Run(history) then Some(Run(history)[key].value) else None
    {
      r := table.Get(key);
    }

    /** The arena once the record of `key`, if there is one, was given back. */
    method Vacate(key: Bytes) returns (after: A.State, ghost w': R.World)
      requires Valid() && table.Probes(key)
      ensures w'.arena == after && Releases(table.entries[..], table.slot, key, R.World(space, heap), w')
      ensures SameElsewhere(table.entries[..], table.Freed(key), table.arena.bytes, after.mem)
    {
      var index, isMatch := table.FindEntry(key, HashKey(table.raw, key));
      after, w' := space, R.World(space, heap);
      if isMatch {
        StoredAt(table.raw, table.entries[..], space.mem, table.slot, key);
        FreeGrants(w', demand, table.entries[..], index);
        var e := table.entries[index];
        after := A.Free(space, e.offset, Wrap32(e.keyLen + e.valLen));
        w' := R.World(after, heap - {e.offset});
      }
    }

    /** The table and the arena have done their parts of an operation. */
    ghost method Commit(w': R.World, op: Op)
      requires table.Valid() && table.arena.bytes == space.mem && w'.arena == space
      requires Settled(table.entries[..], w', demand) && table.contents == Apply(Run(history), op)
      modifies this`heap, this`history
      ensures Valid() && history == old(history) + [op]
    {
      RunSnoc(history, op);
      heap, history := w'.heap, history + [op];
    }

    /** The table's part of a removal. */
    method TakeOut(key: Bytes) returns (r: Option<nat>, after: A.State, ghost w': R.World)
      requires Valid() && table.Probes(key)
      modifies table, table.arena, table.entries
      ensures table.Valid() && table.arena.bytes == after.mem && w'.arena == after
      ensures Settled(table.entries[..], w', demand) && table.contents == old(table.contents) - {key}
      ensures r == RemoveResult(old(table.contents), key)
    {
      ghost var es, slot := table.entries[..], table.slot;
      after, w' := Vacate(key);
      r := table.Remove(key, after.mem, []);
      RemoveSettles(es, slot, key, R.World(space, heap), demand, table.entries[..], w');
    }

    method Remove(key: Bytes) returns (r: Option<nat>)
      requires Valid() && table.Probes(key)
      modifies this, table, table.arena, table.entries
      ensures Valid() && history == old(history) + [Op.Remove(key)]
      ensures r == RemoveResult(old(table.contents), key)
    {
      ghost var w';
      r, space, w' := TakeOut(key);
      Commit(w', Op.Remove(key));
    }

    ghost function World(): R.World
      reads this
    {
      R.World(space, heap)
    }

    /** The block that a write of `value` gives back first. */
    ghost function Outgrows(key: Bytes, value: Bytes): Option<Block>
      reads this, table, table.entries
    {
      Outgrown(table.entries[..], table.slot, table.contents, key, value)
    }

    /** What the arena answers if a write of `value` asks it for a block. */
    ghost function Offer(key: Bytes, value: Bytes): Grant
      requires A.Shape(space)
      reads this, table, table.entries
    {
      Offered(space, Outgrows(key, value), Asks(table.contents, key, value), |key| + |value|)
    }

    /** The look at the old record that decides what a write does. */
    method Look(key: Bytes, value: Bytes) returns (asks: bool, b: Option<Block>)
      requires Valid() && table.Probes(key)
      ensures asks == Asks(table.contents, key, value) && b == Outgrows(key, value)
    {
      var index, isMatch := table.FindEntry(key, HashKey(table.raw, key));
      OutgrownFromEntry(table.raw, table.entries[..], table.arena.bytes, table.slot, table.contents, key, value);
      asks, b := true, None;
      if isMatch {
        var e := table.entries[index];
        asks := |key| + |value| > e.keyLen + e.valLen;
        if asks { b := Some(BlockOf(e)); }
      }
    }

    lemma OfferGrants(key: Bytes, value: Bytes)
      requires Valid()
      requires Asks(table.contents, key, value) ==> Asked(World(), demand, |key| + |value|, ALIGN)
      ensures table.GrantedFor(key, value, [], Offer(key, value))
    {
      OfferIsGranted(table.raw, table.entries[..], table.slot, table.contents, World(), demand, key, value,
                     Outgrows(key, value), Asks(table.contents, key, value), |key| + |value|, Offer(key, value));
    }

    /** A write gives back the old block if it needs a larger one, and asks the
        arena if it needs any. */
    method Ask(key: Bytes, value: Bytes) returns (asks: bool, ready: A.State, g: Grant)
      requires Valid() && table.Probes(key)
      requires Asks(table.contents, key, value) ==> Asked(World(), demand, |key| + |value|, ALIGN)
      ensures asks == Asks(table.contents, key, value) && g == Offer(key, value)
      ensures ready == Opened(space, Outgrows(key, value)) && A.Shape(ready)
      ensures table.GrantedFor(key, value, [], g)
    {
      OfferGrants(key, value);
      var b;
      asks, b := Look(key, value);
      ready, g := Opened(space, b), Offered(space, b, asks, |key| + |value|);
    }

    /** The table's part of an insertion. */
    method PutIn(key: Bytes, value: Bytes) returns (r: KvResult<bool>, ghost w': R.World)
      requires Valid() && table.Probes(key) && |key| <= U32_MAX && |value| <= U32_MAX
      requires Asks(table.contents, key, value) ==> Asked(World(), demand, |key| + |value|, ALIGN)
      modifies this`space, table, table.arena, table.entries
      ensures r == InsertResult(old(table.contents), key, value, old(Offer(key, value)).offset != 0)
      ensures if old(table.LosesBlock(key, value, Offer(key, value)))
              then
                && space == Opened(old(space), old(Outgrows(key, value)))
                && table.OnlyBytesChanged(old(table.entries[..]), old(table.slot), old(table.contents), old(table.size),
                                          old(table.inserted), old(Offer(key, value)).bytes)
              else
                && table.Valid() && table.arena.bytes == space.mem && w'.arena == space
                && Settled(table.entries[..], w', demand)
                && table.contents == InsertMap(old(table.contents), key, value, old(Offer(key, value)).offset != 0)
    {
      ghost var es, slot, m, w, b := table.entries[..], table.slot, table.contents, World(), Outgrows(key, value);
      var asks, ready, g := Ask(key, value);
      r := table.Insert(key, value, g, []);
      space, w' := ready, w;
      if r.Ok? {
        space := Written(ready, asks, |key| + |value|, table.arena.bytes);
        w' := WriteSettles(table.raw, es, slot, m, w, demand, key, value, b, g, table.slot, table.entries[..], table.arena.bytes);
      }
    }

    /** A growing write failed after it gave its block back: the table is as it
        was but for the bytes, and stands exactly under `StandsIfSame`. */
    ghost predicate Lost(key: Bytes, es: seq<Entry>, slot: Slots, m: Store, size: nat, inserted: nat, a: A.State, bytes: Bytes)
      reads table, table.arena, table.entries
    {
      table.OnlyBytesChanged(es, slot, m, size, inserted, bytes) && StandsIfSame(table.raw, es, slot, key, a, bytes)
    }

    /** Insert or update. The arena is asked only when a block is needed, and
        then for a size among those demanded. */
    method Insert(key: Bytes, value: Bytes) returns (r: KvResult<bool>)
      requires Valid() && table.Probes(key)
      requires |key| <= U32_MAX && |value| <= U32_MAX && Asks(table.contents, key, value) ==>
                 Asked(World(), demand, |key| + |value|, ALIGN)
      modifies this, table, table.arena, table.entries
      ensures r == InsertResult(old(table.contents), key, value, old(Offer(key, value)).offset != 0)
      ensures r.Ok? ==> Stores(old(table.contents), table.contents, key, value)
      ensures if r == Err(OutOfMemory) && key in old(table.contents)
              then
                && space == Opened(old(space), old(Outgrows(key, value)))
                && Lost(key, old(table.entries[..]), old(table.slot), old(table.contents), old(table.size),
                        old(table.inserted), old(space), old(Offer(key, value)).bytes)
              else
                Valid() && history == old(history) + [Op.Insert(key, value, old(Offer(key, value)).offset != 0)]
    {
      ghost var granted := Offer(key, value).offset != 0;
      if |key| > U32_MAX || |value| > U32_MAX {
        Commit(World(), Op.Insert(key, value, granted));
        return Err(KeyTooLarge);
      }
      InsertStores(table.contents, key, value, granted);
      ghost var lost := MayLose(key, value);
      ghost var w';
      r, w' := PutIn(key, value);
      if !lost { Commit(w', Op.Insert(key, value, granted)); }
    }

    /** Whether the write loses the block of its record, and what becomes of
        the table then. */
    lemma MayLose(key: Bytes, value: Bytes) returns (lost: bool)
      requires Valid()
      ensures lost == table.LosesBlock(key, value, Offer(key, value))
      ensures lost ==> StandsIfSame(table.raw, table.entries[..], table.slot, key, space, Offer(key, value).bytes)
    {
      lost := table.LosesBlock(key, value, Offer(key, value));
      LostOffer(table.raw, table.entries[..], table.slot, table.contents, World(), demand, key, value,
                Outgrows(key, value), Asks(table.contents, key, value), |key| + |value|, Offer(key, value));
    }

    /** The table's part of a compare-and-swap whose version matches. */
    method SwapIn(key: Bytes, expected: nat, value: Bytes) returns (r: KvResult<nat>, ghost w': R.World)
      requires Valid() && key in table.contents && table.contents[key].version == expected
      requires Grows(table.contents, key, value) ==> Asked(World(), demand, |key| + |value|, ALIGN)
      modifies this`space, table, table.arena, table.entries
      ensures r == CasResult(old(table.contents), key, expected, value, old(Offer(key, value)).offset != 0)
      ensures r == Err(OutOfMemory) <==> old(table.LosesBlock(key, value, Offer(key, value)))
      ensures if r == Err(OutOfMemory)
              then
                && space == Opened(old(space), old(Outgrows(key, value)))
                && table.OnlyBytesChanged(old(table.entries[..]), old(table.slot), old(table.contents), old(table.size),
                                          old(table.inserted), old(Offer(key, value)).bytes)
              else
                && table.Valid() && table.arena.bytes == space.mem && w'.arena == space
                && Settled(table.entries[..], w', demand)
                && table.contents == CasMap(old(table.contents), key, expected, value, old(Offer(key, value)).offset != 0)
    {
      ghost var es, slot, m, w, b := table.entries[..], table.slot, table.contents, World(), Outgrows(key, value);
      var asks, ready, g := Ask(key, value);
      r := table.Cas(key, expected, value, g, []);
      space, w' := ready, w;
      if r.Ok? {
        space := Written(ready, asks, |key| + |value|, table.arena.bytes);
        w' := WriteSettles(table.raw, es, slot, m, w, demand, key, value, b, g, table.slot, table.entries[..], table.arena.bytes);
      }
    }

    /** A compare-and-swap whose version matches. */
    method Swap(key: Bytes, expected: nat, value: Bytes) returns (r: KvResult<nat>)
      requires Valid() && key in table.contents && table.contents[key].version == expected
      requires Grows(table.contents, key, value) ==> Asked(World(), demand, |key| + |value|, ALIGN)
      modifies this, table, table.arena, table.entries
      ensures r == CasResult(old(table.contents), key, expected, value, old(Offer(key, value)).offset != 0)
      ensures if r == Err(OutOfMemory)
              then
                && space == Opened(old(space), old(Outgrows(key, value)))
                && Lost(key, old(table.entries[..]), old(table.slot), old(table.contents), old(table.size),
                        old(table.inserted), old(space), old(Offer(key, value)).bytes)
              else
                Valid() && history == old(history) + [Op.Cas(key, expected, value, old(Offer(key, value)).offset != 0)]
    {
      ghost var granted := Offer(key, value).offset != 0;
      ghost var _ := MayLose(key, value);
      ghost var w';
      r, w' := SwapIn(key, expected, value);
      if r != Err(OutOfMemory) { Commit(w', Op.Cas(key, expected, value, granted)); }
    }

    /** The version test that comes before anything else. */
    method Refusal(key: Bytes, expected: nat) returns (r: Option<KvError>)
      requires Valid() && table.Probes(key)
      ensures r.None? <==> key in table.contents && table.contents[key].version == expected
      ensures r.Some? ==> forall value, granted :: CasResult(table.contents, key, expected, value, granted) == Err(r.value)
    {
      var index, isMatch := table.FindEntry(key, HashKey(table.raw, key));
      if !isMatch { return Some(NotFound); }
      ContentsAt(table.raw, table.entries[..], table.arena.bytes, table.slot, key);
      r := if table.entries[index].version != expected then Some(VersionMismatch) else None;
    }

    /** Compare-and-swap on the version. */
    method Cas(key: Bytes, expected: nat, value: Bytes) returns (r: KvResult<nat>)
      requires Valid() && table.Probes(key)
      requires Grows(table.contents, key, value) && table.contents[key].version == expected ==>
                 Asked(World(), demand, |key| + |value|, ALIGN)
      modifies this, table, table.arena, table.entries
      ensures r == CasResult(old(table.contents), key, expected, value, old(Offer(key, value)).offset != 0)
      ensures r.Ok? ==> Stores(old(table.contents), table.contents, key, Truncated(value))
      ensures if r == Err(OutOfMemory)
              then
                && space == Opened(old(space), old(Outgrows(key, value)))
                && Lost(key, old(table.entries[..]), old(table.slot), old(table.contents), old(table.size),
                        old(table.inserted), old(space), old(Offer(key, value)).bytes)
              else
                Valid() && history == old(history) + [Op.Cas(key, expected, value, old(Offer(key, value)).offset != 0)]
    {
      CasStores(table.contents, key, expected, value, Offer(key, value).offset != 0);
      var refusal := Refusal(key, expected);
      if refusal.Some? {
        Commit(World(), Op.Cas(key, expected, value, Offer(key, value).offset != 0));
        return Err(refusal.value);
      }
      r := Swap(key, expected, value);
    }
  }
}
