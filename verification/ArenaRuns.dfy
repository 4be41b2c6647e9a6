/**
 Runs of the arena against an ideal heap: a map from the offset of each live
 block to the bytes its client last left there. Which request sizes keep
 every run safe is settled exactly.
 */
module ArenaRuns {
  import opened Wrappers
  import opened Memory
  import BumpAllocator
  import opened Arena
  import Endian

  type Heap = map<nat, Bytes>

  /** The arena, and the heap its clients believe in. */
  datatype World = World(arena: State, heap: Heap)

  datatype Op =
    | Alloc(size: nat, align: nat)
    | Give(offset: nat, len: nat)
    | Put(offset: nat, at: nat, data: Bytes)

  /** What clients may do: ask without overflowing 64 bits, give back a live
      block with its size or less, and write inside a live block. */
  predicate Legal(w: World, op: Op) {
    && Shape(w.arena)
    && match op
       case Alloc(size, align) => BumpAllocator.Sane(w.arena.limit, size, align)
       case Give(o, len) => o in w.heap && len <= |w.heap[o]|
       case Put(o, at, data) => o in w.heap && at + |data| <= |w.heap[o]| && o + at + |data| <= |w.arena.mem|
  }

  function Granted(a: State, size: nat, align: nat): Bytes
    requires Shape(a) && align > 0
  {
    var b := Block(Offset(a, size, align), size);
    if Fits(b, a.mem) then Read(a.mem, b) else []
  }

  function Step(w: World, op: Op): World
    requires Legal(w, op)
  {
    match op
    case Alloc(size, align) =>
      var off := Offset(w.arena, size, align);
      World(Allocate(w.arena, size, align), if off == 0 then w.heap else w.heap[off := Granted(w.arena, size, align)])
    case Give(o, len) => World(Free(w.arena, o, len), w.heap - {o})
    case Put(o, at, data) =>
      World(w.arena.(mem := Write(w.arena.mem, o + at, data)), w.heap[o := Write(w.heap[o], at, data)])
  }

  ghost predicate Intact(w: World, o: nat)
    requires o in w.heap
  {
    var b := Block(o, |w.heap[o]|);
    w.arena.start <= o && Fits(b, w.arena.mem) && Read(w.arena.mem, b) == w.heap[o]
  }

  ghost predicate Separate(w: World, o: nat, p: nat)
    requires o in w.heap && p in w.heap
  {
    Disjoint(Block(o, |w.heap[o]|), Block(p, |w.heap[p]|))
  }

  /** Every live block lies in the arena, apart from the others, and holds
      what its client left there. */
  ghost predicate Safe(w: World) {
    && (forall o {:trigger Intact(w, o)} :: o in w.heap ==> Intact(w, o))
    && forall o, p {:trigger Separate(w, o, p)} :: o in w.heap && p in w.heap && o != p ==> Separate(w, o, p)
  }

  ghost predicate IsFresh(w: World) {
    && Shape(w.arena) && w.heap == map[] && w.arena.current == w.arena.start
    && forall c :: 0 <= c < CLASSES ==> w.arena.heads[c] == 0
  }

  ghost predicate IsRun(ops: seq<Op>, ws: seq<World>) {
    && |ws| == |ops| + 1
    && IsFresh(ws[0])
    && forall n :: 0 <= n < |ops| ==> Legal(ws[n], ops[n]) && ws[n + 1] == Step(ws[n], ops[n])
  }

  /** Requests as demanded, in an arena whose size is on the same grain. */
  ghost predicate Uses(ops: seq<Op>, ws: seq<World>, d: Demand)
    requires |ws| > 0
  {
    && OnGrain(ws[0].arena.limit, d.words)
    && forall n :: 0 <= n < |ops| && ops[n].Alloc? ==> ops[n].size in d.sizes && OnGrain(ops[n].align, d.words)
  }

  // --------------------------------------------------- disciplined runs are safe

  /** The ideal heap is the live part of the arena's blocks. */
  ghost predicate HeapOk(w: World, owner: Owners) {
    forall o :: if o in owner && owner[o].Live?
                then o in w.heap && |w.heap[o]| == owner[o].len && Intact(w, o)
                else o !in w.heap
  }

  ghost predicate GoodBy(w: World, d: Demand, owner: Owners, stacks: Stacks) {
    Inv(w.arena, d, owner, stacks) && HeapOk(w, owner)
  }

  ghost predicate Good(w: World, d: Demand) {
    exists owner, stacks :: GoodBy(w, d, owner, stacks)
  }

  lemma GoodIsSafe(w: World, d: Demand)
    requires Good(w, d)
    ensures Safe(w)
  {
    var owner: Owners, stacks: Stacks :| GoodBy(w, d, owner, stacks);
    forall o, p | o in w.heap && p in w.heap && o != p
      ensures Separate(w, o, p)
    {
      assert Apart(owner, o, p, d.words);
    }
  }

  lemma PopGood(w: World, d: Demand, owner: Owners, stacks: Stacks, size: nat, align: nat)
    requires GoodBy(w, d, owner, stacks) && Disciplined(d) && size in d.sizes && OnGrain(align, d.words) && Legal(w, Alloc(size, align))
    requires FromFreeList(w.arena, size, align).Some?
    ensures Good(Step(w, Alloc(size, align)), d)
    ensures var off := Offset(w.arena, size, align); off !in w.heap && off % align == 0
  {
    PopKeeps(w.arena, d, owner, stacks, size, align);
    var off, c := Offset(w.arena, size, align), Class(size);
    assert UseOk(w.arena, d, stacks, off, owner[off]);
    RoomBelow(w.arena.current, w.arena.limit, d.words);
    AllocHeap(w, owner, size, align);
    assert GoodBy(Step(w, Alloc(size, align)), d, owner[off := Live(size)],
                  stacks[c := stacks[c][..|stacks[c]| - 1]]);
  }

  lemma BumpGood(w: World, d: Demand, owner: Owners, stacks: Stacks, size: nat, align: nat)
    requires GoodBy(w, d, owner, stacks) && size in d.sizes && OnGrain(align, d.words) && Legal(w, Alloc(size, align))
    requires FromFreeList(w.arena, size, align).None? && Offset(w.arena, size, align) != 0
    ensures Good(Step(w, Alloc(size, align)), d)
    ensures var off := Offset(w.arena, size, align); off !in w.heap && off % align == 0
  {
    BumpKeeps(w.arena, d, owner, stacks, size, align);
    var off := Offset(w.arena, size, align);
    assert UseOk(Allocate(w.arena, size, align), d, stacks, off, owner[off := Live(size)][off]);
    AllocHeap(w, owner, size, align);
    assert GoodBy(Step(w, Alloc(size, align)), d, owner[off := Live(size)], stacks);
  }

  lemma AllocGood(w: World, d: Demand, size: nat, align: nat)
    requires Good(w, d) && Disciplined(d) && size in d.sizes && OnGrain(align, d.words) && Legal(w, Alloc(size, align))
    ensures Good(Step(w, Alloc(size, align)), d)
    ensures var off := Offset(w.arena, size, align); off == 0 || (off !in w.heap && off % align == 0)
  {
    var owner: Owners, stacks: Stacks :| GoodBy(w, d, owner, stacks);
    if FromFreeList(w.arena, size, align).Some? {
      PopGood(w, d, owner, stacks, size, align);
    } else if Offset(w.arena, size, align) != 0 {
      BumpGood(w, d, owner, stacks, size, align);
    }
  }

  lemma AllocHeap(w: World, owner: Owners, size: nat, align: nat)
    requires HeapOk(w, owner) && Legal(w, Alloc(size, align))
    requires Offset(w.arena, size, align) != 0
    requires w.arena.start <= Offset(w.arena, size, align)
    requires Fits(Block(Offset(w.arena, size, align), size), w.arena.mem)
    ensures HeapOk(Step(w, Alloc(size, align)), owner[Offset(w.arena, size, align) := Live(size)])
  {
  }

  lemma GiveHeap(w: World, d: Demand, owner: Owners, o: nat, len: nat, owner': Owners)
    requires HeapOk(w, owner) && Legal(w, Give(o, len)) && o in owner
    requires Recycled(len) ==> NODE <= Room(owner[o].len, d.words)
    requires forall p {:trigger Apart(owner, o, p, d.words)} :: p in owner && p != o ==> Apart(owner, o, p, d.words)
    requires forall p :: p != o ==> (p in owner' <==> p in owner) && (p in owner ==> owner'[p] == owner[p])
    requires o in owner' ==> owner'[o].Listed?
    ensures HeapOk(Step(w, Give(o, len)), owner')
  {
    var w' := Step(w, Give(o, len));
    forall p | p in w.heap && p != o
      ensures Intact(w', p)
    {
      assert Intact(w, p) && Apart(owner, o, p, d.words);
      FreeElsewhere(w.arena, o, len, Room(owner[o].len, d.words), Block(p, |w.heap[p]|));
    }
  }

  lemma PushGood(w: World, d: Demand, owner: Owners, stacks: Stacks, o: nat, len: nat)
    requires GoodBy(w, d, owner, stacks) && Disciplined(d) && Legal(w, Give(o, len)) && Recycled(len)
    ensures Good(Step(w, Give(o, len)), d)
  {
    var c := Class(len);
    assert UseOk(w.arena, d, stacks, o, owner[o]);
    ServesSmaller(d, owner[o].len, len);
    PushKeeps(w.arena, d, owner, stacks, o, len);
    var owner' := owner[o := Listed(c, |stacks[c]|, owner[o].len)];
    GiveHeap(w, d, owner, o, len, owner');
    assert GoodBy(Step(w, Give(o, len)), d, owner', stacks[c := stacks[c] + [o]]);
  }

  lemma DropGood(w: World, d: Demand, owner: Owners, stacks: Stacks, o: nat, len: nat)
    requires GoodBy(w, d, owner, stacks) && Legal(w, Give(o, len)) && !Recycled(len)
    ensures Good(Step(w, Give(o, len)), d)
  {
    DropKeeps(w.arena, d, owner, stacks, o, len);
    GiveHeap(w, d, owner, o, len, owner - {o});
    assert GoodBy(Step(w, Give(o, len)), d, owner - {o}, stacks);
  }

  lemma GiveGood(w: World, d: Demand, o: nat, len: nat)
    requires Good(w, d) && Disciplined(d) && Legal(w, Give(o, len))
    ensures Good(Step(w, Give(o, len)), d)
  {
    var owner: Owners, stacks: Stacks :| GoodBy(w, d, owner, stacks);
    if Recycled(len) {
      PushGood(w, d, owner, stacks, o, len);
    } else {
      DropGood(w, d, owner, stacks, o, len);
    }
  }

  /** Giving a block back writes inside that block only. */
  lemma FreeElsewhere(a: State, o: nat, len: nat, block: nat, b: Block)
    requires Shape(a) && Fits(b, a.mem) && Disjoint(Block(o, block), b)
    requires Recycled(len) ==> NODE <= block
    ensures |Free(a, o, len).mem| == |a.mem| && Read(Free(a, o, len).mem, b) == Read(a.mem, b)
  {
  }

  lemma PutIntact(w: World, d: Demand, owner: Owners, o: nat, at: nat, data: Bytes, p: nat)
    requires HeapOk(w, owner) && Legal(w, Put(o, at, data)) && o in owner
    requires p in w.heap && (p == o || Apart(owner, o, p, d.words))
    ensures Intact(Step(w, Put(o, at, data)), p)
  {
    assert Intact(w, p) && Intact(w, o);
    var b := Block(p, |w.heap[p]|);
    if p == o {
      WriteInside(w.arena.mem, o, w.heap[o], at, data);
    } else {
      assert Disjoint(Block(o + at, |data|), b);
      ReadElsewhere(w.arena.mem, o + at, data, b);
    }
  }

  lemma PutHeap(w: World, d: Demand, owner: Owners, o: nat, at: nat, data: Bytes)
    requires HeapOk(w, owner) && Legal(w, Put(o, at, data)) && o in owner
    requires forall p {:trigger Apart(owner, o, p, d.words)} :: p in owner && p != o ==> Apart(owner, o, p, d.words)
    ensures HeapOk(Step(w, Put(o, at, data)), owner)
  {
    var w' := Step(w, Put(o, at, data));
    forall p | p in w.heap
      ensures Intact(w', p)
    {
      assert p != o ==> Apart(owner, o, p, d.words);
      PutIntact(w, d, owner, o, at, data, p);
    }
  }

  lemma PutGood(w: World, d: Demand, o: nat, at: nat, data: Bytes)
    requires Good(w, d) && Legal(w, Put(o, at, data))
    ensures Good(Step(w, Put(o, at, data)), d)
  {
    var owner: Owners, stacks: Stacks :| GoodBy(w, d, owner, stacks);
    ClientWriteKeeps(w.arena, d, owner, stacks, o, at, data);
    PutHeap(w, d, owner, o, at, data);
    assert GoodBy(Step(w, Put(o, at, data)), d, owner, stacks);
  }

  lemma WriteInside(mem: Bytes, o: nat, block: Bytes, at: nat, data: Bytes)
    requires o + |block| <= |mem| && at + |data| <= |block|
    requires Read(mem, Block(o, |block|)) == block
    ensures Read(Write(mem, o + at, data), Block(o, |block|)) == Write(block, at, data)
  {
  }

  lemma FreshGood(w: World, d: Demand)
    requires IsFresh(w) && OnGrain(w.arena.limit, d.words)
    ensures Good(w, d)
  {
    var stacks := seq(CLASSES, _ => []);
    assert GoodBy(w, d, map[], stacks);
  }

  lemma {:induction false} RunGood(d: Demand, ops: seq<Op>, ws: seq<World>, n: nat)
    requires Disciplined(d) && IsRun(ops, ws) && Uses(ops, ws, d) && n < |ws|
    ensures Good(ws[n], d)
  {
    if n == 0 {
      FreshGood(ws[0], d);
    } else {
      RunGood(d, ops, ws, n - 1);
      var w, op := ws[n - 1], ops[n - 1];
      match op
      case Alloc(size, align) => AllocGood(w, d, size, align);
      case Give(o, len) => GiveGood(w, d, o, len);
      case Put(o, at, data) => PutGood(w, d, o, at, data);
    }
  }

  /** In a disciplined run every state is safe, and every allocation that
      succeeds returns an aligned offset that no live block has. */
  lemma DisciplinedRunsAreSafe(d: Demand, ops: seq<Op>, ws: seq<World>, n: nat)
    requires Disciplined(d) && IsRun(ops, ws) && Uses(ops, ws, d) && n < |ws|
    ensures Safe(ws[n])
    ensures n < |ops| && ops[n].Alloc? ==>
              var off := Offset(ws[n].arena, ops[n].size, ops[n].align);
              off == 0 || (off !in ws[n].heap && off % ops[n].align == 0)
  {
    RunGood(d, ops, ws, n);
    GoodIsSafe(ws[n], d);
    if n < |ops| && ops[n].Alloc? {
      AllocGood(ws[n], d, ops[n].size, ops[n].align);
    }
  }

  // -------------------------------------------------------------------- counters

  /** How many requests were served, and how many bytes they asked for. */
  function Served(ops: seq<Op>, ws: seq<World>): (nat, nat)
    requires |ws| == |ops| + 1 && forall n :: 0 <= n < |ops| ==> Legal(ws[n], ops[n])
  {
    if ops == [] then (0, 0)
    else
      var n := |ops| - 1;
      var (count, bytes) := Served(ops[..n], ws[..n + 1]);
      assert Legal(ws[n], ops[n]);
      if ops[n].Alloc? && Offset(ws[n].arena, ops[n].size, ops[n].align) != 0
      then (count + 1, bytes + ops[n].size) else (count, bytes)
  }

  /** How many blocks were given back, those of size zero aside. */
  function Returned(ops: seq<Op>): nat {
    if ops == [] then 0
    else
      var op := ops[|ops| - 1];
      Returned(ops[..|ops| - 1]) + if op.Give? && op.offset != 0 && op.len != 0 then 1 else 0
  }

  /** The three counters are exact in every run. */
  lemma {:induction false} CountersAreExact(ops: seq<Op>, ws: seq<World>)
    requires IsRun(ops, ws)
    ensures var a, b := ws[0].arena, ws[|ops|].arena;
            && b.allocationCount == a.allocationCount + Served(ops, ws).0
            && b.allocatedBytes == a.allocatedBytes + Served(ops, ws).1
            && b.freeCount == a.freeCount + Returned(ops)
  {
    if ops != [] {
      var n := |ops| - 1;
      assert IsRun(ops[..n], ws[..n + 1]);
      CountersAreExact(ops[..n], ws[..n + 1]);
      assert Legal(ws[n], ops[n]) && ws[n + 1] == Step(ws[n], ops[n]);
      if ops[n].Alloc? { BumpedIsNotZero(ws[n].arena, ops[n].size, ops[n].align); }
    }
  }

  lemma BumpedIsNotZero(a: State, size: nat, align: nat)
    requires Shape(a) && BumpAllocator.Sane(a.limit, size, align)
    ensures Offset(a, size, align) == 0 ==> Allocate(a, size, align) == a
  {
    BumpAllocator.SaneFits(a.limit, a.current, size, align);
  }

  // ----------------------------------------------------- the allocator contract

  ghost function LiveBlocks(heap: Heap): set<Block> {
    set o | o in heap :: Block(o, |heap[o]|)
  }

  lemma AllocMeets(w: World, d: Demand, size: nat, align: nat)
    requires Good(w, d) && Disciplined(d) && size in d.sizes && OnGrain(align, d.words) && Legal(w, Alloc(size, align))
    ensures GrantOk(w.arena.mem, LiveBlocks(w.heap), size,
                    Grant(Offset(w.arena, size, align), Allocate(w.arena, size, align).mem))
  {
    var w' := Step(w, Alloc(size, align));
    AllocGood(w, d, size, align);
    GoodIsSafe(w', d);
    var off := Offset(w.arena, size, align);
    if off != 0 {
      GrantedWhole(w, d, size, align);
      assert Intact(w', off);
      forall b | b in LiveBlocks(w.heap)
        ensures Disjoint(Block(off, size), b)
      {
        assert Separate(w', off, b.offset);
      }
    }
  }

  /** In a disciplined run `allocate` meets the contract that the hash table
      is proved against. */
  lemma AllocMeetsContract(d: Demand, ops: seq<Op>, ws: seq<World>, n: nat, size: nat, align: nat)
    requires Disciplined(d) && IsRun(ops, ws) && Uses(ops, ws, d) && n < |ws|
    requires size in d.sizes && OnGrain(align, d.words) && Legal(ws[n], Alloc(size, align))
    ensures GrantOk(ws[n].arena.mem, LiveBlocks(ws[n].heap), size,
                    Grant(Offset(ws[n].arena, size, align), Allocate(ws[n].arena, size, align).mem))
  {
    RunGood(d, ops, ws, n);
    AllocMeets(ws[n], d, size, align);
  }

  lemma GrantedWhole(w: World, d: Demand, size: nat, align: nat)
    requires Good(w, d) && Disciplined(d) && size in d.sizes && OnGrain(align, d.words) && Legal(w, Alloc(size, align))
    requires Offset(w.arena, size, align) != 0
    ensures |Granted(w.arena, size, align)| == size
  {
    var owner: Owners, stacks: Stacks :| GoodBy(w, d, owner, stacks);
    var off := Offset(w.arena, size, align);
    if FromFreeList(w.arena, size, align).Some? {
      PopKeeps(w.arena, d, owner, stacks, size, align);
      assert UseOk(w.arena, d, stacks, off, owner[off]);
      RoomBelow(w.arena.current, w.arena.limit, d.words);
    } else {
      BumpAllocator.SaneFits(w.arena.limit, w.arena.current, size, align);
    }
  }

  lemma FreeMeets(w: World, d: Demand, o: nat, len: nat)
    requires Good(w, d) && Disciplined(d) && Legal(w, Give(o, len))
    ensures Keeps(w.arena.mem, LiveBlocks(w.heap - {o}), Free(w.arena, o, len).mem)
  {
    var w' := Step(w, Give(o, len));
    GoodIsSafe(w, d);
    GiveGood(w, d, o, len);
    GoodIsSafe(w', d);
    forall b | b in LiveBlocks(w.heap - {o}) && Fits(b, w.arena.mem)
      ensures |w'.arena.mem| == |w.arena.mem| && Read(w'.arena.mem, b) == Read(w.arena.mem, b)
    {
      assert Intact(w, b.offset) && Intact(w', b.offset);
    }
  }

  /** And `free`, also with less than the size of the block, leaves the bytes
      of all other live blocks alone. */
  lemma FreeMeetsContract(d: Demand, ops: seq<Op>, ws: seq<World>, n: nat, o: nat, len: nat)
    requires Disciplined(d) && IsRun(ops, ws) && Uses(ops, ws, d) && n < |ws|
    requires Legal(ws[n], Give(o, len))
    ensures Keeps(ws[n].arena.mem, LiveBlocks(ws[n].heap - {o}), Free(ws[n].arena, o, len).mem)
  {
    RunGood(d, ops, ws, n);
    FreeMeets(ws[n], d, o, len);
  }

  // ------------------------------------------------ undisciplined sizes break runs

  /** A fresh arena of `room` bytes after an 8-byte header. */
  function FreshWorld(room: nat): (w: World)
    requires room < 0x1_0000_0000
    ensures IsFresh(w) && w.arena.start == 8 && w.arena.limit == 8 + room
  {
    World(State(8, 8 + room, 8, seq(CLASSES, _ => 0), seq(8 + room, _ => 0), 0, 0, 0), map[])
  }

  lemma ClearLowest(x: nat, m: nat)
    ensures BumpAllocator.ClearBits(x, 2 * m + 1) == 2 * BumpAllocator.ClearBits(x / 2, m)
  {
  }

  /** Clearing three bits rounds down to a multiple of 8. */
  lemma MaskOfEight(x: nat) returns (q: nat)
    ensures BumpAllocator.AlignDown(x, 8) == 8 * q <= x < 8 * q + 8
  {
    var y := x / 2;
    var z := y / 2;
    q := z / 2;
    ClearLowest(x, 3);
    ClearLowest(y, 1);
    ClearLowest(z, 0);
  }

  /** Requests with this alignment get the next room. */
  ghost predicate OnRooms(align: nat, words: bool) {
    && BumpAllocator.PowerOfTwo(align) && 0 < align <= 8 && OnGrain(align, words) && 8 % align == 0
    && forall n: nat :: n < 0x1_0000_1000 ==> BumpAllocator.Aligned(n, align) == Room(n, words)
  }

  lemma {:induction false} EightsIs(n: nat, q: nat)
    requires n <= 8 * q < n + 8
    ensures Eights(n) == 8 * q
  {
    if q > 0 && n > 8 { EightsIs(n - 8, q - 1); }
  }

  lemma AlignsToEight(n: nat, align: nat)
    requires n < 0x1_0000_1000 && align == 8
    ensures BumpAllocator.Aligned(n, align) == Eights(n)
  {
    var q := MaskOfEight(n + 7);
    BumpAllocator.AlignedIs(n, align);
    EightsIs(n, q);
  }

  lemma GrainExists(words: bool) returns (align: nat)
    ensures OnRooms(align, words)
  {
    if words {
      align := 8;
      assert BumpAllocator.PowerOfTwo(4) && OfEights(0);
      forall n: nat | n < 0x1_0000_1000 ensures BumpAllocator.Aligned(n, align) == Room(n, words) {
        AlignsToEight(n, align);
      }
    } else {
      align := 1;
    }
  }

  /** Without a free block, a request takes the next room. */
  lemma BumpTakesNext(w: World, size: nat, align: nat, off: nat) returns (w': World)
    requires Shape(w.arena) && w.arena.limit < 0x1_0000_1000 && 0 < size < 0x1_0000
    requires forall c :: 0 <= c < CLASSES ==> w.arena.heads[c] == 0
    requires BumpAllocator.PowerOfTwo(align) && 0 < align <= 8 && BumpAllocator.Aligned(w.arena.current, align) == off
    requires 0 < off && off + size <= w.arena.limit
    ensures Legal(w, Alloc(size, align)) && w' == Step(w, Alloc(size, align))
    ensures w'.arena == w.arena.(current := off + size,
                                 allocatedBytes := w.arena.allocatedBytes + size,
                                 allocationCount := w.arena.allocationCount + 1)
    ensures w'.heap == w.heap[off := Read(w.arena.mem, Block(off, size))]
  {
    w' := Step(w, Alloc(size, align));
  }

  lemma NodeByte(size: nat, i: nat)
    requires size < 255 && i < NODE
    ensures Node(0, size)[i] != 255
  {
  }

  lemma RunStarts(w: World)
    requires IsFresh(w)
    ensures IsRun([], [w])
  {
  }

  lemma RunGoesOn(ops: seq<Op>, ws: seq<World>, o: Op, w': World)
    requires IsRun(ops, ws) && Legal(ws[|ops|], o) && w' == Step(ws[|ops|], o)
    ensures IsRun(ops + [o], ws + [w'])
  {
  }

  predicate AsDemanded(op: Op, d: Demand) {
    op.Alloc? ==> op.size in d.sizes && OnGrain(op.align, d.words)
  }

  lemma UseGoesOn(ops: seq<Op>, ws: seq<World>, o: Op, w': World, d: Demand)
    requires |ws| > 0 && Uses(ops, ws, d) && AsDemanded(o, d)
    ensures Uses(ops + [o], ws + [w'], d)
  {
  }

  lemma HeaderOnGrain(n: nat, words: bool)
    requires OnGrain(n, words)
    ensures OnGrain(8 + n, words) && Room(8, words) == 8
  {
    if words { EightsFrom(8, n); }
  }

  lemma TwoSteps(w: World, o: Op, w1: World, o1: Op, w2: World, d: Demand) returns (ops: seq<Op>, ws: seq<World>)
    requires IsFresh(w) && OnGrain(w.arena.limit, d.words) && AsDemanded(o, d) && AsDemanded(o1, d)
    requires Legal(w, o) && w1 == Step(w, o) && Legal(w1, o1) && w2 == Step(w1, o1)
    ensures IsRun(ops, ws) && Uses(ops, ws, d) && |ws| == 3 && w2 == ws[|ops|]
  {
    RunStarts(w);
    RunGoesOn([], [w], o, w1);
    UseGoesOn([], [w], o, w1, d);
    RunGoesOn([] + [o], [w] + [w1], o1, w2);
    UseGoesOn([] + [o], [w] + [w1], o1, w2, d);
    ops, ws := [] + [o] + [o1], [w] + [w1] + [w2];
  }

  /** Two blocks of `size` bytes are taken from a fresh arena. */
  lemma TwoBlocks(size: nat, room: nat, align: nat, d: Demand) returns (ops: seq<Op>, ws: seq<World>, w2: World)
    requires OnRooms(align, d.words) && 0 < size <= 32768 && 2 * Room(size, d.words) <= room < 0x1_0000_0000
    requires size in d.sizes && OnGrain(room, d.words)
    ensures IsRun(ops, ws) && Uses(ops, ws, d) && w2 == ws[|ops|]
    ensures Shape(w2.arena) && w2.arena.limit == 8 + room && w2.arena.start == 8
    ensures forall c :: 0 <= c < CLASSES ==> w2.arena.heads[c] == 0
    ensures var next := 8 + Room(size, d.words);
            8 in w2.heap && next in w2.heap && |w2.heap[8]| == |w2.heap[next]| == size
  {
    HeaderOnGrain(room, d.words);
    RoomFrom(8, size, d.words);
    ops, ws, w2 := TwoBlocksAt(size, room, align, d, 8 + Room(size, d.words));
  }

  lemma TwoBlocksAt(size: nat, room: nat, align: nat, d: Demand, next: nat) returns (ops: seq<Op>, ws: seq<World>, w2: World)
    requires BumpAllocator.PowerOfTwo(align) && 0 < align <= 8 && OnGrain(align, d.words) && OnGrain(8 + room, d.words)
    requires BumpAllocator.Aligned(8, align) == 8 && BumpAllocator.Aligned(8 + size, align) == next
    requires 0 < size <= 32768 && 8 + size <= next && next + size <= 8 + room && room < 0x1_0000_0000 && size in d.sizes
    ensures IsRun(ops, ws) && Uses(ops, ws, d) && w2 == ws[|ops|]
    ensures Shape(w2.arena) && w2.arena.limit == 8 + room && w2.arena.start == 8
    ensures forall c :: 0 <= c < CLASSES ==> w2.arena.heads[c] == 0
    ensures 8 in w2.heap && next in w2.heap && |w2.heap[8]| == |w2.heap[next]| == size
  {
    var w := FreshWorld(room);
    var w1 := BumpTakesNext(w, size, align, 8);
    w2 := BumpTakesNext(w1, size, align, next);
    ops, ws := TwoSteps(w, Alloc(size, align), w1, Alloc(size, align), w2, d);
  }

  /** Two more steps lead to a state that is not safe. */
  lemma TwoMoreBreak(ops: seq<Op>, ws: seq<World>, o: Op, w1: World, o1: Op, w2: World, d: Demand)
    requires IsRun(ops, ws) && Uses(ops, ws, d) && AsDemanded(o, d) && AsDemanded(o1, d)
    requires Legal(ws[|ops|], o) && w1 == Step(ws[|ops|], o) && Legal(w1, o1) && w2 == Step(w1, o1) && !Safe(w2)
    ensures IsRun(ops + [o] + [o1], ws + [w1] + [w2]) && Uses(ops + [o] + [o1], ws + [w1] + [w2], d)
    ensures !Safe((ws + [w1] + [w2])[|ops| + 2])
  {
    RunGoesOn(ops, ws, o, w1);
    UseGoesOn(ops, ws, o, w1, d);
    RunGoesOn(ops + [o], ws + [w1], o1, w2);
    UseGoesOn(ops + [o], ws + [w1], o1, w2, d);
  }

  /** A free node for a small class, written over two small blocks. */
  lemma NodeSpills(w: World, size: nat, at: nat)
    requires Shape(w.arena) && Recycled(size) && size <= at < NODE && 8 + NODE <= |w.arena.mem|
    requires w.arena.heads[Class(size)] == 0
    ensures Free(w.arena, 8, size).mem[8 + at] != 255
  {
    var c := Class(size);
    ClassFits(size);
    NodeByte(ClassSize(c), at);
    WriteAt(w.arena.mem, 8, Node(0, ClassSize(c)), 8 + at);
  }

  /** Giving back the first of two small blocks overwrites the second one. */
  lemma NeighbourLost(w: World, size: nat, at: nat)
    requires Shape(w.arena) && Recycled(size) && size <= at < NODE && 8 + 2 * NODE <= |w.arena.mem|
    requires w.arena.heads[Class(size)] == 0
    requires 8 in w.heap && |w.heap[8]| == size && 8 + at in w.heap && |w.heap[8 + at]| == size
    ensures Legal(w, Put(8 + at, 0, [255]))
    ensures Legal(Step(w, Put(8 + at, 0, [255])), Give(8, size))
    ensures !Safe(Step(Step(w, Put(8 + at, 0, [255])), Give(8, size)))
  {
    var w' := Step(w, Put(8 + at, 0, [255]));
    var w'' := Step(w', Give(8, size));
    NodeSpills(w', size, at);
    assert w''.heap[8 + at][0] == 255;
    assert !Intact(w'', 8 + at);
  }

  lemma NeighbourLostInRun(ops: seq<Op>, ws: seq<World>, w: World, size: nat, at: nat, d: Demand)
      returns (ops': seq<Op>, ws': seq<World>)
    requires IsRun(ops, ws) && Uses(ops, ws, d) && w == ws[|ops|]
    requires Shape(w.arena) && Recycled(size) && size <= at < NODE && 8 + 2 * NODE <= |w.arena.mem|
    requires w.arena.heads[Class(size)] == 0
    requires 8 in w.heap && |w.heap[8]| == size && 8 + at in w.heap && |w.heap[8 + at]| == size
    ensures IsRun(ops', ws') && Uses(ops', ws', d) && !Safe(ws'[|ops'|])
  {
    var put, give := Put(8 + at, 0, [255]), Give(8, size);
    NeighbourLost(w, size, at);
    var w1 := Step(w, put);
    var w2 := Step(w1, give);
    TwoMoreBreak(ops, ws, put, w1, give, w2, d);
    ops', ws' := ops + [put] + [give], ws + [w1] + [w2];
  }

  /** A block without the room of a free node: giving it back overwrites the
      first byte of its neighbour. */
  lemma SmallBlockBreaks(size: nat, words: bool) returns (ops: seq<Op>, ws: seq<World>)
    requires Recycled(size) && Room(size, words) < NODE
    ensures IsRun(ops, ws) && Uses(ops, ws, Demand({size}, words)) && !Safe(ws[|ops|])
  {
    var align := GrainExists(words);
    var d := Demand({size}, words);
    if words { MultipleOfEight(size, 8); }
    var w;
    ops, ws, w := TwoBlocks(size, 8 * size, align, d);
    ops, ws := NeighbourLostInRun(ops, ws, w, size, Room(size, words), d);
  }

  /** The top of the free list is handed out whatever its real size. */
  lemma HandsOutTop(w: World, size: nat, large: nat, align: nat)
    requires Shape(w.arena) && Recycled(size) && Recycled(large) && Class(size) == Class(large)
    requires 8 in w.heap && |w.heap[8]| == size && 8 + NODE <= |w.arena.mem| && 8 + large <= |w.arena.mem|
    requires align > 0 && 8 % align == 0
    ensures Legal(w, Give(8, size))
    ensures var w' := Step(w, Give(8, size));
            && Shape(w'.arena) && w'.arena.limit == w.arena.limit && w'.heap == w.heap - {8}
            && Offset(w'.arena, large, align) == 8 && |Granted(w'.arena, large, align)| == large
  {
  }

  /** Handed out as the larger size, the first of two blocks reaches over the second. */
  lemma HandedOver(w: World, small: nat, large: nat, next: nat, align: nat)
    requires Shape(w.arena) && Recycled(small) && Recycled(large) && Class(small) == Class(large)
    requires 8 < next < 8 + large && BumpAllocator.Sane(w.arena.limit, large, align) && 8 % align == 0
    requires 8 in w.heap && |w.heap[8]| == small && next in w.heap && |w.heap[next]| == small
    requires 8 + NODE <= |w.arena.mem| && 8 + large <= |w.arena.mem|
    ensures Legal(w, Give(8, small)) && Legal(Step(w, Give(8, small)), Alloc(large, align))
    ensures !Safe(Step(Step(w, Give(8, small)), Alloc(large, align)))
  {
    HandsOutTop(w, small, large, align);
    var w' := Step(Step(w, Give(8, small)), Alloc(large, align));
    assert next in w'.heap;
    assert !Separate(w', 8, next);
  }

  lemma HandedOverInRun(ops: seq<Op>, ws: seq<World>, w: World, small: nat, large: nat, next: nat, align: nat, d: Demand)
      returns (ops': seq<Op>, ws': seq<World>)
    requires IsRun(ops, ws) && Uses(ops, ws, d) && w == ws[|ops|] && large in d.sizes && OnGrain(align, d.words)
    requires Shape(w.arena) && Recycled(small) && Recycled(large) && Class(small) == Class(large)
    requires 8 < next < 8 + large && BumpAllocator.Sane(w.arena.limit, large, align) && 8 % align == 0
    requires 8 in w.heap && |w.heap[8]| == small && next in w.heap && |w.heap[next]| == small
    requires 8 + NODE <= |w.arena.mem| && 8 + large <= |w.arena.mem|
    ensures IsRun(ops', ws') && Uses(ops', ws', d) && !Safe(ws'[|ops'|])
  {
    var give, again := Give(8, small), Alloc(large, align);
    HandedOver(w, small, large, next, align);
    var w1 := Step(w, give);
    var w2 := Step(w1, again);
    TwoMoreBreak(ops, ws, give, w1, again, w2, d);
    ops', ws' := ops + [give] + [again], ws + [w1] + [w2];
  }

  /** Two sizes of one class, one beyond the room of the other: a block given
      back as the smaller one is handed out as the larger, over its neighbour. */
  lemma MixedClassBreaks(small: nat, large: nat, words: bool) returns (ops: seq<Op>, ws: seq<World>)
    requires Recycled(small) && Recycled(large) && Class(small) == Class(large) && Room(small, words) < large
    ensures IsRun(ops, ws) && Uses(ops, ws, Demand({small, large}, words)) && !Safe(ws[|ops|])
  {
    var align := GrainExists(words);
    var d := Demand({small, large}, words);
    if words { MultipleOfEight(large, 8); }
    var w;
    ops, ws, w := TwoBlocks(small, 8 * large, align, d);
    ops, ws := HandedOverInRun(ops, ws, w, small, large, 8 + Room(small, words), align, d);
  }

  ghost predicate AllRunsSafe(d: Demand) {
    forall ops: seq<Op>, ws: seq<World>, n: nat :: IsRun(ops, ws) && Uses(ops, ws, d) && n < |ws| ==> Safe(ws[n])
  }

  lemma MoreSizes(ops: seq<Op>, ws: seq<World>, sizes: set<nat>, d: Demand)
    requires |ws| > 0 && Uses(ops, ws, Demand(sizes, d.words)) && sizes <= d.sizes
    ensures Uses(ops, ws, d)
  {
  }

  /** Clients that ask for the given sizes only, with any alignment or with
      alignments of 8 only, are always safe if and only if the sizes are
      disciplined. */
  lemma SafeIffDisciplined(d: Demand)
    ensures AllRunsSafe(d) <==> Disciplined(d)
  {
    if Disciplined(d) {
      forall ops: seq<Op>, ws: seq<World>, n: nat | IsRun(ops, ws) && Uses(ops, ws, d) && n < |ws|
        ensures Safe(ws[n])
      {
        DisciplinedRunsAreSafe(d, ops, ws, n);
      }
    } else {
      var s, t :| s in d.sizes && t in d.sizes && Recycled(s) && Recycled(t) &&
                  !(Room(s, d.words) >= NODE && (Class(s) == Class(t) ==> t <= Room(s, d.words)));
      var ops, ws;
      if Room(s, d.words) < NODE {
        ops, ws := SmallBlockBreaks(s, d.words);
        MoreSizes(ops, ws, {s}, d);
      } else {
        ops, ws := MixedClassBreaks(s, t, d.words);
        MoreSizes(ops, ws, {s, t}, d);
      }
      assert IsRun(ops, ws) && Uses(ops, ws, d) && !Safe(ws[|ops|]);
    }
  }

  /** Under any alignment a disciplined size is alone in its class. */
  lemma DisciplinedBytes(sizes: set<nat>)
    ensures Disciplined(Demand(sizes, false)) <==>
            forall s, t :: s in sizes && t in sizes && Recycled(s) && Recycled(t) ==>
              s >= NODE && (Class(s) == Class(t) ==> s == t)
  {
    assert forall s :: Room(s, false) == s;
  }
}
