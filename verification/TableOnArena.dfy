/**
 The hash table on the arena: which blocks of the arena hold its records, and
 why the arena's answers are the ones the table is proved against. A record
 may be shorter than its block, since an overwrite that fits keeps the block.
 */
module TableOnArena {
  import opened Memory
  import opened Probing
  import A = Arena
  import R = ArenaRuns

  /** Every live slot but `except` has a live block of the arena to itself, and
      its record lies at the start of that block. */
  ghost predicate Housed(es: seq<Entry>, except: int, heap: R.Heap) {
    && (forall i {:trigger LiveAt(es, i)} :: LiveAt(es, i) && i != except ==>
          es[i].offset in heap && BlockOf(es[i]).len <= |heap[es[i].offset]|)
    && (forall i, j {:trigger LiveAt(es, i), LiveAt(es, j)} ::
          LiveAt(es, i) && LiveAt(es, j) && i != j && i != except && j != except ==> es[i].offset != es[j].offset)
  }

  lemma ReadStart(mem: Bytes, mem': Bytes, o: nat, len: nat, part: nat)
    requires |mem'| == |mem| && o + len <= |mem| && part <= len
    requires Read(mem', Block(o, len)) == Read(mem, Block(o, len))
    ensures Read(mem', Block(o, part)) == Read(mem, Block(o, part))
  {
    assert Read(mem, Block(o, part)) == Read(mem, Block(o, len))[..part];
    assert Read(mem', Block(o, part)) == Read(mem', Block(o, len))[..part];
  }

  /** An arena that keeps its live blocks keeps the records in them, and a
      block apart from its live blocks is apart from the records. */
  lemma ArenaGrants(es: seq<Entry>, except: int, heap: R.Heap, mem: Bytes, size: nat, g: Grant)
    requires Housed(es, except, heap) && GrantOk(mem, R.LiveBlocks(heap), size, g)
    requires forall o :: o in heap ==> Fits(Block(o, |heap[o]|), mem)
    ensures Granted(es, except, mem, size, g)
  {
    forall i | LiveAt(es, i) && i != except
      ensures Read(g.bytes, BlockOf(es[i])) == Read(mem, BlockOf(es[i]))
      ensures g.offset != 0 ==> Disjoint(Block(g.offset, size), BlockOf(es[i]))
    {
      var o := es[i].offset;
      assert Block(o, |heap[o]|) in R.LiveBlocks(heap);
      ReadStart(mem, g.bytes, o, |heap[o]|, BlockOf(es[i]).len);
    }
  }

  lemma BlocksFit(w: R.World, d: A.Demand)
    requires R.Good(w, d)
    ensures forall o :: o in w.heap ==> Fits(Block(o, |w.heap[o]|), w.arena.mem)
  {
    R.GoodIsSafe(w, d);
    forall o | o in w.heap ensures Fits(Block(o, |w.heap[o]|), w.arena.mem) {
      assert R.Intact(w, o);
    }
  }

  /** What the arena answers when asked for a block. */
  function Answer(a: A.State, size: nat, align: nat): Grant
    requires A.Shape(a) && align > 0
  {
    Grant(A.Offset(a, size, align), A.Allocate(a, size, align).mem)
  }

  /** A request the arena is used with: of a demanded size that overflows no
      64-bit sum, or of size zero, which is refused. */
  ghost predicate Asked(w: R.World, d: A.Demand, size: nat, align: nat) {
    && A.Shape(w.arena) && align > 0
    && (size > 0 ==> size in d.sizes && A.OnGrain(align, d.words) && R.Legal(w, R.Alloc(size, align)))
  }

  /** The arena's answer to a fresh insertion is one the table is proved against. */
  lemma AllocateGrants(w: R.World, d: A.Demand, es: seq<Entry>, except: int, size: nat, align: nat)
    requires A.Disciplined(d) && R.Good(w, d) && Housed(es, except, w.heap) && Asked(w, d, size, align)
    ensures Granted(es, except, w.arena.mem, size, Answer(w.arena, size, align))
  {
    if size > 0 {
      BlocksFit(w, d);
      R.AllocMeets(w, d, size, align);
      ArenaGrants(es, except, w.heap, w.arena.mem, size, Answer(w.arena, size, align));
    }
  }

  /** Giving back one slot's block leaves the other slots housed. */
  lemma GiveKeepsHoused(es: seq<Entry>, s: nat, heap: R.Heap)
    requires Housed(es, -1, heap) && LiveAt(es, s)
    ensures Housed(es, s, heap - {es[s].offset})
  {
  }

  /** The record of a housed slot can be given back with the size it has now,
      or with less. */
  lemma GiveIsLegal(w: R.World, es: seq<Entry>, s: nat, len: nat)
    requires A.Shape(w.arena) && Housed(es, -1, w.heap) && LiveAt(es, s) && len <= BlockOf(es[s]).len
    ensures R.Legal(w, R.Give(es[s].offset, len))
  {
  }

  lemma FreedKeepsOthers(w: R.World, d: A.Demand, es: seq<Entry>, s: nat, len: nat)
    requires A.Disciplined(d) && R.Good(w, d) && A.Shape(w.arena)
    requires Housed(es, -1, w.heap) && LiveAt(es, s) && len <= BlockOf(es[s]).len
    ensures SameElsewhere(es, s, w.arena.mem, A.Free(w.arena, es[s].offset, len).mem)
  {
    var o := es[s].offset;
    BlocksFit(w, d);
    GiveIsLegal(w, es, s, len);
    R.FreeMeets(w, d, o, len);
    GiveKeepsHoused(es, s, w.heap);
    ArenaGrants(es, s, w.heap - {o}, w.arena.mem, 0, Grant(0, A.Free(w.arena, o, len).mem));
  }

  /** `free` as a removal makes it, with the 32-bit sum of the lengths: all
      other records keep their bytes. */
  lemma FreeGrants(w: R.World, d: A.Demand, es: seq<Entry>, s: nat)
    requires A.Disciplined(d) && R.Good(w, d) && A.Shape(w.arena)
    requires Housed(es, -1, w.heap) && LiveAt(es, s)
    ensures SameElsewhere(es, s, w.arena.mem, A.Free(w.arena, es[s].offset, Wrap32(BlockOf(es[s]).len)).mem)
  {
    FreedKeepsOthers(w, d, es, s, Wrap32(BlockOf(es[s]).len));
  }

  /** A growing write gives the record's block back, with the record's size,
      and then allocates: both steps together are an answer the table is
      proved against. */
  lemma GrowGrants(w: R.World, d: A.Demand, w': R.World, es: seq<Entry>, s: nat, size: nat, align: nat)
    requires A.Disciplined(d) && R.Good(w, d) && A.Shape(w.arena)
    requires Housed(es, -1, w.heap) && LiveAt(es, s)
    requires var give := R.Give(es[s].offset, BlockOf(es[s]).len); R.Legal(w, give) && w' == R.Step(w, give)
    requires Asked(w', d, size, align)
    ensures R.Good(w', d) && Housed(es, s, w'.heap)
    ensures Granted(es, s, w.arena.mem, size, Answer(w'.arena, size, align))
  {
    R.GiveGood(w, d, es[s].offset, BlockOf(es[s]).len);
    GiveKeepsHoused(es, s, w.heap);
    FreedKeepsOthers(w, d, es, s, BlockOf(es[s]).len);
    AllocateGrants(w', d, es, s, size, align);
  }

  // ----------------------------------------------------- housing is kept up

  /** A record stored in a block that no other record uses. */
  lemma StoreKeepsHoused(es: seq<Entry>, s: nat, e: Entry, heap: R.Heap, block: Bytes)
    requires s < |es| && Housed(es, s, heap) && e.offset !in heap && BlockOf(e).len <= |block|
    ensures Housed(es[s := e], -1, heap[e.offset := block])
  {
    var es' := es[s := e];
    assert forall i {:trigger LiveAt(es', i)} :: LiveAt(es', i) && i != s ==> LiveAt(es, i) && es'[i] == es[i];
  }

  /** A record overwritten in its own block by one that fits. */
  lemma ShrinkKeepsHoused(es: seq<Entry>, s: nat, e: Entry, heap: R.Heap)
    requires Housed(es, -1, heap) && LiveAt(es, s)
    requires e.offset == es[s].offset && BlockOf(e).len <= BlockOf(es[s]).len
    ensures Housed(es[s := e], -1, heap)
  {
    var es' := es[s := e];
    assert forall i {:trigger LiveAt(es', i)} :: LiveAt(es', i) ==> LiveAt(es, i) && es'[i].offset == es[i].offset;
  }

  /** A tombstone in place of a record whose block was given back. */
  lemma BuryKeepsHoused(es: seq<Entry>, s: nat, es': seq<Entry>, heap: R.Heap)
    requires Housed(es, -1, heap) && LiveAt(es, s) && Changes(es, s, es') && !Live(es'[s])
    ensures Housed(es', -1, heap - {es[s].offset})
  {
    assert forall i {:trigger LiveAt(es', i)} :: LiveAt(es', i) ==> i != s && LiveAt(es, i) && es'[i] == es[i];
  }

  // -------------------------------------------------------- growth that fails

  lemma RecycledHoldsNode(w: R.World, d: A.Demand, o: nat, len: nat)
    requires R.Good(w, d) && A.Disciplined(d) && o in w.heap && len <= |w.heap[o]| && A.Recycled(len)
    ensures 0 < o && o + A.NODE <= |w.arena.mem|
  {
    var owner: A.Owners, stacks: A.Stacks :| R.GoodBy(w, d, owner, stacks);
    assert A.UseOk(w.arena, d, stacks, o, owner[o]);
    A.ServesSmaller(d, owner[o].len, len);
    A.RoomBelow(w.arena.current, w.arena.limit, d.words);
  }

  /** The part of a record that a free node written over it covers. */
  function Covered(len: nat): (m: nat) {
    if len < A.NODE then len else A.NODE
  }

  lemma NodeWritten(mem: Bytes, b: Block, node: Bytes, i: nat)
    requires |node| == A.NODE && b.offset + A.NODE <= |mem| && Fits(b, mem) && i < b.len
    ensures Read(Write(mem, b.offset, node), b)[i] == if i < A.NODE then node[i] else Read(mem, b)[i]
  {
    WriteAt(mem, b.offset, node, b.offset + i);
  }

  /** Writing a node over a record leaves it as it was exactly if the record
      already had the bytes of the node. */
  lemma NodeShows(mem: Bytes, b: Block, node: Bytes)
    requires |node| == A.NODE && b.offset + A.NODE <= |mem| && Fits(b, mem)
    ensures Read(Write(mem, b.offset, node), b) == Read(mem, b) <==>
            Read(mem, b)[..Covered(b.len)] == node[..Covered(b.len)]
  {
    var m, before, after := Covered(b.len), Read(mem, b), Read(Write(mem, b.offset, node), b);
    forall i | 0 <= i < b.len ensures after[i] == if i < A.NODE then node[i] else before[i] {
      NodeWritten(mem, b, node, i);
    }
    SameIffStart(before, after, node, m);
  }

  lemma SameIffStart(before: Bytes, after: Bytes, node: Bytes, m: nat)
    requires m <= |before| == |after| && m <= |node|
    requires forall i :: 0 <= i < |after| ==> after[i] == if i < m then node[i] else before[i]
    ensures after == before <==> before[..m] == node[..m]
  {
    assert after[..m] == node[..m] && after[m..] == before[m..];
    assert after == after[..m] + after[m..] && before == before[..m] + before[m..];
  }

  /** The record starts with the bytes of the node that freeing it would write. */
  ghost predicate LooksFree(a: A.State, b: Block)
    requires A.Shape(a) && A.Recycled(b.len) && Fits(b, a.mem)
  {
    Read(a.mem, b)[..Covered(b.len)] ==
      A.Node(a.heads[A.Class(b.len)], A.ClassSize(A.Class(b.len)))[..Covered(b.len)]
  }

  lemma FreeShows(a: A.State, b: Block)
    requires A.Shape(a) && Fits(b, a.mem) && (A.Recycled(b.len) ==> 0 < b.offset && b.offset + A.NODE <= |a.mem|)
    ensures |A.Free(a, b.offset, b.len).mem| == |a.mem|
    ensures Read(A.Free(a, b.offset, b.len).mem, b) == Read(a.mem, b) <==> (A.Recycled(b.len) ==> LooksFree(a, b))
    ensures A.Recycled(b.len) ==> A.Free(a, b.offset, b.len).heads[A.Class(b.len)] == b.offset
  {
    if A.Recycled(b.len) {
      NodeShows(a.mem, b, A.Node(a.heads[A.Class(b.len)], A.ClassSize(A.Class(b.len))));
    }
  }

  /** A growing write whose allocation fails has freed the block of its record
      before. The table then still stands exactly if the record is of a size
      that is not recycled, or happens to start with the very bytes of the free
      node. Unless it is of such a size its block heads a free list. */
  lemma FailedGrowthOnArenaIff(raw: RawHash, es: seq<Entry>, slot: Slots, key: Bytes,
      w: R.World, d: A.Demand, size: nat, align: nat)
    requires A.Disciplined(d) && R.Good(w, d) && A.Shape(w.arena) && align > 0
    requires Rep(raw, es, w.arena.mem, slot) && Housed(es, -1, w.heap) && key in slot && slot[key] < |es|
    requires var b := BlockOf(es[slot[key]]); A.Offset(A.Free(w.arena, b.offset, b.len), size, align) == 0
    ensures var a, b := w.arena, BlockOf(es[slot[key]]);
            && Fits(b, a.mem)
            && (Survives(raw, es, a.mem, slot, A.Allocate(A.Free(a, b.offset, b.len), size, align).mem) <==>
                  (A.Recycled(b.len) ==> LooksFree(a, b)))
            && (A.Recycled(b.len) ==> A.Free(a, b.offset, b.len).heads[A.Class(b.len)] == b.offset)
  {
    var a, s := w.arena, slot[key];
    assert KeyOk(es, a.mem, slot, key) && LiveAt(es, s);
    var b := BlockOf(es[s]);
    FreedKeepsOthers(w, d, es, s, b.len);
    if A.Recycled(b.len) { RecycledHoldsNode(w, d, b.offset, b.len); }
    FreeShows(a, b);
    SurvivesIffSame(raw, es, a.mem, slot, key, A.Free(a, b.offset, b.len).mem);
    AllocateWritesNothing(A.Free(a, b.offset, b.len), size, align);
  }

  lemma AllocateWritesNothing(a: A.State, size: nat, align: nat)
    requires A.Shape(a) && align > 0
    ensures A.Allocate(a, size, align).mem == a.mem
  {
  }

  /** A table of one slot with a record of 16 bytes that fills its arena. */
  lemma FullArena(raw: RawHash, align: nat) returns (key: Bytes, ops: seq<R.Op>, ws: seq<R.World>, w: R.World)
    requires R.OnRooms(align, true)
    ensures |key| == 16 && key[0] == 255
    ensures R.IsRun(ops, ws) && R.Uses(ops, ws, A.Demand({16, 24}, true)) && |ws| == 3 && w == ws[2]
    ensures A.Shape(w.arena) && w.arena.current == w.arena.limit == 24 && w.arena.heads == seq(A.CLASSES, _ => 0)
    ensures 8 in w.heap && |w.heap[8]| == 16 && w.arena.mem[8..24] == key
  {
    key := seq(16, _ => 255);
    var d := A.Demand({16, 24}, true);
    var w0 := R.FreshWorld(16);
    A.OfEightsIff(w0.arena.limit);
    R.HeaderOnGrain(0, true);
    var w1 := R.BumpTakesNext(w0, 16, align, 8);
    w := R.Step(w1, R.Put(8, 0, key));
    ops, ws := R.TwoSteps(w0, R.Alloc(16, align), w1, R.Put(8, 0, key), w, d);
    assert Write(w1.arena.mem, 8, key)[8..24] == key;
  }

  lemma OneRecord(raw: RawHash, key: Bytes, mem: Bytes) returns (es: seq<Entry>, slot: Slots)
    requires |key| == 16 && |mem| == 24 && mem[8..24] == key
    ensures es == [Entry(HashKey(raw, key), 1, 16, 0, 8)] && slot == map[key := 0] && Rep(raw, es, mem, slot)
  {
    es, slot := [Entry(HashKey(raw, key), 1, 16, 0, 8)], map[key := 0];
    assert KeyOf(es[0], mem) == key;
  }

  /** A growing write that fails and takes the table down with it: 16 bytes
      fill an arena, 24 are asked for. */
  lemma FailedGrowthHappens(raw: RawHash) returns (es: seq<Entry>, slot: Slots, key: Bytes,
      d: A.Demand, ops: seq<R.Op>, ws: seq<R.World>, align: nat)
    ensures A.Disciplined(d) && R.IsRun(ops, ws) && R.Uses(ops, ws, d) && |ws| == 3 && 24 in d.sizes && align > 0
    ensures A.Shape(ws[2].arena) && Rep(raw, es, ws[2].arena.mem, slot) && Housed(es, -1, ws[2].heap)
    ensures key in slot && slot[key] == 0 && |es| == 1 && BlockOf(es[0]) == Block(8, 16)
    ensures var a := ws[2].arena;
            && A.Offset(A.Free(a, 8, 16), 24, align) == 0
            && !Survives(raw, es, a.mem, slot, A.Allocate(A.Free(a, 8, 16), 24, align).mem)
  {
    align := R.GrainExists(true);
    d := A.Demand({16, 24}, true);
    var w;
    key, ops, ws, w := FullArena(raw, align);
    es, slot := OneRecord(raw, key, w.arena.mem);
    SixteenAndTwentyFour();
    GrowthFails(w.arena, align);
    R.RunGood(d, ops, ws, 2);
    FailedGrowthOnArenaIff(raw, es, slot, key, w, d, 24, align);
    assert A.Node(0, 16)[0] == 0;
    assert Read(w.arena.mem, Block(8, 16))[..16][0] == 255;
  }

  lemma SixteenAndTwentyFour()
    ensures A.Disciplined(A.Demand({16, 24}, true)) && A.Recycled(16) && A.Recycled(24)
    ensures A.Class(16) == 1 && A.Class(24) == 2 && A.ClassSize(1) == 16
  {
    assert A.ClassOf(8) == 0 && A.ClassOf(12) == 1;
    assert A.Eights(16) == 16 && A.Eights(24) == 24;
  }

  lemma GrowthFails(a: A.State, align: nat)
    requires A.Shape(a) && R.OnRooms(align, true) && a.current == a.limit == 24 && a.heads == seq(A.CLASSES, _ => 0)
    ensures A.Offset(A.Free(a, 8, 16), 24, align) == 0
  {
    SixteenAndTwentyFour();
    assert A.Eights(24) == 24;
  }

  /** The next request of the class is answered with the block of the record. */
  lemma FreedBlockIsReused(a: A.State, o: nat, len: nat, size: nat, align: nat)
    requires A.Shape(a) && A.Recycled(len) && A.Recycled(size) && A.Class(size) == A.Class(len)
    requires 0 < o && o + A.NODE <= |a.mem| && align > 0 && o % align == 0
    ensures A.Shape(A.Free(a, o, len)) && A.Offset(A.Free(a, o, len), size, align) == o
  {
  }
}
