/**
 The arena allocator used sequentially: a bump pointer and one free list per
 size class, whose links are stored in the freed blocks themselves.
 */
module Arena {
  import opened Wrappers
  import opened Memory
  import opened BumpAllocator
  import Endian

  const CLASSES: nat := 13

  /** The size classes are the powers of two from 8 to 32768. */
  function ClassSize(c: nat): nat {
    if c == 0 then 8 else 2 * ClassSize(c - 1)
  }

  /** The first class whose size is at least `size` (see `ClassIsFirst`). */
  function ClassOf(size: nat): nat {
    if size <= 8 then 0 else 1 + ClassOf((size + 1) / 2)
  }

  lemma {:induction false} ClassIsFirst(size: nat, c: nat)
    ensures size <= ClassSize(c) <==> ClassOf(size) <= c
  {
    if c > 0 && size > 8 {
      ClassIsFirst((size + 1) / 2, c - 1);
    } else if c == 0 && size > 8 {
      assert ClassOf(size) >= 1;
    } else if size <= 8 {
      ClassSizeAtLeast(c);
    }
  }

  lemma {:induction false} ClassSizeAtLeast(c: nat)
    ensures ClassSize(c) >= 8 && ClassSize(c) % 2 == 0
  {
    if c > 0 { ClassSizeAtLeast(c - 1); }
  }

  lemma ClassSizeTable()
    ensures ClassSize(0) == 8 && ClassSize(1) == 16 && ClassSize(2) == 32 && ClassSize(3) == 64
    ensures ClassSize(4) == 128 && ClassSize(5) == 256 && ClassSize(6) == 512 && ClassSize(7) == 1024
    ensures ClassSize(8) == 2048 && ClassSize(9) == 4096 && ClassSize(10) == 8192 && ClassSize(11) == 16384
    ensures ClassSize(12) == 32768
  {
  }

  /** Blocks of this size are kept on a free list when they are given back. */
  predicate Recycled(size: nat) {
    4 <= size <= 32768
  }

  /** The class of a recycled size. */
  function Class(size: nat): (c: nat)
    requires Recycled(size)
    ensures c < CLASSES
  {
    ClassSizeTable();
    ClassIsFirst(size, 12);
    ClassOf(size)
  }

  lemma ClassFits(size: nat)
    requires size >= 4
    ensures size <= ClassSize(ClassOf(size)) <= 2 * size
  {
    var c := ClassOf(size);
    ClassIsFirst(size, c);
    if c > 0 { ClassIsFirst(size, c - 1); }
  }

  /** That is the test of the source: a class exists, and the size is at least
      half of the class size. */
  lemma RecycledIff(size: nat)
    ensures Recycled(size) <==> size > 0 && ClassOf(size) < CLASSES && size >= ClassSize(ClassOf(size)) / 2
  {
    ClassSizeTable();
    ClassIsFirst(size, 12);
    if size >= 4 { ClassFits(size); } else { assert ClassOf(size) == 0; }
  }

  /** Bytes of a free-list node: the next offset, a size and padding. */
  const NODE: nat := 16

  /** The allocator's words and the bytes it manages. */
  datatype State = State(current: nat, limit: nat, start: nat, heads: seq<nat>, mem: Bytes,
                         allocatedBytes: nat, allocationCount: nat, freeCount: nat)

  predicate Shape(a: State) {
    |a.heads| == CLASSES && |a.mem| == a.limit && 0 < a.start <= a.current <= a.limit < U64
  }

  /** The link stored in the free node at `offset`. */
  function NextOf(mem: Bytes, offset: nat): nat
    requires offset + NODE <= |mem|
  {
    Endian.Decode(mem[offset..offset + 8])
  }

  function Node(next: nat, size: nat): (bs: Bytes)
    ensures |bs| == NODE
  {
    Endian.Encode(next, 8) + Endian.Encode(size, 4) + Endian.Encode(0, 4)
  }

  // ---------------------------------------------------------------- operations

  /** The block on top of the free list for `size`, if it may be used. */
  function FromFreeList(a: State, size: nat, align: nat): Option<nat>
    requires Shape(a) && align > 0
  {
    if !Recycled(size) then None
    else
      var head := a.heads[Class(size)];
      if head == 0 || head % align != 0 then None else Some(head)
  }

  /** The offset returned by `allocate`, 0 for failure. */
  function Offset(a: State, size: nat, align: nat): nat
    requires Shape(a) && align > 0
  {
    if size == 0 then 0
    else
      match FromFreeList(a, size, align)
      case Some(head) => head
      case None => if Accepts(a.limit, a.current, size, align) then Aligned(a.current, align) else 0
  }

  /** The arena after `allocate`. A head that cannot hold a node (which a
      corrupted list may contain) has no link to follow. */
  function Allocate(a: State, size: nat, align: nat): State
    requires Shape(a) && align > 0
  {
    var counted := a.(allocatedBytes := a.allocatedBytes + size, allocationCount := a.allocationCount + 1);
    if size == 0 then a
    else
      match FromFreeList(a, size, align)
      case Some(head) =>
        var next := if head + NODE <= |a.mem| then NextOf(a.mem, head) else 0;
        counted.(heads := a.heads[Class(size) := next])
      case None =>
        if Accepts(a.limit, a.current, size, align)
        then counted.(current := NewOffset(a.current, size, align))
        else a
  }

  function Free(a: State, offset: nat, size: nat): State
    requires Shape(a)
  {
    if offset == 0 || size == 0 then a
    else if Recycled(size) && offset + NODE <= |a.mem| then
      var c := Class(size);
      a.(mem := Write(a.mem, offset, Node(a.heads[c], ClassSize(c))),
         heads := a.heads[c := offset],
         freeCount := a.freeCount + 1)
    else a.(freeCount := a.freeCount + 1)
  }

  // ----------------------------------------------------------------- invariant

  /** What a reserved block is used for: it belongs to a client, or it is the
      `pos`-th block from the bottom of a free list. */
  datatype Use = Live(len: nat) | Listed(class_: nat, pos: nat, len: nat)

  type Owners = map<nat, Use>
  /** The free lists, bottom first. */
  type Stacks = seq<seq<nat>>

  /** What clients ask for: these sizes, and alignments of 8 if `words`, any otherwise. */
  datatype Demand = Demand(sizes: set<nat>, words: bool)

  predicate OfEights(n: nat) {
    n == 0 || (n >= 8 && OfEights(n - 8))
  }

  lemma {:induction false} OfEightsIff(n: nat)
    ensures OfEights(n) <==> n % 8 == 0
  {
    if n >= 8 { OfEightsIff(n - 8); }
  }

  predicate OnGrain(n: nat, words: bool) {
    words ==> OfEights(n)
  }

  /** The next multiple of 8. */
  function Eights(n: nat): (r: nat)
    ensures n <= r < n + 8 && OfEights(r)
  {
    if n == 0 then 0 else if n <= 8 then assert OfEights(0); 8 else 8 + Eights(n - 8)
  }

  /** What a block takes up: with alignments of 8 the next one starts at a multiple of 8. */
  function Room(n: nat, words: bool): (r: nat)
    ensures n <= r && OnGrain(r, words)
  {
    if words then Eights(n) else n
  }

  lemma {:induction false} EightsBelow(n: nat, m: nat)
    requires n <= m && OfEights(m)
    ensures Eights(n) <= m
  {
    if n > 8 { EightsBelow(n - 8, m - 8); }
  }

  lemma RoomBelow(n: nat, m: nat, words: bool)
    requires n <= m && OnGrain(m, words)
    ensures Room(n, words) <= m
  {
    if words { EightsBelow(n, m); }
  }

  lemma {:induction false} EightsFrom(o: nat, n: nat)
    requires OfEights(o)
    ensures Eights(o + n) == o + Eights(n) && (OfEights(n) ==> OfEights(o + n))
  {
    if o >= 8 {
      EightsFrom(o - 8, n);
    }
  }

  lemma RoomFrom(o: nat, n: nat, words: bool)
    requires OnGrain(o, words)
    ensures Room(o + n, words) == o + Room(n, words)
  {
    if words { EightsFrom(o, n); }
  }

  function BlockAt(owner: Owners, o: nat, words: bool): Block
    requires o in owner
  {
    Block(o, Room(owner[o].len, words))
  }

  /** Every size a client asks for either is never recycled, or takes up the
      room of a node and of every recycled size of its class. */
  ghost predicate Disciplined(d: Demand) {
    forall s, t :: s in d.sizes && t in d.sizes && Recycled(s) && Recycled(t) ==>
      Room(s, d.words) >= NODE && (Class(s) == Class(t) ==> t <= Room(s, d.words))
  }

  /** A block of this size has room for every request of the class. */
  ghost predicate Serves(d: Demand, c: nat, len: nat) {
    forall s :: s in d.sizes && Recycled(s) && Class(s) == c ==> s <= Room(len, d.words)
  }

  /** A block may be given back with less than its size: its class is then
      one whose requests it can still serve, and it can hold a node. */
  lemma ServesSmaller(d: Demand, block: nat, len: nat)
    requires Disciplined(d) && block in d.sizes && len <= block && Recycled(len)
    ensures NODE <= Room(block, d.words) && Serves(d, Class(len), block)
  {
    var c := Class(len);
    forall s | s in d.sizes && Recycled(s) && Class(s) == c ensures s <= Room(block, d.words) {
      ClassIsFirst(s, c);
      ClassIsFirst(block, c);
      ClassFits(block);
      ClassIsFirst(len, ClassOf(block));
    }
  }

  ghost predicate UseOk(a: State, d: Demand, stacks: Stacks, o: nat, use: Use) {
    && a.start <= o && 0 < use.len && OnGrain(o, d.words) && use.len in d.sizes
    && o + Room(use.len, d.words) <= Room(a.current, d.words)
    && match use
       case Live(_) => true
       case Listed(c, j, len) =>
         && NODE <= Room(len, d.words) && Serves(d, c, len)
         && c < |stacks| && j < |stacks[c]| && stacks[c][j] == o
         && o + NODE <= |a.mem|
         && NextOf(a.mem, o) == if j == 0 then 0 else stacks[c][j - 1]
  }

  ghost predicate OnStack(owner: Owners, stacks: Stacks, c: nat, j: nat)
    requires c < |stacks| && j < |stacks[c]|
  {
    stacks[c][j] in owner && owner[stacks[c][j]].Listed? && owner[stacks[c][j]].class_ == c && owner[stacks[c][j]].pos == j
  }

  function Top(stack: seq<nat>): nat {
    if stack == [] then 0 else stack[|stack| - 1]
  }

  ghost predicate Apart(owner: Owners, o: nat, p: nat, words: bool)
    requires o in owner && p in owner
  {
    Disjoint(BlockAt(owner, o, words), BlockAt(owner, p, words))
  }

  ghost predicate Inv(a: State, d: Demand, owner: Owners, stacks: Stacks) {
    && Shape(a) && OnGrain(a.limit, d.words) && |stacks| == CLASSES
    && (forall o {:trigger UseOk(a, d, stacks, o, owner[o])} :: o in owner ==> UseOk(a, d, stacks, o, owner[o]))
    && AllApart(owner, d.words)
    && (forall c, j {:trigger OnStack(owner, stacks, c, j)} ::
          0 <= c < CLASSES && 0 <= j < |stacks[c]| ==> OnStack(owner, stacks, c, j))
    && forall c :: 0 <= c < CLASSES ==> a.heads[c] == Top(stacks[c])
  }

  lemma {:induction false} MultipleOfEight(q: nat, align: nat)
    requires OfEights(align)
    ensures OfEights(q * align)
  {
    if q > 0 {
      MultipleOfEight(q - 1, align);
      assert q * align == align + (q - 1) * align;
      EightsFrom(align, (q - 1) * align);
    }
  }

  /** Where the bump pointer puts a block: above all that is reserved, on the grain. */
  lemma BumpPlaces(a: State, words: bool, size: nat, align: nat)
    requires Shape(a) && Sane(a.limit, size, align) && OnGrain(align, words)
    requires FromFreeList(a, size, align).None? && Offset(a, size, align) != 0
    ensures var off := Offset(a, size, align);
            && Room(a.current, words) <= off && off % align == 0 && OnGrain(off, words)
            && Allocate(a, size, align).current == off + size <= a.limit
            && Room(off + size, words) == off + Room(size, words)
  {
    var off := Offset(a, size, align);
    SaneFits(a.limit, a.current, size, align);
    var q := MaskIsMultiple(Wrap64(a.current + align - 1), align);
    if words { MultipleOfEight(q, align); }
    RoomBelow(a.current, off, words);
    RoomFrom(off, size, words);
  }

  /** The bump pointer reserves a block that no one owned. */
  lemma BumpKeeps(a: State, d: Demand, owner: Owners, stacks: Stacks, size: nat, align: nat)
    requires Inv(a, d, owner, stacks) && size in d.sizes && Sane(a.limit, size, align) && OnGrain(align, d.words)
    requires FromFreeList(a, size, align).None? && Offset(a, size, align) != 0
    ensures Offset(a, size, align) !in owner && Offset(a, size, align) % align == 0
    ensures Inv(Allocate(a, size, align), d, owner[Offset(a, size, align) := Live(size)], stacks)
  {
    var off, a' := Offset(a, size, align), Allocate(a, size, align);
    var owner' := owner[off := Live(size)];
    BumpPlaces(a, d.words, size, align);
    forall o | o in owner
      ensures o + Room(owner[o].len, d.words) <= off && UseOk(a', d, stacks, o, owner[o])
    {
      assert UseOk(a, d, stacks, o, owner[o]);
    }
    AboveStaysApart(owner, off, size, d.words);
    forall c, j | 0 <= c < CLASSES && 0 <= j < |stacks[c]|
      ensures OnStack(owner', stacks, c, j)
    {
      assert OnStack(owner, stacks, c, j);
    }
  }

  lemma AboveStaysApart(owner: Owners, off: nat, size: nat, words: bool)
    requires AllApart(owner, words) && forall o :: o in owner ==> o + Room(owner[o].len, words) <= off
    ensures AllApart(owner[off := Live(size)], words)
  {
    var owner' := owner[off := Live(size)];
    forall o, p | o in owner' && p in owner' && o != p
      ensures Apart(owner', o, p, words)
    {
      assert o in owner && p in owner ==> Apart(owner, o, p, words);
    }
  }

  ghost predicate AllApart(owner: Owners, words: bool) {
    forall o, p {:trigger Apart(owner, o, p, words)} :: o in owner && p in owner && o != p ==> Apart(owner, o, p, words)
  }

  lemma SmallerStaysApart(owner: Owners, o: nat, use: Use, words: bool)
    requires AllApart(owner, words) && o in owner && Room(use.len, words) <= Room(owner[o].len, words)
    ensures AllApart(owner[o := use], words)
  {
    var owner' := owner[o := use];
    forall p, q | p in owner' && q in owner' && p != q ensures Apart(owner', p, q, words) {
      assert Apart(owner, p, q, words);
    }
  }

  /** The top of a free list goes back to a client. */
  lemma PopKeeps(a: State, d: Demand, owner: Owners, stacks: Stacks, size: nat, align: nat)
    requires Inv(a, d, owner, stacks) && Disciplined(d) && size in d.sizes && align > 0
    requires FromFreeList(a, size, align).Some?
    ensures var off := Offset(a, size, align);
            && off != 0 && off % align == 0
            && off in owner && owner[off].Listed? && size <= Room(owner[off].len, d.words)
            && Inv(Allocate(a, size, align), d, owner[off := Live(size)],
                   stacks[Class(size) := stacks[Class(size)][..|stacks[Class(size)]| - 1]])
  {
    var off, a', c := Offset(a, size, align), Allocate(a, size, align), Class(size);
    var n := |stacks[c]| - 1;
    var owner', stacks' := owner[off := Live(size)], stacks[c := stacks[c][..n]];
    assert a.heads[c] == Top(stacks[c]) == off;
    assert OnStack(owner, stacks, c, n);
    assert UseOk(a, d, stacks, off, owner[off]);
    RoomBelow(size, Room(owner[off].len, d.words), d.words);
    SmallerStaysApart(owner, off, Live(size), d.words);
    forall o | o in owner'
      ensures UseOk(a', d, stacks', o, owner'[o])
    {
      assert UseOk(a, d, stacks, o, owner[o]);
    }
    PoppedStack(owner, stacks, c, n, owner', stacks');
  }

  lemma PoppedStack(owner: Owners, stacks: Stacks, c: nat, n: nat, owner': Owners, stacks': Stacks)
    requires |stacks| == CLASSES && c < CLASSES && n + 1 == |stacks[c]| && stacks' == stacks[c := stacks[c][..n]]
    requires forall e, j {:trigger OnStack(owner, stacks, e, j)} ::
               0 <= e < CLASSES && 0 <= j < |stacks[e]| ==> OnStack(owner, stacks, e, j)
    requires forall o :: o in owner && o != stacks[c][n] ==> o in owner' && owner'[o] == owner[o]
    ensures forall e, j {:trigger OnStack(owner', stacks', e, j)} ::
              0 <= e < CLASSES && 0 <= j < |stacks'[e]| ==> OnStack(owner', stacks', e, j)
  {
    assert OnStack(owner, stacks, c, n);
    forall e, j | 0 <= e < CLASSES && 0 <= j < |stacks'[e]|
      ensures OnStack(owner', stacks', e, j)
    {
      assert OnStack(owner, stacks, e, j);
    }
  }

  lemma NodeReadsBack(mem: Bytes, o: nat, next: nat, size: nat)
    requires o + NODE <= |mem| && next < U64
    ensures NextOf(Write(mem, o, Node(next, size)), o) == next
  {
    var rest := Endian.Encode(size, 4) + Endian.Encode(0, 4);
    assert Node(next, size) == Endian.Encode(next, 8) + rest;
    WrittenPrefix(mem, o, Endian.Encode(next, 8), rest);
    Endian.Pow256Values();
    Endian.DecodeEncode(next, 8);
  }

  /** The bytes of a node: the next offset in eight, the class size in four. */
  lemma NodeLayout(next: nat, size: nat)
    requires next < U64 && size < 0x1_0000_0000
    ensures Endian.Little(Node(next, size), 0, 8) == next
    ensures Endian.Little(Node(next, size), 8, 4) == size && Endian.Little(Node(next, size), 12, 4) == 0
  {
    var node := Node(next, size);
    Endian.Pow256Values();
    Endian.DecodeEncode(next, 8);
    Endian.DecodeEncode(size, 4);
    Endian.DecodeEncode(0, 4);
    Endian.LittleIsDecode(node, 0, Endian.Encode(next, 8));
    Endian.LittleIsDecode(node, 8, Endian.Encode(size, 4));
    Endian.LittleIsDecode(node, 12, Endian.Encode(0, 4));
  }

  lemma NodeElsewhere(mem: Bytes, o: nat, data: Bytes, p: nat)
    requires |data| == NODE && o + NODE <= |mem| && p + NODE <= |mem|
    requires Disjoint(Block(o, NODE), Block(p, NODE))
    ensures NextOf(Write(mem, o, data), p) == NextOf(mem, p)
  {
    ReadElsewhere(mem, o, data, Block(p, 8));
  }

  /** A client gives a block back, with a recycled size up to its own. */
  lemma PushKeeps(a: State, d: Demand, owner: Owners, stacks: Stacks, o: nat, len: nat)
    requires Inv(a, d, owner, stacks) && Disciplined(d)
    requires o in owner && owner[o].Live? && len <= owner[o].len && Recycled(len)
    ensures var c := Class(len);
            Inv(Free(a, o, len), d, owner[o := Listed(c, |stacks[c]|, owner[o].len)], stacks[c := stacks[c] + [o]])
  {
    var c, a' := Class(len), Free(a, o, len);
    var owner', stacks' := owner[o := Listed(c, |stacks[c]|, owner[o].len)], stacks[c := stacks[c] + [o]];
    assert UseOk(a, d, stacks, o, owner[o]);
    ServesSmaller(d, owner[o].len, len);
    RoomBelow(a.current, a.limit, d.words);
    HeadBelowLimit(a, d, owner, stacks, c);
    NodeReadsBack(a.mem, o, a.heads[c], ClassSize(c));
    SmallerStaysApart(owner, o, owner'[o], d.words);
    forall p | p in owner'
      ensures UseOk(a', d, stacks', p, owner'[p])
    {
      assert UseOk(a, d, stacks, p, owner[p]);
      if p != o && owner[p].Listed? {
        assert Apart(owner, o, p, d.words);
        NodeElsewhere(a.mem, o, Node(a.heads[c], ClassSize(c)), p);
      }
    }
    forall e, j | 0 <= e < CLASSES && 0 <= j < |stacks'[e]|
      ensures OnStack(owner', stacks', e, j)
    {
      if j < |stacks[e]| { assert OnStack(owner, stacks, e, j); }
    }
  }

  lemma HeadBelowLimit(a: State, d: Demand, owner: Owners, stacks: Stacks, c: nat)
    requires Inv(a, d, owner, stacks) && c < CLASSES
    ensures a.heads[c] == Top(stacks[c]) < U64
  {
    if stacks[c] != [] {
      assert OnStack(owner, stacks, c, |stacks[c]| - 1);
      assert UseOk(a, d, stacks, Top(stacks[c]), owner[Top(stacks[c])]);
    }
  }

  /** A block given back with a size that is not recycled is simply forgotten. */
  lemma DropKeeps(a: State, d: Demand, owner: Owners, stacks: Stacks, o: nat, len: nat)
    requires Inv(a, d, owner, stacks)
    requires o in owner && owner[o].Live? && !Recycled(len)
    ensures Inv(Free(a, o, len), d, owner - {o}, stacks)
  {
    var a' := Free(a, o, len);
    forall p | p in owner - {o}
      ensures UseOk(a', d, stacks, p, (owner - {o})[p])
    {
      assert UseOk(a, d, stacks, p, owner[p]);
    }
    forall p, q | p in owner - {o} && q in owner - {o} && p != q
      ensures Apart(owner - {o}, p, q, d.words)
    {
      assert Apart(owner, p, q, d.words);
    }
    forall e, j | 0 <= e < CLASSES && 0 <= j < |stacks[e]|
      ensures OnStack(owner - {o}, stacks, e, j)
    {
      assert OnStack(owner, stacks, e, j);
    }
  }

  /** A client writes inside its own block. */
  lemma ClientWriteKeeps(a: State, d: Demand, owner: Owners, stacks: Stacks, o: nat, at: nat, data: Bytes)
    requires Inv(a, d, owner, stacks)
    requires o in owner && owner[o].Live? && at + |data| <= owner[o].len
    ensures o + at + |data| <= |a.mem|
    ensures Inv(a.(mem := Write(a.mem, o + at, data)), d, owner, stacks)
  {
    assert UseOk(a, d, stacks, o, owner[o]);
    RoomBelow(a.current, a.limit, d.words);
    var a' := a.(mem := Write(a.mem, o + at, data));
    forall p | p in owner
      ensures UseOk(a', d, stacks, p, owner[p])
    {
      assert UseOk(a, d, stacks, p, owner[p]);
      if owner[p].Listed? {
        assert Apart(owner, o, p, d.words);
        ReadElsewhere(a.mem, o + at, data, Block(p, 8));
      }
    }
  }
}
