/**
 The arena as it runs: words, free-list heads and bytes changed in place. Each
 method computes the function of the same name in module `Arena`.
 */
module ArenaBuffer {
  import opened Wrappers
  import opened Memory
  import opened BumpAllocator
  import opened Arena
  import Endian

  const SIZE_CLASSES: seq<nat> := [8, 16, 32, 64, 128, 256, 512, 1024, 2048, 4096, 8192, 16384, 32768]

  /** The search for the first class that is large enough. */
  method SizeClassFor(size: nat) returns (c: Option<nat>)
    ensures c.Some? <==> ClassOf(size) < CLASSES
    ensures c.Some? ==> c.value == ClassOf(size)
  {
    ClassSizeTable();
    for i := 0 to |SIZE_CLASSES|
      invariant i <= ClassOf(size)
    {
      assert SIZE_CLASSES[i] == ClassSize(i);
      ClassIsFirst(size, i);
      if size <= SIZE_CLASSES[i] {
        return Some(i);
      }
    }
    c := None;
  }

  class Buffer {
    const limit: nat
    const start: nat
    const freeLists: array<nat>
    const memory: array<Byte>
    var current: nat
    var allocatedBytes: nat
    var allocationCount: nat
    var freeCount: nat

    ghost function Words(): State
      reads this, freeLists, memory
    {
      State(current, limit, start, freeLists[..], memory[..], allocatedBytes, allocationCount, freeCount)
    }

    ghost predicate Valid()
      reads this, freeLists, memory
    {
      Shape(Words())
    }

    constructor (start: nat, limit: nat)
      requires 0 < start <= limit < U64
      ensures Valid() && current == start && this.start == start && this.limit == limit
      ensures forall c :: 0 <= c < CLASSES ==> Words().heads[c] == 0
    {
      this.start, this.limit, current := start, limit, start;
      freeLists := new nat[CLASSES](_ => 0);
      memory := new Byte[limit](_ => 0);
      allocatedBytes, allocationCount, freeCount := 0, 0, 0;
    }

    /** The link of the free node at `offset`. */
    method ReadLink(offset: nat) returns (next: nat)
      requires offset + NODE <= memory.Length
      ensures next == NextOf(memory[..], offset)
    {
      next := Endian.Decode(memory[offset..offset + 8]);
      assert memory[offset..offset + 8] == memory[..][offset..offset + 8];
    }

    method AllocateFromFreeList(size: nat, align: nat) returns (r: Option<nat>)
      requires Valid() && size > 0 && align > 0
      modifies freeLists
      ensures r == FromFreeList(old(Words()), size, align)
      ensures r.None? ==> Words() == old(Words())
      ensures r.Some? ==>
                var next := if r.value + NODE <= |old(memory[..])| then NextOf(old(memory[..]), r.value) else 0;
                Words() == old(Words()).(heads := old(freeLists[..])[Class(size) := next])
    {
      RecycledIff(size);
      var c := SizeClassFor(size);
      if c.None? || size < SIZE_CLASSES[c.value] / 2 {
        ClassSizeTable();
        return None;
      }
      ClassSizeTable();
      assert Recycled(size) && Class(size) == c.value;
      var head := freeLists[c.value];
      if head == 0 || head % align != 0 {
        return None;
      }
      var next := 0;
      if head + NODE <= memory.Length {
        next := ReadLink(head);
      }
      freeLists[c.value] := next;
      r := Some(head);
    }

    method BumpAllocate(size: nat, align: nat) returns (offset: nat)
      requires Valid() && align > 0
      modifies this
      ensures if Accepts(old(Words()).limit, old(current), size, align) then
                && offset == Aligned(old(current), align)
                && Words() == old(Words()).(current := NewOffset(old(current), size, align),
                                            allocatedBytes := old(allocatedBytes) + size,
                                            allocationCount := old(allocationCount) + 1)
              else
                offset == 0 && Words() == old(Words())
    {
      offset := Aligned(current, align);
      var newOffset := Wrap64(offset + size);
      if newOffset > limit {
        return 0;
      }
      current := newOffset;
      allocatedBytes, allocationCount := allocatedBytes + size, allocationCount + 1;
    }

    method AddToFreeList(offset: nat, size: nat, c: nat)
      requires Valid() && c < CLASSES && offset + NODE <= memory.Length
      modifies freeLists, memory
      ensures Words() == old(Words()).(mem := Write(old(memory[..]), offset, Node(old(freeLists[..])[c], size)),
                                       heads := old(freeLists[..])[c := offset])
    {
      var node := Node(freeLists[c], size);
      for i := 0 to NODE
        invariant memory[..] == Write(old(memory[..]), offset, node[..i])
        invariant freeLists[..] == old(freeLists[..])
      {
        memory[offset + i] := node[i];
        assert memory[..] == Write(old(memory[..]), offset, node[..i])[offset + i := node[i]];
        WriteNext(old(memory[..]), offset, node, i);
      }
      assert node[..NODE] == node;
      freeLists[c] := offset;
    }

    method Allocate(size: nat, align: nat) returns (offset: nat)
      requires Valid() && align > 0
      modifies this, freeLists
      ensures offset == Offset(old(Words()), size, align)
      ensures Words() == Arena.Allocate(old(Words()), size, align)
    {
      if size == 0 {
        return 0;
      }
      var head := AllocateFromFreeList(size, align);
      if head.Some? {
        allocationCount, allocatedBytes := allocationCount + 1, allocatedBytes + size;
        return head.value;
      }
      offset := BumpAllocate(size, align);
    }

    method Free(offset: nat, size: nat)
      requires Valid() && (Recycled(size) ==> offset + NODE <= memory.Length)
      modifies this, freeLists, memory
      ensures Words() == Arena.Free(old(Words()), offset, size)
    {
      if offset == 0 || size == 0 {
        return;
      }
      RecycledIff(size);
      ClassSizeTable();
      var c := SizeClassFor(size);
      if c.Some? && size >= SIZE_CLASSES[c.value] / 2 {
        assert Recycled(size) && Class(size) == c.value;
        AddToFreeList(offset, SIZE_CLASSES[c.value], c.value);
        freeCount := freeCount + 1;
        return;
      }
      assert !Recycled(size);
      freeCount := freeCount + 1;
    }
  }
}
