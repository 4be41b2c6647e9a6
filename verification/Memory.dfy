/**
 Byte-addressed shared memory: blocks, reads, writes, and the contract that
 the hash table expects of the arena allocator.
 */
module Memory {

  newtype Byte = x: int | 0 <= x < 256
  type Bytes = seq<Byte>

  const U32_MAX: nat := 0xFFFF_FFFF

  /** The value kept by a 32-bit field. */
  function Wrap32(n: nat): (r: nat)
    ensures r <= n
    ensures n <= U32_MAX <==> r == n
  {
    n % 0x1_0000_0000
  }

  /** The value kept by a 64-bit field. */
  function Wrap64(n: nat): (r: nat)
    ensures r <= n
    ensures n < 0x1_0000_0000_0000_0000 <==> r == n
  {
    n % 0x1_0000_0000_0000_0000
  }

  lemma AddDivisor(x: nat, d: nat)
    requires d > 0
    ensures (d + x) % d == x % d
  {
    var k := (d + x) / d - x / d - 1;
    assert d * k == x % d - (d + x) % d by {
      assert x == d * (x / d) + x % d;
      assert d + x == d * ((d + x) / d) + (d + x) % d;
      assert d * k == d * ((d + x) / d) - d * (x / d) - d;
    }
    if k >= 1 {
      Scale(d, 1, k);
    } else if k <= -1 {
      Scale(d, k, -1);
    }
  }

  lemma Scale(a: nat, x: int, y: int)
    requires x <= y
    ensures a * x <= a * y
  {
    assert a * (y - x) >= 0;
  }

  datatype Block = Block(offset: nat, len: nat)

  predicate Fits(b: Block, mem: Bytes) {
    b.offset + b.len <= |mem|
  }

  /** No address belongs to both blocks; an empty block owns no address. */
  predicate Disjoint(a: Block, b: Block) {
    a.len == 0 || b.len == 0 || a.offset + a.len <= b.offset || b.offset + b.len <= a.offset
  }

  function Read(mem: Bytes, b: Block): (r: Bytes)
    requires Fits(b, mem)
    ensures |r| == b.len
  {
    mem[b.offset..b.offset + b.len]
  }

  function Write(mem: Bytes, at: nat, data: Bytes): (r: Bytes)
    requires at + |data| <= |mem|
    ensures |r| == |mem|
  {
    mem[..at] + data + mem[at + |data|..]
  }

  /** Writing one byte more. */
  lemma WriteNext(mem: Bytes, at: nat, data: Bytes, i: nat)
    requires at + |data| <= |mem| && i < |data|
    ensures Write(mem, at, data[..i + 1]) == Write(mem, at, data[..i])[at + i := data[i]]
  {
  }

  /** The first part of what was written reads back. */
  lemma WrittenPrefix(mem: Bytes, at: nat, a: Bytes, b: Bytes)
    requires at + |a| + |b| <= |mem|
    ensures Write(mem, at, a + b)[at..at + |a|] == a
  {
  }

  lemma WriteAt(mem: Bytes, at: nat, data: Bytes, j: nat)
    requires at + |data| <= |mem|
    requires j < |mem|
    ensures Write(mem, at, data)[j] == if at <= j < at + |data| then data[j - at] else mem[j]
  {
  }

  lemma ReadElsewhere(mem: Bytes, at: nat, data: Bytes, b: Block)
    requires at + |data| <= |mem|
    requires Fits(b, mem)
    requires Disjoint(Block(at, |data|), b)
    ensures Read(Write(mem, at, data), b) == Read(mem, b)
  {
  }

  /** `after` agrees with `before` on every block of `live`. */
  ghost predicate Keeps(before: Bytes, live: set<Block>, after: Bytes) {
    && |after| == |before|
    && forall b :: b in live && Fits(b, before) ==> Read(after, b) == Read(before, b)
  }

  /** What an allocation call leaves behind: the offset it returned (0 = out
      of memory) and the arena bytes, which `free` may have scribbled on. */
  datatype Grant = Grant(offset: nat, bytes: Bytes)

  /** The allocator contract: live blocks keep their bytes, a request of size
      zero is refused, and a granted block fits and touches no live block. */
  ghost predicate GrantOk(mem: Bytes, live: set<Block>, size: nat, g: Grant) {
    && Keeps(mem, live, g.bytes)
    && (size == 0 ==> g.offset == 0)
    && (g.offset != 0 ==>
          && Fits(Block(g.offset, size), mem)
          && forall b :: b in live ==> Disjoint(Block(g.offset, size), b))
  }
}
