/** Little-endian encoding of unsigned integers in a fixed number of bytes. */
module Endian {
  import opened Memory

  function Pow256(k: nat): (p: nat)
    ensures p > 0
  {
    if k == 0 then 1 else 256 * Pow256(k - 1)
  }

  /** The low `k` bytes of `n`, least significant first. */
  function Encode(n: nat, k: nat): (bs: Bytes)
    ensures |bs| == k
  {
    if k == 0 then [] else [(n % 256) as Byte] + Encode(n / 256, k - 1)
  }

  function Decode(bs: Bytes): nat {
    if bs == [] then 0 else bs[0] as nat + 256 * Decode(bs[1..])
  }

  /** Decoding what was encoded gives the number back, if it fits. */
  lemma {:induction false} DecodeEncode(n: nat, k: nat)
    requires n < Pow256(k)
    ensures Decode(Encode(n, k)) == n
  {
    if k > 0 {
      DecodeEncode(n / 256, k - 1);
      assert Encode(n, k)[1..] == Encode(n / 256, k - 1);
    }
  }

  lemma LowByte(b: nat, rest: nat)
    requires b < 256
    ensures (b + 256 * rest) % 256 == b && (b + 256 * rest) / 256 == rest
  {
  }

  /** Encoding what was decoded gives the bytes back. */
  lemma {:induction false} EncodeDecode(bs: Bytes)
    ensures Decode(bs) < Pow256(|bs|)
    ensures Encode(Decode(bs), |bs|) == bs
  {
    if bs != [] {
      EncodeDecode(bs[1..]);
      LowByte(bs[0] as nat, Decode(bs[1..]));
    }
  }

  /** The number in `width` bytes from `at` on, the least significant first. */
  function Little(bytes: Bytes, at: nat, width: nat): nat
    requires at + width <= |bytes|
    decreases width
  {
    if width == 0 then 0 else bytes[at] as nat + 256 * Little(bytes, at + 1, width - 1)
  }

  lemma {:induction false} LittleIsDecode(bytes: Bytes, at: nat, bs: Bytes)
    requires at + |bs| <= |bytes| && bytes[at..at + |bs|] == bs
    ensures Little(bytes, at, |bs|) == Decode(bs)
    decreases |bs|
  {
    if bs != [] {
      assert bytes[at] == bytes[at..at + |bs|][0];
      assert bytes[at + 1..at + 1 + |bs[1..]|] == bytes[at..at + |bs|][1..];
      LittleIsDecode(bytes, at + 1, bs[1..]);
    }
  }

  lemma Pow256Values()
    ensures Pow256(1) == 0x100 && Pow256(2) == 0x1_0000 && Pow256(4) == 0x1_0000_0000
    ensures Pow256(8) == 0x1_0000_0000_0000_0000
  {
  }
}
