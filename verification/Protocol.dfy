/** The binary wire format: fixed little-endian headers followed by the payload bytes.  Header
    fields are packed without padding; lengths are 32-bit and are added with wrap-around. */
module Protocol {
  import opened Memory
  import opened Endian

  // ---- Packed fields ----

  function Size(sizes: seq<nat>): (n: nat) {
    if sizes == [] then 0 else sizes[0] + Size(sizes[1..])
  }

  ghost predicate Fits(ns: seq<nat>, sizes: seq<nat>) {
    |ns| == |sizes| && forall i :: 0 <= i < |ns| ==> ns[i] < Pow256(sizes[i])
  }

  function Pack(ns: seq<nat>, sizes: seq<nat>): (bs: Bytes)
    requires |ns| == |sizes|
    ensures |bs| == Size(sizes)
  {
    if ns == [] then [] else Encode(ns[0], sizes[0]) + Pack(ns[1..], sizes[1..])
  }

  function Unpack(bs: Bytes, sizes: seq<nat>): (ns: seq<nat>)
    requires |bs| >= Size(sizes)
    ensures |ns| == |sizes|
  {
    if sizes == [] then [] else [Decode(bs[..sizes[0]])] + Unpack(bs[sizes[0]..], sizes[1..])
  }

  lemma SplitsBack(a: Bytes, b: Bytes)
    ensures (a + b)[..|a|] == a && (a + b)[|a|..] == b
  {
  }

  lemma {:induction false} UnpackPack(ns: seq<nat>, sizes: seq<nat>, tail: Bytes)
    requires Fits(ns, sizes)
    ensures Unpack(Pack(ns, sizes) + tail, sizes) == ns
  {
    if ns != [] {
      var first, rest := Encode(ns[0], sizes[0]), Pack(ns[1..], sizes[1..]);
      assert Pack(ns, sizes) + tail == first + (rest + tail);
      SplitsBack(first, rest + tail);
      DecodeEncode(ns[0], sizes[0]);
      UnpackPack(ns[1..], sizes[1..], tail);
      assert ns == [ns[0]] + ns[1..];
    }
  }

  lemma {:induction false} PackUnpack(bs: Bytes, sizes: seq<nat>)
    requires |bs| >= Size(sizes)
    ensures Fits(Unpack(bs, sizes), sizes)
    ensures Pack(Unpack(bs, sizes), sizes) == bs[..Size(sizes)]
  {
    if sizes != [] {
      var k := sizes[0];
      EncodeDecode(bs[..k]);
      PackUnpack(bs[k..], sizes[1..]);
      assert bs[..Size(sizes)] == bs[..k] + bs[k..][..Size(sizes[1..])];
      var ns := Unpack(bs, sizes);
      assert ns[1..] == Unpack(bs[k..], sizes[1..]);
      forall i | 0 <= i < |ns| ensures ns[i] < Pow256(sizes[i]) {
        if i > 0 { assert ns[i] == ns[1..][i - 1] && sizes[i] == sizes[1..][i - 1]; }
      }
    }
  }

  /** The bytes from `at` on hold `n`, the least significant byte first. */
  ghost predicate Holds(bytes: Bytes, at: nat, width: nat, n: nat) {
    at + width <= |bytes| && Little(bytes, at, width) == n
  }

  lemma {:induction false} PackedSlice(ns: seq<nat>, sizes: seq<nat>, i: nat, tail: Bytes)
    requires |ns| == |sizes| && i < |ns|
    ensures Size(sizes[..i]) + sizes[i] <= Size(sizes)
    ensures (Pack(ns, sizes) + tail)[Size(sizes[..i])..Size(sizes[..i]) + sizes[i]] == Encode(ns[i], sizes[i])
  {
    var first, rest := Encode(ns[0], sizes[0]), Pack(ns[1..], sizes[1..]);
    assert Pack(ns, sizes) + tail == first + (rest + tail);
    if i > 0 {
      PackedSlice(ns[1..], sizes[1..], i - 1, tail);
      assert sizes[1..][..i - 1] == sizes[..i][1..];
      ShiftedSlice(first, rest + tail, Size(sizes[1..][..i - 1]), sizes[i]);
    }
  }

  lemma ShiftedSlice(a: Bytes, b: Bytes, at: nat, width: nat)
    requires at + width <= |b|
    ensures (a + b)[|a| + at..|a| + at + width] == b[at..at + width]
  {
  }

  /** Each field is packed behind those before it. */
  lemma PackedAt(ns: seq<nat>, sizes: seq<nat>, i: nat, tail: Bytes)
    requires Fits(ns, sizes) && i < |ns|
    ensures Holds(Pack(ns, sizes) + tail, Size(sizes[..i]), sizes[i], ns[i])
  {
    PackedSlice(ns, sizes, i, tail);
    LittleIsDecode(Pack(ns, sizes) + tail, Size(sizes[..i]), Encode(ns[i], sizes[i]));
    DecodeEncode(ns[i], sizes[i]);
  }

  // ---- Commands ----

  datatype CmdHeader = CmdHeader(
    op: nat, flags: nat, version: nat, reserved: nat, seqno: nat, keyLen: nat, valLen: nat, extra: nat)

  datatype Command = Command(header: CmdHeader, key: Bytes, value: Bytes)

  /** `Panic` stands for a slice out of bounds. */
  datatype Parsed<T> = Ok(value: T) | HeaderTooSmall | PayloadTooSmall | Panic

  function CmdSizes(): seq<nat> { [1, 1, 1, 1, 4, 4, 4, 8] }

  function CmdFields(h: CmdHeader): (ns: seq<nat>)
    ensures |ns| == 8
  {
    [h.op, h.flags, h.version, h.reserved, h.seqno, h.keyLen, h.valLen, h.extra]
  }

  function CmdOf(ns: seq<nat>): CmdHeader
    requires |ns| == 8
  {
    CmdHeader(ns[0], ns[1], ns[2], ns[3], ns[4], ns[5], ns[6], ns[7])
  }

  lemma CmdSize()
    ensures Size(CmdSizes()) == 24
  {
  }

  /** Every field in the range of its width, and the lengths those of the key and the value. */
  ghost predicate WellFormed(c: Command) {
    && Fits(CmdFields(c.header), CmdSizes())
    && c.header.keyLen == |c.key| && c.header.valLen == |c.value|
  }

  /** What is written reads back as the command, whatever follows it in the buffer; the payload
      is there in any case. */
  method ToBytes(c: Command) returns (bytes: Bytes)
    ensures |bytes| == 24 + |c.key| + |c.value| && bytes[24..] == c.key + c.value
    ensures WellFormed(c) ==> forall tail :: FromBytes(bytes + tail) == Ok(c)
    ensures WellFormed(c) ==> CommandLayout(bytes, c.header)
  {
    var header := Pack(CmdFields(c.header), CmdSizes());
    PayloadFollows(header, c);
    bytes := [];
    bytes := bytes + header;
    bytes := bytes + c.key;
    bytes := bytes + c.value;
    if WellFormed(c) { CommandIsLaidOut(c); }
    forall tail | WellFormed(c) ensures FromBytes(bytes + tail) == Ok(c) { ReadsBack(c, tail); }
  }

  /** Where each field of a command's header lies. */
  ghost predicate CommandLayout(bytes: Bytes, h: CmdHeader) {
    && Holds(bytes, 0, 1, h.op) && Holds(bytes, 1, 1, h.flags) && Holds(bytes, 2, 1, h.version)
    && Holds(bytes, 3, 1, h.reserved) && Holds(bytes, 4, 4, h.seqno) && Holds(bytes, 8, 4, h.keyLen)
    && Holds(bytes, 12, 4, h.valLen) && Holds(bytes, 16, 8, h.extra)
  }

  lemma CommandIsLaidOut(c: Command)
    requires WellFormed(c)
    ensures CommandLayout(CommandBytes(c), c.header)
  {
    CmdFieldAt(c, 0, 0);
    CmdFieldAt(c, 1, 1);
    CmdFieldAt(c, 2, 2);
    CmdFieldAt(c, 3, 3);
    CmdFieldAt(c, 4, 4);
    CmdFieldAt(c, 5, 8);
    CmdFieldAt(c, 6, 12);
    CmdFieldAt(c, 7, 16);
  }

  lemma CmdFieldAt(c: Command, i: nat, at: nat)
    requires WellFormed(c) && i < 8 && at == [0, 1, 2, 3, 4, 8, 12, 16][i]
    ensures Holds(CommandBytes(c), at, CmdSizes()[i], CmdFields(c.header)[i])
  {
    PackedAt(CmdFields(c.header), CmdSizes(), i, c.key + c.value);
    assert CommandBytes(c) == Pack(CmdFields(c.header), CmdSizes()) + (c.key + c.value);
    CmdOffsets(i);
  }

  lemma CmdOffsets(i: nat)
    requires i < 8
    ensures Size(CmdSizes()[..i]) == [0, 1, 2, 3, 4, 8, 12, 16][i]
  {
    if i > 0 {
      CmdOffsets(i - 1);
      SizeNext(CmdSizes(), i - 1);
    }
  }

  lemma {:induction false} SizeNext(sizes: seq<nat>, i: nat)
    requires i < |sizes|
    ensures Size(sizes[..i + 1]) == Size(sizes[..i]) + sizes[i]
  {
    if i > 0 {
      SizeNext(sizes[1..], i - 1);
      assert sizes[..i + 1][1..] == sizes[1..][..i] && sizes[..i][1..] == sizes[1..][..i - 1];
    }
  }

  lemma PayloadFollows(header: Bytes, c: Command)
    requires header == Pack(CmdFields(c.header), CmdSizes())
    ensures [] + header + c.key + c.value == CommandBytes(c)
    ensures |CommandBytes(c)| == 24 + |c.key| + |c.value| && CommandBytes(c)[24..] == c.key + c.value
  {
    CmdSize();
    assert CommandBytes(c) == header + (c.key + c.value);
  }

  function CommandBytes(c: Command): (bs: Bytes) {
    Pack(CmdFields(c.header), CmdSizes()) + c.key + c.value
  }

  function HeaderOf(bytes: Bytes): (h: CmdHeader)
    requires |bytes| >= 24
  {
    CmdSize();
    CmdOf(Unpack(bytes, CmdSizes()))
  }

  function FromBytes(bytes: Bytes): (r: Parsed<Command>) {
    CmdSize();
    if |bytes| < 24 then HeaderTooSmall
    else
      var h := HeaderOf(bytes);
      if |bytes| < 24 + Wrap32(h.keyLen + h.valLen) then PayloadTooSmall
      else
        var keyEnd := 24 + h.keyLen;
        var valEnd := keyEnd + h.valLen;
        if |bytes| < valEnd then Panic
        else Ok(Command(h, bytes[24..keyEnd], bytes[keyEnd..valEnd]))
  }

  lemma FieldsRead(h: CmdHeader)
    ensures CmdOf(CmdFields(h)) == h
  {
  }

  lemma FieldsWritten(ns: seq<nat>)
    requires |ns| == 8
    ensures CmdFields(CmdOf(ns)) == ns
  {
  }

  lemma SlicesBack(head: Bytes, key: Bytes, value: Bytes, tail: Bytes)
    ensures var bs := head + key + value + tail;
            && bs[|head|..|head| + |key|] == key
            && bs[|head| + |key|..|head| + |key| + |value|] == value
  {
  }

  lemma ReadsBack(c: Command, tail: Bytes)
    requires WellFormed(c)
    ensures FromBytes(CommandBytes(c) + tail) == Ok(c)
  {
    CmdSize();
    var ns := CmdFields(c.header);
    assert CommandBytes(c) + tail == Pack(ns, CmdSizes()) + (c.key + c.value + tail);
    UnpackPack(ns, CmdSizes(), c.key + c.value + tail);
    FieldsRead(c.header);
    SlicesBack(Pack(ns, CmdSizes()), c.key, c.value, tail);
  }

  lemma ConsecutiveSlices(bs: Bytes, i: nat, j: nat, k: nat)
    requires i <= j <= k <= |bs|
    ensures bs[..i] + bs[i..j] + bs[j..k] <= bs
  {
  }

  lemma HeaderIsWritten(bytes: Bytes)
    requires |bytes| >= 24
    ensures Size(CmdSizes()) == 24
    ensures var h := HeaderOf(bytes);
            Fits(CmdFields(h), CmdSizes()) && Pack(CmdFields(h), CmdSizes()) == bytes[..24]
  {
    CmdSize();
    PackUnpack(bytes, CmdSizes());
    FieldsWritten(Unpack(bytes, CmdSizes()));
  }

  lemma ReadIsWritten(bytes: Bytes, c: Command)
    requires FromBytes(bytes) == Ok(c)
    ensures WellFormed(c) && CommandBytes(c) <= bytes
  {
    HeaderIsWritten(bytes);
    ConsecutiveSlices(bytes, 24, 24 + c.header.keyLen, 24 + c.header.keyLen + c.header.valLen);
  }

  /** Reading is the exact inverse of writing: a buffer reads as c exactly when it starts with the
      bytes of c and c's header is true of c. */
  lemma ReadsExactly(bytes: Bytes, c: Command)
    ensures FromBytes(bytes) == Ok(c) <==> WellFormed(c) && CommandBytes(c) <= bytes
  {
    if FromBytes(bytes) == Ok(c) { ReadIsWritten(bytes, c); }
    if WellFormed(c) && CommandBytes(c) <= bytes {
      var tail := bytes[|CommandBytes(c)|..];
      assert bytes == CommandBytes(c) + tail;
      ReadsBack(c, tail);
    }
  }

  /** A buffer is neither read nor refused exactly when the two lengths of its header overflow 32
      bits and the buffer holds their wrapped sum but not the payload they announce. */
  lemma PanicsIff(bytes: Bytes)
    ensures FromBytes(bytes) == Panic <==>
              && |bytes| >= 24
              && var n := HeaderOf(bytes).keyLen + HeaderOf(bytes).valLen;
              n > U32_MAX && 24 + n - 0x1_0000_0000 <= |bytes| < 24 + n
  {
    if |bytes| >= 24 {
      HeaderIsWritten(bytes);
      LengthsFit(HeaderOf(bytes));
    }
  }

  lemma LengthsFit(h: CmdHeader)
    requires Fits(CmdFields(h), CmdSizes())
    ensures h.keyLen <= U32_MAX && h.valLen <= U32_MAX
  {
    Pow256Values();
    assert CmdFields(h)[5] < Pow256(CmdSizes()[5]) && CmdFields(h)[6] < Pow256(CmdSizes()[6]);
  }

  /** Such a buffer: a bare header that announces 2^32 bytes. */
  lemma BareHeaderPanics()
    ensures var h := CmdHeader(0, 0, 0, 0, 0, 0xFFFF_FFFF, 1, 0);
            FromBytes(Pack(CmdFields(h), CmdSizes())) == Panic
  {
    var h := CmdHeader(0, 0, 0, 0, 0, 0xFFFF_FFFF, 1, 0);
    var bytes := Pack(CmdFields(h), CmdSizes());
    CmdSize();
    Pow256Values();
    UnpackPack(CmdFields(h), CmdSizes(), []);
    assert bytes + [] == bytes;
    FieldsRead(h);
    PanicsIff(bytes);
  }

  // ---- Responses ----

  datatype RespHeader = RespHeader(
    status: nat, flags: nat, reserved: nat, seqno: nat, payloadLen: nat, padding: nat)

  datatype Response = Response(header: RespHeader, payload: Bytes)

  function RespSizes(): seq<nat> { [1, 1, 2, 4, 4, 4] }

  function RespFields(h: RespHeader): (ns: seq<nat>)
    ensures |ns| == 6
  {
    [h.status, h.flags, h.reserved, h.seqno, h.payloadLen, h.padding]
  }

  function RespOf(ns: seq<nat>): RespHeader
    requires |ns| == 6
  {
    RespHeader(ns[0], ns[1], ns[2], ns[3], ns[4], ns[5])
  }

  lemma RespSize()
    ensures Size(RespSizes()) == 16
  {
  }

  ghost predicate WellFormedResponse(r: Response) {
    Fits(RespFields(r.header), RespSizes()) && r.header.payloadLen == |r.payload|
  }

  function ResponseBytes(r: Response): (bs: Bytes) {
    Pack(RespFields(r.header), RespSizes()) + r.payload
  }

  /** Where each field of a response's header lies. */
  lemma ResponseLayout(r: Response)
    requires WellFormedResponse(r)
    ensures var bytes, h := ResponseBytes(r), r.header;
            && Holds(bytes, 0, 1, h.status) && Holds(bytes, 1, 1, h.flags) && Holds(bytes, 2, 2, h.reserved)
            && Holds(bytes, 4, 4, h.seqno) && Holds(bytes, 8, 4, h.payloadLen) && Holds(bytes, 12, 4, h.padding)
            && |bytes| == 16 + |r.payload| && bytes[16..] == r.payload
  {
    RespSize();
    RespFieldAt(r, 0, 0);
    RespFieldAt(r, 1, 1);
    RespFieldAt(r, 2, 2);
    RespFieldAt(r, 3, 4);
    RespFieldAt(r, 4, 8);
    RespFieldAt(r, 5, 12);
  }

  lemma RespFieldAt(r: Response, i: nat, at: nat)
    requires WellFormedResponse(r) && i < 6 && at == [0, 1, 2, 4, 8, 12][i]
    ensures Holds(ResponseBytes(r), at, RespSizes()[i], RespFields(r.header)[i])
  {
    PackedAt(RespFields(r.header), RespSizes(), i, r.payload);
    RespOffsets(i);
  }

  lemma RespOffsets(i: nat)
    requires i < 6
    ensures Size(RespSizes()[..i]) == [0, 1, 2, 4, 8, 12][i]
  {
    if i > 0 {
      RespOffsets(i - 1);
      SizeNext(RespSizes(), i - 1);
    }
  }

  function ResponseFromBytes(bytes: Bytes): (r: Parsed<Response>) {
    RespSize();
    if |bytes| < 16 then HeaderTooSmall
    else
      var h := RespOf(Unpack(bytes, RespSizes()));
      if |bytes| < 16 + h.payloadLen then PayloadTooSmall
      else Ok(Response(h, bytes[16..16 + h.payloadLen]))
  }

  lemma RespFieldsRead(h: RespHeader)
    ensures RespOf(RespFields(h)) == h
  {
  }

  lemma RespFieldsWritten(ns: seq<nat>)
    requires |ns| == 6
    ensures RespFields(RespOf(ns)) == ns
  {
  }

  lemma ResponseReadsBack(r: Response, tail: Bytes)
    requires WellFormedResponse(r)
    ensures ResponseFromBytes(ResponseBytes(r) + tail) == Ok(r)
  {
    RespSize();
    var ns := RespFields(r.header);
    assert ResponseBytes(r) + tail == Pack(ns, RespSizes()) + (r.payload + tail);
    UnpackPack(ns, RespSizes(), r.payload + tail);
    RespFieldsRead(r.header);
    SlicesBack(Pack(ns, RespSizes()), r.payload, tail, []);
    assert Pack(ns, RespSizes()) + r.payload + tail + [] == ResponseBytes(r) + tail;
  }

  lemma ResponseReadIsWritten(bytes: Bytes, r: Response)
    requires ResponseFromBytes(bytes) == Ok(r)
    ensures WellFormedResponse(r) && ResponseBytes(r) <= bytes
  {
    RespSize();
    PackUnpack(bytes, RespSizes());
    RespFieldsWritten(Unpack(bytes, RespSizes()));
    assert bytes[..16 + |r.payload|] == bytes[..16] + r.payload;
  }

  /** The same for responses. */
  lemma ResponseReadsExactly(bytes: Bytes, r: Response)
    ensures ResponseFromBytes(bytes) == Ok(r) <==> WellFormedResponse(r) && ResponseBytes(r) <= bytes
  {
    if ResponseFromBytes(bytes) == Ok(r) { ResponseReadIsWritten(bytes, r); }
    if WellFormedResponse(r) && ResponseBytes(r) <= bytes {
      var tail := bytes[|ResponseBytes(r)|..];
      assert bytes == ResponseBytes(r) + tail;
      ResponseReadsBack(r, tail);
    }
  }
}
