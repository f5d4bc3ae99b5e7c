/** Writing the bincode 2 format: `PutX(x, rest)` is the encoding of `x` followed by `rest`, and reads back as `x`. */
module BincodeWriting {
  import opened Bytes
  import opened BincodeReading
  import opened Powers

  function BigEndianBytes(v: nat, width: nat): (b: Bytes)
    ensures |b| == width
  {
    if width == 0 then [] else BigEndianBytes(v / 256, width - 1) + [(v % 256) as byte]
  }

  lemma {:induction false} BigEndianReads(v: nat, width: nat)
    requires v < IntPow(256, width)
    ensures BigEndian(BigEndianBytes(v, width)) == v
  {
    if width > 0 {
      BigEndianReads(v / 256, width - 1);
      var b := BigEndianBytes(v, width);
      assert b[..|b| - 1] == BigEndianBytes(v / 256, width - 1);
    }
  }

  lemma Sizes()
    ensures IntPow(256, 2) == 0x1_0000 && IntPow(256, 4) == 0x1_0000_0000
    ensures IntPow(256, 8) == U64_MAX + 1 && IntPow(256, 16) == U128_MAX + 1
  {
    assert IntPow(256, 1) == 256;
    IntPowAdd(256, 2, 2);
    IntPowAdd(256, 4, 4);
    IntPowAdd(256, 8, 8);
  }

  lemma TakeReads(b: Bytes)
    ensures forall rest :: Take(b + rest, |b|) == Some((b, rest))
  {
    forall rest
      ensures Take(b + rest, |b|) == Some((b, rest))
    {
      assert (b + rest)[..|b|] == b && (b + rest)[|b|..] == rest;
    }
  }

  /** The tag and width of a varint. */
  function VarintForm(v: nat): (byte, nat) {
    if v <= 250 then (v as byte, 0)
    else if v < 0x1_0000 then (0xFB, 2)
    else if v < 0x1_0000_0000 then (0xFC, 4)
    else if v <= U64_MAX then (0xFD, 8)
    else (0xFE, 16)
  }

  function PutVarint(v: nat, rest: Bytes): Bytes {
    [VarintForm(v).0] + (BigEndianBytes(v, VarintForm(v).1) + rest)
  }

  lemma VarintReads(v: nat)
    requires v <= U128_MAX
    ensures forall rest :: ReadVarint(PutVarint(v, rest)) == Some((v, rest))
  {
    hide IntPow, BigEndian, BigEndianBytes, Take;
    Sizes();
    var (tag, width) := VarintForm(v);
    var tail := BigEndianBytes(v, width);
    if width > 0 {
      BigEndianReads(v, width);
    }
    TakeReads(tail);
    forall rest
      ensures ReadVarint(PutVarint(v, rest)) == Some((v, rest))
    {
      var all := PutVarint(v, rest);
      assert all[0] == tag && all[1..] == tail + rest;
      if width == 0 {
        assert tail + rest == rest;
      }
    }
  }

  lemma NumberReads(v: nat)
    requires v <= MAX_SAFE_INTEGER
    ensures forall rest :: ReadNumber(PutVarint(v, rest)) == Some((v, rest))
  {
    hide PutVarint, ReadVarint;
    VarintReads(v);
  }

  lemma U64Reads(v: nat)
    requires v <= U64_MAX
    ensures forall rest :: ReadU64(PutVarint(v, rest)) == Some((v, rest))
  {
    hide PutVarint, ReadVarint;
    VarintReads(v);
  }

  function Zigzag(n: int): nat {
    if n >= 0 then 2 * n else -2 * n - 1
  }

  lemma ZigzagReads(n: int)
    ensures Unzigzag(Zigzag(n)) == n
  {
  }

  lemma SignedReads(n: int)
    requires Zigzag(n) <= U128_MAX
    ensures forall rest :: ReadSigned(PutVarint(Zigzag(n), rest)) == Some((n, rest))
  {
    hide PutVarint, ReadVarint;
    ZigzagReads(n);
    VarintReads(Zigzag(n));
  }

  function PutByteVec(b: Bytes, rest: Bytes): Bytes {
    PutVarint(|b|, b + rest)
  }

  lemma ByteVecReads(b: Bytes)
    requires |b| <= MAX_SAFE_INTEGER
    ensures forall rest :: ReadByteVec(PutByteVec(b, rest)) == Some((b, rest))
  {
    hide PutVarint, ReadNumber, Take;
    NumberReads(|b|);
    TakeReads(b);
  }

  function PutTag(tag: byte, rest: Bytes): Bytes {
    [tag] + rest
  }

  lemma TagReads(tag: byte)
    ensures forall rest :: ReadU8(PutTag(tag, rest)) == Some((tag, rest))
  {
    forall rest
      ensures ReadU8(PutTag(tag, rest)) == Some((tag, rest))
    {
      assert PutTag(tag, rest)[1..] == rest;
    }
  }

  function PutOptionByteVec(b: Option<Bytes>, rest: Bytes): Bytes {
    if b.None? then PutTag(0, rest) else PutTag(1, PutByteVec(b.value, rest))
  }

  ghost predicate ShortOption(b: Option<Bytes>) {
    b.Some? ==> |b.value| <= MAX_SAFE_INTEGER
  }

  lemma OptionByteVecReads(b: Option<Bytes>)
    requires ShortOption(b)
    ensures forall rest :: ReadOptionByteVec(PutOptionByteVec(b, rest)) == Some((b, rest))
  {
    hide PutTag, ReadU8, PutByteVec, ReadByteVec;
    TagReads(0);
    TagReads(1);
    if b.Some? {
      ByteVecReads(b.value);
    }
  }

  function PutOptionU8(v: Option<byte>, rest: Bytes): Bytes {
    if v.None? then PutTag(0, rest) else PutTag(1, PutTag(v.value, rest))
  }

  lemma OptionU8Reads(v: Option<byte>)
    ensures forall rest :: ReadOptionU8(PutOptionU8(v, rest)) == Some((v, rest))
  {
    hide PutTag, ReadU8;
    TagReads(0);
    TagReads(1);
    TagReads(if v.Some? then v.value else 0);
  }

  function PutByteVecs(bs: seq<Bytes>, rest: Bytes): Bytes {
    if bs == [] then rest else PutByteVec(bs[0], PutByteVecs(bs[1..], rest))
  }

  function PutVecOfByteVec(bs: seq<Bytes>, rest: Bytes): Bytes {
    PutVarint(|bs|, PutByteVecs(bs, rest))
  }

  ghost predicate ShortVecs(bs: seq<Bytes>) {
    |bs| <= MAX_SAFE_INTEGER && forall b <- bs :: |b| <= MAX_SAFE_INTEGER
  }

  lemma {:induction false} ByteVecsRead(bs: seq<Bytes>, rest: Bytes)
    requires forall b <- bs :: |b| <= MAX_SAFE_INTEGER
    ensures ReadByteVecs(PutByteVecs(bs, rest), |bs|) == Some((bs, rest))
  {
    hide PutByteVec, ReadByteVec;
    if bs != [] {
      assert bs[0] in bs;
      ByteVecReads(bs[0]);
      ByteVecsRead(bs[1..], rest);
      assert bs == [bs[0]] + bs[1..];
    }
  }

  lemma VecOfByteVecReads(bs: seq<Bytes>)
    requires ShortVecs(bs)
    ensures forall rest :: ReadVecOfByteVec(PutVecOfByteVec(bs, rest)) == Some((bs, rest))
  {
    hide PutVarint, ReadNumber, PutByteVecs, ReadByteVecs;
    NumberReads(|bs|);
    forall rest
      ensures ReadByteVecs(PutByteVecs(bs, rest), |bs|) == Some((bs, rest))
    {
      ByteVecsRead(bs, rest);
    }
  }
}
