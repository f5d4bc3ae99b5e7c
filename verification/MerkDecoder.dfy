/** The merk proof decoder as it runs: an offset moved over the bytes; None where it throws. */
module MerkDecoder {
  import opened Bytes
  import opened Hash
  import opened ProofTree
  import opened Executor
  import opened BincodeReading
  import opened BincodeReader
  import opened MerkFormat

  class Decoder {
    const bytes: Bytes
    const digests: Digests
    var offset: nat

    ghost predicate Valid()
      reads this
    {
      offset <= |bytes|
    }

    ghost function Unread(): Bytes
      requires Valid()
      reads this
    {
      bytes[offset..]
    }

    constructor (bytes: Bytes, digests: Digests)
      ensures Valid() && this.bytes == bytes && this.digests == digests && Unread() == bytes
    {
      this.bytes := bytes;
      this.digests := digests;
      offset := 0;
    }

    method HasMore() returns (more: bool)
      requires Valid()
      ensures more <==> Unread() != []
    {
      more := offset < |bytes|;
    }

    method U8() returns (r: Option<byte>)
      requires Valid()
      modifies this
      ensures Valid() && Follows(ReadU8(old(Unread())), r, Unread())
    {
      if offset >= |bytes| {
        return None;
      }
      assert bytes[offset..][1..] == bytes[offset + 1..];
      r := Some(bytes[offset]);
      offset := offset + 1;
    }

    method Raw(length: nat) returns (r: Option<Bytes>)
      requires Valid()
      modifies this
      ensures Valid() && Follows(Take(old(Unread()), length), r, Unread())
    {
      if offset + length > |bytes| {
        return None;
      }
      r := Some(bytes[offset..offset + length]);
      assert bytes[offset..][..length] == bytes[offset..offset + length];
      assert bytes[offset..][length..] == bytes[offset + length..];
      offset := offset + length;
    }

    method U16() returns (r: Option<nat>)
      requires Valid()
      modifies this
      ensures Valid() && Follows(ReadBigEndian(old(Unread()), 2), r, Unread())
    {
      if offset + 2 > |bytes| {
        return None;
      }
      TwoBytes(bytes, offset);
      r := Some(bytes[offset] as nat * 0x100 + bytes[offset + 1] as nat);
      offset := offset + 2;
    }

    method U32() returns (r: Option<nat>)
      requires Valid()
      modifies this
      ensures Valid() && Follows(ReadBigEndian(old(Unread()), 4), r, Unread())
    {
      if offset + 4 > |bytes| {
        return None;
      }
      FourBytes(bytes, offset);
      r := Some(
        bytes[offset] as nat * 0x100_0000
        + (bytes[offset + 1] as nat * 0x1_0000 + bytes[offset + 2] as nat * 0x100 + bytes[offset + 3] as nat));
      offset := offset + 4;
    }

    method ValueLength(large: bool) returns (r: Option<nat>)
      requires Valid()
      modifies this
      ensures Valid() && Follows(ReadValueLength(old(Unread()), large), r, Unread())
    {
      hide ReadBigEndian;
      if !large {
        r := U16();
        return;
      }
      var len := U32();
      if len.None? || len.value < LARGE_VALUE_THRESHOLD || len.value > MAX_VALUE_LEN {
        return None;
      }
      return len;
    }

    method Key() returns (r: Option<Bytes>)
      requires Valid()
      modifies this
      ensures Valid() && Follows(ReadKey(old(Unread())), r, Unread())
    {
      hide ReadU8, Take;
      var length := U8();
      if length.None? {
        return None;
      }
      r := Raw(length.value as nat);
    }

    method Value(large: bool) returns (r: Option<Bytes>)
      requires Valid()
      modifies this
      ensures Valid() && Follows(ReadValue(old(Unread()), large), r, Unread())
    {
      hide ReadValueLength, Take;
      var length := ValueLength(large);
      if length.None? {
        return None;
      }
      r := Raw(length.value);
    }

    method HashOf() returns (r: Option<Hash>)
      requires Valid()
      modifies this
      ensures Valid() && Follows(ReadHash(old(Unread()), digests), r, Unread())
    {
      hide Take;
      var b := Raw(HASH_LENGTH);
      return if b.Some? then Some(digests.hash(b.value)) else None;
    }

    /** An unsigned LEB128 of at most ten bytes and 64 bits. */
    method Varint64() returns (r: Option<nat>)
      requires Valid()
      modifies this
      ensures Valid() && Follows(ReadLeb(old(Unread())), r, Unread())
    {
      ghost var start := Unread();
      var value, scale, read := 0, 1, 0;
      while offset < |bytes|
        invariant Valid() && 0 <= read <= 9 && scale > 0 && value >= 0
        invariant ReadLebFrom(start, 0) == Added(value, scale, ReadLebFrom(Unread(), read))
        decreases |bytes| - offset
      {
        var b := bytes[offset];
        LebStep(value, scale, Unread(), read);
        assert bytes[offset..][1..] == bytes[offset + 1..];
        offset := offset + 1;
        value := value + scale * (b as nat % 0x80);
        if b < 0x80 {
          return if value <= U64_MAX then Some(value) else None;
        }
        if read >= 9 {
          return None;
        }
        scale := scale * 0x80;
        read := read + 1;
      }
      return None;
    }

    method Feature() returns (r: Option<FeatureType>)
      requires Valid()
      modifies this
      ensures Valid() && Follows(ReadFeature(old(Unread())), r, Unread())
    {
      hide ReadU8, ReadLeb;
      var code := U8();
      if code.None? {
        return None;
      }
      match code.value {
        case 0 =>
          return Some(BasicMerkNode);
        case 1 =>
          var u := Varint64();
          return if u.Some? then Some(SummedMerkNode(Unzigzag(u.value))) else None;
        case 2 =>
          var b := Raw(16);
          if b.None? {
            return None;
          }
          var v := LittleEndianOf(b.value);
          return Some(BigSummedMerkNode(SignedOf(v, b.value[15])));
        case 3 =>
          var count := Varint64();
          return if count.Some? then Some(CountedMerkNode(count.value)) else None;
        case 4 =>
          var count := Varint64();
          if count.None? {
            return None;
          }
          var u := Varint64();
          return if u.Some? then Some(CountedSummedMerkNode(count.value, Unzigzag(u.value))) else None;
        case _ =>
          return None;
      }
    }

    method Node(form: NodeForm, large: bool) returns (r: Option<MerkNode>)
      requires Valid()
      modifies this
      ensures Valid() && Follows(ReadNode(old(Unread()), form, large, digests), r, Unread())
    {
      hide ReadKey, ReadValue, ReadHash, ReadFeature;
      if form.HashForm? || form.KVHashForm? {
        var h := HashOf();
        return if h.None? then None else Some(if form.HashForm? then HashNode(h.value) else KVHashNode(h.value));
      }
      var key := Key();
      if key.None? {
        return None;
      }
      if form.KVDigestForm? {
        var h := HashOf();
        return if h.Some? then Some(KVDigest(key.value, h.value)) else None;
      }
      var value := Value(large);
      if value.None? {
        return None;
      }
      if form.KVForm? {
        return Some(KV(key.value, value.value));
      }
      var h := HashOf();
      if h.None? {
        return None;
      }
      if form.KVValueHashForm? {
        return Some(KVValueHash(key.value, value.value, h.value));
      }
      if form.KVRefValueHashForm? {
        return Some(KVRefValueHash(key.value, value.value, h.value));
      }
      var f := Feature();
      return if f.Some? then Some(KVValueHashFeatureType(key.value, value.value, h.value, f.value)) else None;
    }

    /** The next operation. */
    method Next() returns (r: Option<MerkOp>)
      requires Valid() && Unread() != []
      modifies this
      ensures Valid() && Follows(ReadOp(old(Unread()), digests), r, Unread())
    {
      hide ReadU8, ReadNode;
      var b := U8();
      if b.None? {
        return None;
      }
      match CodeOf(b.value) {
        case UnknownCode =>
          return None;
        case TreeCode(op) =>
          return Some(op);
        case PushCode(form, inverted, large) =>
          var node := Node(form, large);
          return if node.None? then None else Some(if inverted then PushInverted(node.value) else Push(node.value));
      }
    }
  }

  lemma OneMore(s: Bytes, c: byte)
    ensures BigEndian(s + [c]) == BigEndian(s) * 256 + c as nat
  {
    assert (s + [c])[..|s|] == s;
  }

  lemma BytePairs(w: byte, x: byte, y: byte, z: byte)
    ensures BigEndian([w, x]) == w as nat * 0x100 + x as nat
    ensures BigEndian([w, x, y, z]) ==
            w as nat * 0x100_0000 + (x as nat * 0x1_0000 + y as nat * 0x100 + z as nat)
  {
    hide BigEndian;
    OneMore([], w);
    OneMore([w], x);
    OneMore([w, x], y);
    OneMore([w, x, y], z);
    assert [] + [w] == [w] && [w] + [x] == [w, x] && [w, x] + [y] == [w, x, y] && [w, x, y] + [z] == [w, x, y, z];
    NoBytes();
  }

  lemma NoBytes()
    ensures BigEndian([]) == 0
  {
  }

  lemma TwoBytes(b: Bytes, i: nat)
    requires i + 2 <= |b|
    ensures ReadBigEndian(b[i..], 2) == Some((b[i] as nat * 0x100 + b[i + 1] as nat, b[i + 2..]))
  {
    hide BigEndian;
    BytePairs(b[i], b[i + 1], 0, 0);
    assert b[i..][..2] == [b[i], b[i + 1]] && b[i..][2..] == b[i + 2..];
  }

  lemma FourBytes(b: Bytes, i: nat)
    requires i + 4 <= |b|
    ensures ReadBigEndian(b[i..], 4) ==
            Some((b[i] as nat * 0x100_0000
                  + (b[i + 1] as nat * 0x1_0000 + b[i + 2] as nat * 0x100 + b[i + 3] as nat), b[i + 4..]))
  {
    hide BigEndian;
    BytePairs(b[i], b[i + 1], b[i + 2], b[i + 3]);
    assert b[i..][..4] == [b[i], b[i + 1], b[i + 2], b[i + 3]] && b[i..][4..] == b[i + 4..];
  }

  method LittleEndianOf(b: Bytes) returns (v: nat)
    ensures v == LittleEndian(b)
  {
    v := 0;
    var i := |b|;
    assert b[|b|..] == [];
    while i > 0
      invariant 0 <= i <= |b| && v == LittleEndian(b[i..])
    {
      i := i - 1;
      assert b[i..][1..] == b[i + 1..];
      v := b[i] as nat + 256 * v;
    }
    assert b[0..] == b;
  }

  ghost function Added(value: nat, scale: nat, r: Reading<nat>): Reading<nat> {
    if r.None? then None else Some((value + scale * r.value.0, r.value.1))
  }

  lemma LebStep(value: nat, scale: nat, s: Bytes, i: nat)
    requires s != []
    ensures Added(value, scale, ReadLebFrom(s, i)) ==
            if s[0] < 0x80 then Some((value + scale * (s[0] as nat % 0x80), s[1..]))
            else if i >= 9 then None
            else Added(value + scale * (s[0] as nat % 0x80), scale * 0x80, ReadLebFrom(s[1..], i + 1))
  {
    if s[0] >= 0x80 && i < 9 && ReadLebFrom(s[1..], i + 1).Some? {
      Distribute(scale, s[0] as nat - 0x80, ReadLebFrom(s[1..], i + 1).value.0);
    }
  }

  lemma Distribute(a: nat, b: nat, c: nat)
    ensures a * (b + 0x80 * c) == a * b + (a * 0x80) * c
  {
  }

  /** Every operation of a merk proof. */
  method DecodeMerkOps(bytes: Bytes, digests: Digests) returns (r: Option<seq<MerkOp>>)
    ensures r == ReadOps(bytes, digests)
  {
    hide ReadOp;
    var decoder := new Decoder(bytes, digests);
    var ops: seq<MerkOp> := [];
    PrependedOpsNothing(ReadOps(bytes, digests));
    var more := decoder.HasMore();
    while more
      invariant decoder.Valid() && decoder.bytes == bytes && decoder.digests == digests
      invariant more <==> decoder.Unread() != []
      invariant ReadOps(bytes, digests) == PrependedOps(ops, ReadOps(decoder.Unread(), digests))
      decreases |decoder.Unread()|
    {
      OpShrinks(decoder.Unread(), digests);
      ghost var unread := decoder.Unread();
      var op := decoder.Next();
      if op.None? {
        return None;
      }
      PrependedOpsStep(ops, op.value, ReadOps(decoder.Unread(), digests));
      ops := ops + [op.value];
      more := decoder.HasMore();
    }
    assert ops + [] == ops;
    return Some(ops);
  }

  ghost function PrependedOps(before: seq<MerkOp>, r: Option<seq<MerkOp>>): Option<seq<MerkOp>> {
    if r.None? then None else Some(before + r.value)
  }

  lemma PrependedOpsNothing(r: Option<seq<MerkOp>>)
    ensures PrependedOps([], r) == r
  {
    if r.Some? {
      assert [] + r.value == r.value;
    }
  }

  lemma PrependedOpsStep(before: seq<MerkOp>, op: MerkOp, r: Option<seq<MerkOp>>)
    ensures PrependedOps(before, if r.None? then None else Some([op] + r.value)) == PrependedOps(before + [op], r)
  {
    if r.Some? {
      assert before + ([op] + r.value) == (before + [op]) + r.value;
    }
  }
}
