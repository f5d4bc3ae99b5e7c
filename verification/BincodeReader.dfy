/** The bincode reader as it runs: an offset moved over the bytes; None where it throws. */
module BincodeReader {
  import opened Bytes
  import opened BincodeReading
  import opened Element

  /** The method's result and the bytes it leaves are the reading's. */
  ghost predicate Follows<T>(reading: Reading<T>, r: Option<T>, unread: Bytes) {
    match reading
    case None => r.None?
    case Some((v, rest)) => r == Some(v) && unread == rest
  }

  class Reader {
    const data: Bytes
    var offset: nat

    ghost predicate Valid()
      reads this
    {
      offset <= |data|
    }

    ghost function Unread(): Bytes
      requires Valid()
      reads this
    {
      data[offset..]
    }

    constructor (data: Bytes)
      ensures Valid() && this.data == data && Unread() == data
    {
      this.data := data;
      offset := 0;
    }

    method HasMore() returns (more: bool)
      requires Valid()
      ensures more <==> Unread() != []
    {
      more := offset < |data|;
    }

    method Bytes(n: nat) returns (r: Option<Bytes>)
      requires Valid()
      modifies this
      ensures Valid() && old(offset) <= offset && Follows(Take(old(Unread()), n), r, Unread())
    {
      if offset + n > |data| {
        return None;
      }
      r := Some(data[offset..offset + n]);
      assert data[offset..][..n] == data[offset..offset + n] && data[offset..][n..] == data[offset + n..];
      offset := offset + n;
    }

    method U8() returns (r: Option<byte>)
      requires Valid()
      modifies this
      ensures Valid() && old(offset) <= offset && Follows(ReadU8(old(Unread())), r, Unread())
      ensures r.Some? ==> old(offset) < offset
    {
      if offset + 1 > |data| {
        return None;
      }
      assert data[offset..][1..] == data[offset + 1..];
      r := Some(data[offset]);
      offset := offset + 1;
    }

    method Bool() returns (r: Option<bool>)
      requires Valid()
      modifies this
      ensures Valid() && old(offset) <= offset && Follows(ReadBool(old(Unread())), r, Unread())
    {
      hide ReadU8;
      var b := U8();
      if b.None? || b.value > 1 {
        return None;
      }
      return Some(b.value == 1);
    }

    method Varint() returns (r: Option<nat>)
      requires Valid()
      modifies this
      ensures Valid() && old(offset) <= offset && Follows(ReadVarint(old(Unread())), r, Unread())
      ensures r.Some? ==> old(offset) < offset
    {
      hide ReadU8, Take, BigEndian;
      var tag := U8();
      if tag.None? {
        return None;
      }
      if tag.value <= 250 {
        return Some(tag.value as nat);
      }
      var width := if tag.value == 0xFB then 2 else if tag.value == 0xFC then 4 else if tag.value == 0xFD then 8
                   else if tag.value == 0xFE then 16 else 0;
      if width == 0 {
        return None;
      }
      var tail := Bytes(width);
      if tail.None? {
        return None;
      }
      var v := BigEndianOf(tail.value);
      return Some(v);
    }

    method U64() returns (r: Option<nat>)
      requires Valid()
      modifies this
      ensures Valid() && old(offset) <= offset && Follows(ReadU64(old(Unread())), r, Unread())
    {
      hide ReadVarint;
      var v := Varint();
      return if v.Some? && v.value <= U64_MAX then v else None;
    }

    method Number() returns (r: Option<nat>)
      requires Valid()
      modifies this
      ensures Valid() && old(offset) <= offset && Follows(ReadNumber(old(Unread())), r, Unread())
      ensures r.Some? ==> old(offset) < offset
    {
      hide ReadVarint;
      var v := Varint();
      return if v.Some? && v.value <= MAX_SAFE_INTEGER then v else None;
    }

    method Signed() returns (r: Option<int>)
      requires Valid()
      modifies this
      ensures Valid() && old(offset) <= offset && Follows(ReadSigned(old(Unread())), r, Unread())
    {
      hide ReadVarint;
      var u := Varint();
      return if u.Some? then Some(Unzigzag(u.value)) else None;
    }

    method ByteVec() returns (r: Option<Bytes>)
      requires Valid()
      modifies this
      ensures Valid() && old(offset) <= offset && Follows(ReadByteVec(old(Unread())), r, Unread())
      ensures r.Some? ==> old(offset) < offset
    {
      hide ReadNumber, Take;
      var n := Number();
      if n.None? {
        return None;
      }
      r := Bytes(n.value);
    }

    method OptionByteVec() returns (r: Option<Option<Bytes>>)
      requires Valid()
      modifies this
      ensures Valid() && old(offset) <= offset && Follows(ReadOptionByteVec(old(Unread())), r, Unread())
    {
      hide ReadU8, ReadByteVec;
      var tag := U8();
      if tag.None? || tag.value > 1 {
        return None;
      }
      if tag.value == 0 {
        return Some(None);
      }
      var v := ByteVec();
      return if v.Some? then Some(v) else None;
    }

    method OptionU8() returns (r: Option<Option<byte>>)
      requires Valid()
      modifies this
      ensures Valid() && old(offset) <= offset && Follows(ReadOptionU8(old(Unread())), r, Unread())
    {
      hide ReadU8;
      var tag := U8();
      if tag.None? || tag.value > 1 {
        return None;
      }
      if tag.value == 0 {
        return Some(None);
      }
      var v := U8();
      return if v.Some? then Some(v) else None;
    }

    method VecOfByteVec() returns (r: Option<seq<Bytes>>)
      requires Valid()
      modifies this
      ensures Valid() && old(offset) <= offset && Follows(ReadVecOfByteVec(old(Unread())), r, Unread())
    {
      hide ReadNumber, ReadByteVec;
      var count := Number();
      if count.None? {
        return None;
      }
      ghost var start := Unread();
      var all: seq<Bytes> := [];
      var i := 0;
      PrependedNothing(ReadByteVecs(start, count.value));
      while i < count.value
        invariant Valid() && old(offset) <= offset && |all| == i <= count.value
        invariant ReadByteVecs(start, count.value) == Prepended(all, ReadByteVecs(Unread(), count.value - i))
      {
        PrependedStep(all, Unread(), count.value - i);
        var b := ByteVec();
        if b.None? {
          return None;
        }
        all := all + [b.value];
        i := i + 1;
      }
      assert all + [] == all;
      return Some(all);
    }

    // ---------- Elements ----------

    method ReferencePath() returns (r: Option<seq<Bytes>>)
      requires Valid()
      modifies this
      ensures Valid() && old(offset) <= offset && Follows(ReadReferencePath(old(Unread())), r, Unread())
    {
      hide ReadNumber, ReadVecOfByteVec, ReadByteVec, ReadU8;
      var variant := Number();
      if variant.None? {
        return None;
      }
      match variant.value {
        case 0 =>
          r := VecOfByteVec();
        case 1 | 2 | 3 =>
          var height := U8();
          if height.None? {
            return None;
          }
          r := VecOfByteVec();
        case 4 =>
          var key := ByteVec();
          return if key.Some? then Some([key.value]) else None;
        case 5 =>
          r := VecOfByteVec();
        case 6 =>
          var key := ByteVec();
          return if key.Some? then Some([key.value]) else None;
        case _ =>
          return None;
      }
    }

    method OneElement() returns (r: Option<Element>)
      requires Valid()
      modifies this
      ensures Valid() && old(offset) <= offset && Follows(ReadElement(old(Unread())), r, Unread())
    {
      hide ReadNumber, ReadByteVec, ReadOptionByteVec, ReadSigned, ReadU64, ReadReferencePath, ReadOptionU8;
      var variant := Number();
      if variant.None? {
        return None;
      }
      match variant.value {
        case 0 =>
          var value := ByteVec();
          if value.None? {
            return None;
          }
          var flags := OptionByteVec();
          if flags.None? {
            return None;
          }
          return Some(Item(value.value, flags.value));
        case 1 =>
          var path := ReferencePath();
          if path.None? {
            return None;
          }
          var hops := OptionU8();
          if hops.None? {
            return None;
          }
          var flags := OptionByteVec();
          if flags.None? {
            return None;
          }
          return Some(Reference(path.value, flags.value));
        case 2 =>
          var root := OptionByteVec();
          if root.None? {
            return None;
          }
          var flags := OptionByteVec();
          if flags.None? {
            return None;
          }
          return Some(Tree(root.value, flags.value));
        case 3 =>
          var sum := Signed();
          if sum.None? {
            return None;
          }
          var flags := OptionByteVec();
          if flags.None? {
            return None;
          }
          return Some(SumItem(sum.value, flags.value));
        case 4 =>
          var root := OptionByteVec();
          if root.None? {
            return None;
          }
          var sum := Signed();
          if sum.None? {
            return None;
          }
          var flags := OptionByteVec();
          if flags.None? {
            return None;
          }
          return Some(SumTree(root.value, sum.value, flags.value));
        case 5 =>
          var root := OptionByteVec();
          if root.None? {
            return None;
          }
          var sum := Signed();
          if sum.None? {
            return None;
          }
          var flags := OptionByteVec();
          if flags.None? {
            return None;
          }
          return Some(BigSumTree(root.value, sum.value, flags.value));
        case 6 =>
          var root := OptionByteVec();
          if root.None? {
            return None;
          }
          var count := U64();
          if count.None? {
            return None;
          }
          var flags := OptionByteVec();
          if flags.None? {
            return None;
          }
          return Some(CountTree(root.value, count.value, flags.value));
        case 7 =>
          var root := OptionByteVec();
          if root.None? {
            return None;
          }
          var count := U64();
          if count.None? {
            return None;
          }
          var sum := Signed();
          if sum.None? {
            return None;
          }
          var flags := OptionByteVec();
          if flags.None? {
            return None;
          }
          return Some(CountSumTree(root.value, count.value, sum.value, flags.value));
        case _ =>
          return None;
      }
    }
  }

  method BigEndianOf(b: Bytes) returns (v: nat)
    ensures v == BigEndian(b)
  {
    v := 0;
    for i := 0 to |b|
      invariant v == BigEndian(b[..i])
    {
      assert b[..i + 1][..i] == b[..i];
      v := v * 256 + b[i] as nat;
    }
    assert b[..|b|] == b;
  }

  ghost function Prepended(before: seq<Bytes>, r: Reading<seq<Bytes>>): Reading<seq<Bytes>> {
    if r.None? then None else Some((before + r.value.0, r.value.1))
  }

  lemma PrependedNothing(r: Reading<seq<Bytes>>)
    ensures Prepended([], r) == r
  {
    if r.Some? {
      assert [] + r.value.0 == r.value.0;
    }
  }

  lemma PrependedStep(before: seq<Bytes>, s: Bytes, count: nat)
    requires count > 0
    ensures Prepended(before, ReadByteVecs(s, count)) ==
            if ReadByteVec(s).None? then None
            else Prepended(before + [ReadByteVec(s).value.0], ReadByteVecs(ReadByteVec(s).value.1, count - 1))
  {
    hide ReadByteVec;
    if ReadByteVec(s).Some? {
      var (b, rest) := ReadByteVec(s).value;
      var others := ReadByteVecs(rest, count - 1);
      if others.Some? {
        assert before + ([b] + others.value.0) == (before + [b]) + others.value.0;
      }
    }
  }

  /** The element the whole of the bytes are, trailing bytes refused. */
  method DeserializeElement(bytes: Bytes) returns (r: Option<Element>)
    ensures r == Deserialize(bytes)
  {
    hide ReadElement;
    var reader := new Reader(bytes);
    var element := reader.OneElement();
    if element.None? {
      return None;
    }
    var more := reader.HasMore();
    return if more then None else element;
  }
}
