/**
  The bincode 2 wire format GroveDB proofs and elements are written in, as functions
  from the unread bytes to a value and the bytes left; None where the reader throws.
*/
module BincodeReading {
  import opened Bytes

  const MAX_SAFE_INTEGER: nat := 0x1F_FFFF_FFFF_FFFF
  const U64_MAX: nat := 0xFFFF_FFFF_FFFF_FFFF
  const U128_MAX: nat := 0xFFFF_FFFF_FFFF_FFFF_FFFF_FFFF_FFFF_FFFF

  type Reading<T> = Option<(T, Bytes)>

  function BigEndian(s: Bytes): nat {
    if s == [] then 0 else BigEndian(s[..|s| - 1]) * 256 + s[|s| - 1] as nat
  }

  function Take(s: Bytes, n: nat): Reading<Bytes> {
    if n <= |s| then Some((s[..n], s[n..])) else None
  }

  function ReadU8(s: Bytes): Reading<byte> {
    if s == [] then None else Some((s[0], s[1..]))
  }

  function ReadBool(s: Bytes): Reading<bool> {
    var (b, rest) :- ReadU8(s);
    if b == 0 then Some((false, rest)) else if b == 1 then Some((true, rest)) else None
  }

  /** How many bytes follow a varint's tag. */
  function TailWidth(tag: byte): Option<nat> {
    if tag <= 250 then Some(0)
    else if tag == 0xFB then Some(2)
    else if tag == 0xFC then Some(4)
    else if tag == 0xFD then Some(8)
    else if tag == 0xFE then Some(16)
    else None
  }

  function ReadVarint(s: Bytes): Reading<nat> {
    var (tag, rest) :- ReadU8(s);
    var width :- TailWidth(tag);
    if width == 0 then Some((tag as nat, rest))
    else
      var (tail, rest') :- Take(rest, width);
      Some((BigEndian(tail), rest'))
  }

  function ReadU64(s: Bytes): Reading<nat> {
    var (v, rest) :- ReadVarint(s);
    if v <= U64_MAX then Some((v, rest)) else None
  }

  /** A varint that must fit a JavaScript safe integer: lengths and enum variants. */
  function ReadNumber(s: Bytes): Reading<nat> {
    var (v, rest) :- ReadVarint(s);
    if v <= MAX_SAFE_INTEGER then Some((v, rest)) else None
  }

  function Unzigzag(u: nat): int {
    if u % 2 == 0 then u / 2 else -(u / 2) - 1
  }

  function ReadSigned(s: Bytes): Reading<int> {
    var (u, rest) :- ReadVarint(s);
    Some((Unzigzag(u), rest))
  }

  function ReadByteVec(s: Bytes): Reading<Bytes> {
    var (n, rest) :- ReadNumber(s);
    Take(rest, n)
  }

  function ReadOptionByteVec(s: Bytes): Reading<Option<Bytes>> {
    var (tag, rest) :- ReadU8(s);
    if tag == 0 then Some((None, rest))
    else if tag == 1 then
      var (v, rest') :- ReadByteVec(rest);
      Some((Some(v), rest'))
    else None
  }

  function ReadOptionU8(s: Bytes): Reading<Option<byte>> {
    var (tag, rest) :- ReadU8(s);
    if tag == 0 then Some((None, rest))
    else if tag == 1 then
      var (v, rest') :- ReadU8(rest);
      Some((Some(v), rest'))
    else None
  }

  function ReadByteVecs(s: Bytes, count: nat): Reading<seq<Bytes>> {
    if count == 0 then Some(([], s))
    else
      var (first, rest) :- ReadByteVec(s);
      var (others, rest') :- ReadByteVecs(rest, count - 1);
      Some(([first] + others, rest'))
  }

  function ReadVecOfByteVec(s: Bytes): Reading<seq<Bytes>> {
    var (n, rest) :- ReadNumber(s);
    ReadByteVecs(rest, n)
  }
}
