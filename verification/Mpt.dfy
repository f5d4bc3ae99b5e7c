/** Merkle Patricia Trie proofs (Appendix C and Appendix D of the Ethereum Yellow Paper), checked against trie lookup. */
module Mpt {
  import opened Bytes

  type Nibble = x: int | 0 <= x < 16

  /** An RLP item. */
  datatype Rlp = Str(bytes: Bytes) | List(items: seq<Rlp>)

  /** Keccak-256 and RLP, which are not part of this model; `decode` gives None where it throws. */
  datatype Coding = Coding(keccak: Bytes -> Bytes, decode: Bytes -> Option<Rlp>)

  function Nibbles(b: Bytes): (ns: seq<Nibble>)
    ensures |ns| == 2 * |b|
  {
    if b == [] then [] else [(b[0] as int / 16) as Nibble, (b[0] as int % 16) as Nibble] + Nibbles(b[1..])
  }

  /** A compact path's nibbles, and whether it is a leaf's. */
  function CompactPath(encoded: Bytes): (seq<Nibble>, bool) {
    if encoded == [] then ([], false)
    else
      var flag := encoded[0] as int / 16;
      ((if flag % 2 == 1 then [(encoded[0] as int % 16) as Nibble] else []) + Nibbles(encoded[1..]), flag >= 2)
  }

  /** An item's bytes; a nested list is read as none. */
  function AsBytes(v: Rlp): Bytes {
    if v.Str? then v.bytes else []
  }

  /** The walk from a node expected to have this hash, the rest of the key's nibbles ahead. */
  predicate Walk(expected: Bytes, rest: seq<Nibble>, value: Bytes, nodes: seq<Bytes>, coding: Coding)
    decreases |nodes|, 1
  {
    if nodes == [] || coding.keccak(nodes[0]) != expected then false
    else
      match coding.decode(nodes[0])
      case Some(List(items)) => WalkItems(items, rest, value, nodes[1..], coding)
      case _ => false
  }

  /** The walk on from a node with these items, by their number a branch, or an extension or leaf. */
  predicate WalkItems(items: seq<Rlp>, rest: seq<Nibble>, value: Bytes, later: seq<Bytes>, coding: Coding)
    decreases |later|, 2
  {
    if |items| == 17 then
      if rest == [] then AsBytes(items[16]) == value
      else
        var next := AsBytes(items[rest[0]]);
        if next == [] then value == []
        else |next| == 32 && Walk(next, rest[1..], value, later, coding)
    else if |items| == 2 then
      var (path, leaf) := CompactPath(AsBytes(items[0]));
      if !(path <= rest) then value == []
      else if leaf then (if path == rest then AsBytes(items[1]) == value else value == [])
      else |AsBytes(items[1])| == 32 && Walk(AsBytes(items[1]), rest[|path|..], value, later, coding)
    else false
  }

  predicate Verify(root: Bytes, keyHash: Bytes, value: Bytes, nodes: seq<Bytes>, coding: Coding) {
    |root| == 32 && |keyHash| == 32 && nodes != [] && Walk(root, Nibbles(keyHash), value, nodes, coding)
  }

  // ---------- The verifier as it runs ----------

  lemma {:induction false} NibblesAt(b: Bytes, i: nat)
    requires i < |b|
    ensures Nibbles(b)[2 * i] == b[i] as int / 16 && Nibbles(b)[2 * i + 1] == b[i] as int % 16
  {
    if i > 0 {
      NibblesAt(b[1..], i - 1);
      assert Nibbles(b)[2..] == Nibbles(b[1..]);
    }
  }

  method BytesToNibbles(b: Bytes) returns (ns: seq<Nibble>)
    ensures ns == Nibbles(b)
  {
    var out := new Nibble[|b| * 2](_ => 0);
    for i := 0 to |b|
      invariant forall j | 0 <= j < 2 * i :: out[j] == Nibbles(b)[j]
    {
      NibblesAt(b, i);
      out[2 * i] := (b[i] as int / 16) as Nibble;
      out[2 * i + 1] := (b[i] as int % 16) as Nibble;
    }
    ns := out[..];
  }

  method DecodeCompactPath(encoded: Bytes) returns (path: seq<Nibble>, leaf: bool)
    ensures (path, leaf) == CompactPath(encoded)
  {
    if encoded == [] {
      return [], false;
    }
    var flag := encoded[0] as int / 16;
    leaf := flag >= 2;
    path := [];
    if flag % 2 == 1 {
      path := path + [(encoded[0] as int % 16) as Nibble];
    }
    ghost var head: seq<Nibble> := if flag % 2 == 1 then [(encoded[0] as int % 16) as Nibble] else [];
    assert path == head;
    var i := 1;
    while i < |encoded|
      invariant 1 <= i <= |encoded|
      invariant path + Nibbles(encoded[i..]) == head + Nibbles(encoded[1..])
    {
      assert encoded[i..][1..] == encoded[i + 1..];
      ghost var before := path;
      path := path + [(encoded[i] as int / 16) as Nibble];
      path := path + [(encoded[i] as int % 16) as Nibble];
      assert before + Nibbles(encoded[i..]) == path + Nibbles(encoded[i + 1..]);
      i := i + 1;
    }
    assert encoded[i..] == [] && path + [] == path;
    assert path == head + Nibbles(encoded[1..]);
  }

  method NibbleSliceEquals(a: seq<Nibble>, b: seq<Nibble>, len: nat) returns (same: bool)
    requires len <= |a| && len <= |b|
    ensures same <==> a[..len] == b[..len]
  {
    for i := 0 to len
      invariant a[..i] == b[..i]
    {
      if a[i] != b[i] {
        assert a[..len][i] != b[..len][i];
        return false;
      }
    }
    return true;
  }

  method VerifyMptProof(root: Bytes, keyHash: Bytes, value: Bytes, nodes: seq<Bytes>, coding: Coding) returns (ok: bool)
    ensures ok == Verify(root, keyHash, value, nodes, coding)
  {
    hide CompactPath;
    if |root| != 32 || |keyHash| != 32 || |nodes| == 0 {
      return false;
    }
    var nibbles := BytesToNibbles(keyHash);
    var expected, at := root, 0;
    assert nibbles[0..] == nibbles && nodes[0..] == nodes;
    for i := 0 to |nodes|
      invariant 0 <= at <= |nibbles|
      invariant Walk(root, nibbles, value, nodes, coding) == Walk(expected, nibbles[at..], value, nodes[i..], coding)
    {
      assert nodes[i..][1..] == nodes[i + 1..];
      if coding.keccak(nodes[i]) != expected {
        return false;
      }
      var decoded := coding.decode(nodes[i]);
      if decoded.None? || decoded.value.Str? {
        return false;
      }
      var items := decoded.value.items;
      if |items| == 17 {
        if at == |nibbles| {
          return AsBytes(items[16]) == value;
        }
        var next := AsBytes(items[nibbles[at]]);
        assert nibbles[at..][1..] == nibbles[at + 1..];
        at := at + 1;
        if |next| == 0 {
          return value == [];
        }
        if |next| != 32 {
          return false;
        }
        expected := next;
      } else if |items| == 2 {
        var path, leaf := DecodeCompactPath(AsBytes(items[0]));
        var remaining := nibbles[at..];
        if |path| > |remaining| {
          return value == [];
        }
        var same := NibbleSliceEquals(path, remaining, |path|);
        assert path[..|path|] == path;
        if !same {
          return value == [];
        }
        assert remaining[|path|..] == nibbles[at + |path|..];
        at := at + |path|;
        if leaf {
          if at != |nibbles| {
            return value == [];
          }
          return AsBytes(items[1]) == value;
        }
        if |AsBytes(items[1])| != 32 {
          return false;
        }
        expected := AsBytes(items[1]);
      } else {
        return false;
      }
    }
    return false;
  }
}
