/** A proof accepted for a trie's root, against looking the key up in the trie. */
module MptSoundness {
  import opened Bytes
  import opened Mpt

  /** A trie; a child written in fewer than 32 bytes is kept inline in its parent, any other referenced by its hash. */
  datatype Trie =
    | Empty
    | Branch(children: seq<Trie>, value: Bytes)
    | Extension(path: seq<Nibble>, child: Trie)
    | Leaf(path: seq<Nibble>, value: Bytes)

  ghost predicate ValidTrie(t: Trie) {
    match t
    case Empty => true
    case Branch(children, _) => |children| == 16 && forall c <- children :: ValidTrie(c)
    case Extension(_, child) => child != Empty && ValidTrie(child)
    case Leaf(_, _) => true
  }

  function ChildAt(t: Trie, n: Nibble): (c: Trie)
    requires t.Branch? && ValidTrie(t)
    ensures ValidTrie(c) && c in t.children
  {
    t.children[n]
  }

  /** The value at a key; none is the empty value. */
  function Lookup(t: Trie, key: seq<Nibble>): Bytes
    requires ValidTrie(t)
  {
    match t
    case Empty => []
    case Leaf(path, value) => if key == path then value else []
    case Extension(path, child) => if path <= key then Lookup(child, key[|path|..]) else []
    case Branch(children, value) => if key == [] then value else Lookup(children[key[0]], key[1..])
  }

  // ---------- How a trie is written ----------

  function Pack(ns: seq<Nibble>): Bytes
    requires |ns| % 2 == 0
  {
    if ns == [] then [] else [(16 * (ns[0] as int) + ns[1] as int) as byte] + Pack(ns[2..])
  }

  /** The hex-prefix encoding of a path. */
  function HexPrefix(path: seq<Nibble>, leaf: bool): Bytes {
    var flag: int := if leaf then 2 else 0;
    if |path| % 2 == 0 then [(16 * flag) as byte] + Pack(path)
    else [(16 * (flag + 1) + path[0] as int) as byte] + Pack(path[1..])
  }

  lemma {:induction false} PackReads(ns: seq<Nibble>)
    requires |ns| % 2 == 0
    ensures Nibbles(Pack(ns)) == ns
  {
    if ns != [] {
      PackReads(ns[2..]);
      assert Pack(ns)[1..] == Pack(ns[2..]);
      assert ns == [ns[0], ns[1]] + ns[2..];
    }
  }

  /** Decoding a path's hex-prefix encoding gives the path and its kind back. */
  lemma HexPrefixReads(path: seq<Nibble>, leaf: bool)
    ensures CompactPath(HexPrefix(path, leaf)) == (path, leaf)
  {
    var e := HexPrefix(path, leaf);
    if |path| % 2 == 0 {
      PackReads(path);
      assert e[1..] == Pack(path) && [] + path == path;
    } else {
      PackReads(path[1..]);
      assert e[1..] == Pack(path[1..]);
      assert path == [path[0]] + path[1..];
    }
  }

  function NodeOf(t: Trie, coding: Coding, encode: Rlp -> Bytes): Rlp
    requires ValidTrie(t) && t != Empty
    decreases t, 1
  {
    match t
    case Branch(children, value) => List(Slots(children, coding, encode) + [Str(value)])
    case Extension(path, child) => List([Str(HexPrefix(path, false)), Slot(child, coding, encode)])
    case Leaf(path, value) => List([Str(HexPrefix(path, true)), Str(value)])
  }

  function NodeBytes(t: Trie, coding: Coding, encode: Rlp -> Bytes): Bytes
    requires ValidTrie(t) && t != Empty
    decreases t, 2
  {
    encode(NodeOf(t, coding, encode))
  }

  /** The node is too short to be referenced by its hash. */
  predicate Inline(t: Trie, coding: Coding, encode: Rlp -> Bytes)
    requires ValidTrie(t)
    decreases t, 3
  {
    t != Empty && |NodeBytes(t, coding, encode)| < 32
  }

  /** How a parent refers to a child: nothing for no child, a short node itself, any other by its hash. */
  function Slot(t: Trie, coding: Coding, encode: Rlp -> Bytes): Rlp
    requires ValidTrie(t)
    decreases t, 4
  {
    if t == Empty then Str([])
    else if Inline(t, coding, encode) then NodeOf(t, coding, encode)
    else Str(coding.keccak(NodeBytes(t, coding, encode)))
  }

  /** An inline child, being a list, has no bytes where a hash is looked for. */
  lemma SlotBytes(t: Trie, coding: Coding, encode: Rlp -> Bytes)
    requires ValidTrie(t)
    ensures AsBytes(Slot(t, coding, encode))
         == if t == Empty || Inline(t, coding, encode) then [] else RootHash(t, coding, encode)
  {
    hide Slots, HexPrefix;
    if t != Empty {
      assert NodeOf(t, coding, encode).List?;
    }
  }

  function Slots(ts: seq<Trie>, coding: Coding, encode: Rlp -> Bytes): (items: seq<Rlp>)
    requires forall t <- ts :: ValidTrie(t)
    ensures |items| == |ts| && forall i | 0 <= i < |ts| :: items[i] == Slot(ts[i], coding, encode)
    decreases ts, 0
  {
    if ts == [] then [] else [Slot(ts[0], coding, encode)] + Slots(ts[1..], coding, encode)
  }

  function RootHash(t: Trie, coding: Coding, encode: Rlp -> Bytes): Bytes
    requires ValidTrie(t) && t != Empty
  {
    coding.keccak(NodeBytes(t, coding, encode))
  }

  /** RLP decodes what it encodes. */
  ghost predicate Decodes(coding: Coding, encode: Rlp -> Bytes) {
    forall x :: coding.decode(encode(x)) == Some(x)
  }

  /** No proof node has the hash of one of the trie's nodes without being it. */
  ghost predicate NoCollision(t: Trie, nodes: seq<Bytes>, coding: Coding, encode: Rlp -> Bytes)
    requires ValidTrie(t)
  {
    t != Empty ==>
      && (forall n <- nodes :: coding.keccak(n) == RootHash(t, coding, encode) ==> n == NodeBytes(t, coding, encode))
      && match t
         case Branch(children, _) => forall c <- children :: NoCollision(c, nodes, coding, encode)
         case Extension(_, child) => NoCollision(child, nodes, coding, encode)
         case _ => true
  }

  lemma {:induction false} FewerCollide(t: Trie, nodes: seq<Bytes>, coding: Coding, encode: Rlp -> Bytes)
    requires ValidTrie(t) && nodes != [] && NoCollision(t, nodes, coding, encode)
    ensures NoCollision(t, nodes[1..], coding, encode)
    decreases t
  {
    hide NodeBytes, RootHash;
    match t
    case Branch(children, _) =>
      forall c | c in children
        ensures NoCollision(c, nodes[1..], coding, encode)
      {
        FewerCollide(c, nodes, coding, encode);
      }
    case Extension(_, child) => FewerCollide(child, nodes, coding, encode);
    case _ =>
  }

  // ---------- Soundness ----------

  /** The first inline node below a node on a key's path, if there is one: a branch's child, or an extension's. */
  datatype Met = NoInline | BelowBranch | BelowExtension

  function InlineOnPath(t: Trie, key: seq<Nibble>, coding: Coding, encode: Rlp -> Bytes): Met
    requires ValidTrie(t)
  {
    match t
    case Empty => NoInline
    case Leaf(_, _) => NoInline
    case Extension(path, child) =>
      if !(path <= key) then NoInline
      else if Inline(child, coding, encode) then BelowExtension
      else InlineOnPath(child, key[|path|..], coding, encode)
    case Branch(children, _) =>
      if key == [] then NoInline
      else if Inline(children[key[0]], coding, encode) then BelowBranch
      else InlineOnPath(children[key[0]], key[1..], coding, encode)
  }

  /** What the walk makes of the key: its value, none at a branch's inline child, a refusal at an extension's. */
  ghost predicate Reads(t: Trie, key: seq<Nibble>, value: Bytes, coding: Coding, encode: Rlp -> Bytes)
    requires ValidTrie(t)
  {
    match InlineOnPath(t, key, coding, encode)
    case NoInline => Lookup(t, key) == value
    case BelowBranch => value == []
    case BelowExtension => false
  }

  lemma EmptyReads(key: seq<Nibble>, coding: Coding, encode: Rlp -> Bytes)
    ensures key != [] ==> InlineOnPath(Empty, key[1..], coding, encode) == NoInline && Lookup(Empty, key[1..]) == []
  {
  }

  /** What the walk does at a trie's node, on to its child or to the end. */
  predicate StepAt(t: Trie, rest: seq<Nibble>, value: Bytes, nodes: seq<Bytes>, coding: Coding, encode: Rlp -> Bytes)
    requires ValidTrie(t) && t != Empty && nodes != []
  {
    match t
    case Leaf(path, v) => if path == rest then v == value else value == []
    case Extension(path, child) =>
      if !(path <= rest) then value == []
      else !Inline(child, coding, encode) && Onward(child, rest[|path|..], value, nodes[1..], coding, encode)
    case Branch(_, v) =>
      if rest == [] then v == value
      else if ChildAt(t, rest[0]) == Empty || Inline(ChildAt(t, rest[0]), coding, encode) then value == []
      else Onward(ChildAt(t, rest[0]), rest[1..], value, nodes[1..], coding, encode)
  }

  predicate Onward(t: Trie, rest: seq<Nibble>, value: Bytes, nodes: seq<Bytes>, coding: Coding, encode: Rlp -> Bytes)
    requires ValidTrie(t) && t != Empty
  {
    Walk(RootHash(t, coding, encode), rest, value, nodes, coding)
  }

  lemma WalkAtNode(t: Trie, rest: seq<Nibble>, value: Bytes, nodes: seq<Bytes>, coding: Coding, encode: Rlp -> Bytes)
    requires ValidTrie(t) && t != Empty && Decodes(coding, encode)
    requires nodes != [] && nodes[0] == NodeBytes(t, coding, encode)
    requires forall b :: |coding.keccak(b)| == 32
    ensures Onward(t, rest, value, nodes, coding, encode) == StepAt(t, rest, value, nodes, coding, encode)
  {
    hide WalkItems, NodeOf, CompactPath;
    assert coding.decode(nodes[0]) == Some(NodeOf(t, coding, encode));
    match t
    case Leaf(path, v) => LeafItems(path, v, rest, value, nodes[1..], coding, encode);
    case Extension(_, _) => ExtensionItems(t, rest, value, nodes[1..], coding, encode);
    case Branch(_, _) => BranchItems(t, rest, value, nodes[1..], coding, encode);
  }

  lemma LeafItems(
    path: seq<Nibble>, v: Bytes, rest: seq<Nibble>, value: Bytes, later: seq<Bytes>, coding: Coding, encode: Rlp -> Bytes)
    ensures
      NodeOf(Leaf(path, v), coding, encode).List?
      && WalkItems(NodeOf(Leaf(path, v), coding, encode).items, rest, value, later, coding)
         == if path == rest then v == value else value == []
  {
    hide CompactPath, HexPrefix, Walk;
    HexPrefixReads(path, true);
  }

  lemma ExtensionItems(t: Trie, rest: seq<Nibble>, value: Bytes, later: seq<Bytes>, coding: Coding, encode: Rlp -> Bytes)
    requires ValidTrie(t) && t.Extension? && forall b :: |coding.keccak(b)| == 32
    ensures
      NodeOf(t, coding, encode).List?
      && WalkItems(NodeOf(t, coding, encode).items, rest, value, later, coding)
         == if !(t.path <= rest) then value == []
            else !Inline(t.child, coding, encode) && Onward(t.child, rest[|t.path|..], value, later, coding, encode)
  {
    hide CompactPath, HexPrefix, Walk, Inline, RootHash;
    HexPrefixReads(t.path, false);
    SlotBytes(t.child, coding, encode);
  }

  lemma BranchItems(t: Trie, rest: seq<Nibble>, value: Bytes, later: seq<Bytes>, coding: Coding, encode: Rlp -> Bytes)
    requires ValidTrie(t) && t.Branch? && forall b :: |coding.keccak(b)| == 32
    ensures
      NodeOf(t, coding, encode).List?
      && WalkItems(NodeOf(t, coding, encode).items, rest, value, later, coding)
         == if rest == [] then t.value == value
            else if ChildAt(t, rest[0]) == Empty || Inline(ChildAt(t, rest[0]), coding, encode) then value == []
            else Onward(ChildAt(t, rest[0]), rest[1..], value, later, coding, encode)
  {
    hide CompactPath, Walk, Slots, Inline, RootHash;
    var items := NodeOf(t, coding, encode).items;
    assert |items| == 17;
    if rest != [] {
      assert items[rest[0]] == Slot(t.children[rest[0]], coding, encode);
      SlotBytes(t.children[rest[0]], coding, encode);
    }
  }

  lemma {:induction false} WalkSound(
    t: Trie, rest: seq<Nibble>, value: Bytes, nodes: seq<Bytes>, coding: Coding, encode: Rlp -> Bytes)
    requires ValidTrie(t) && t != Empty && Decodes(coding, encode) && NoCollision(t, nodes, coding, encode)
    requires forall b :: |coding.keccak(b)| == 32
    requires Onward(t, rest, value, nodes, coding, encode)
    ensures Reads(t, rest, value, coding, encode)
    decreases |nodes|
  {
    hide CompactPath, HexPrefix, Slots, NodeOf, NodeBytes;
    assert nodes[0] in nodes && coding.keccak(nodes[0]) == RootHash(t, coding, encode);
    WalkAtNode(t, rest, value, nodes, coding, encode);
    match t
    case Leaf(_, _) =>
    case Extension(path, child) =>
      if path <= rest {
        FewerCollide(child, nodes, coding, encode);
        WalkSound(child, rest[|path|..], value, nodes[1..], coding, encode);
      }
    case Branch(children, _) =>
      EmptyReads(rest, coding, encode);
      if rest != [] && children[rest[0]] != Empty && !Inline(children[rest[0]], coding, encode) {
        assert children[rest[0]] in children;
        FewerCollide(children[rest[0]], nodes, coding, encode);
        WalkSound(children[rest[0]], rest[1..], value, nodes[1..], coding, encode);
      }
  }

  /**
    Whatever the proof, a value verified against a trie's root is what the walk makes of the
    key: the value the trie holds there, unless the key's path meets an inline node. Below a
    branch only the empty value is then verified, below an extension none.
  */
  lemma VerifiedIsLookedUp(
    t: Trie, keyHash: Bytes, value: Bytes, nodes: seq<Bytes>, coding: Coding, encode: Rlp -> Bytes)
    requires ValidTrie(t) && t != Empty && Decodes(coding, encode) && NoCollision(t, nodes, coding, encode)
    requires forall b :: |coding.keccak(b)| == 32
    requires Verify(RootHash(t, coding, encode), keyHash, value, nodes, coding)
    ensures Reads(t, Nibbles(keyHash), value, coding, encode)
    ensures value != [] ==> Lookup(t, Nibbles(keyHash)) == value
    ensures value == [] && Lookup(t, Nibbles(keyHash)) != [] ==>
              InlineOnPath(t, Nibbles(keyHash), coding, encode) == BelowBranch
  {
    hide Walk, Lookup, NoCollision, RootHash, InlineOnPath;
    WalkSound(t, Nibbles(keyHash), value, nodes, coding, encode);
  }

  // ---------- Completeness ----------

  /** The nodes referenced by hash from the root down the key's path. */
  function ProofFor(t: Trie, key: seq<Nibble>, coding: Coding, encode: Rlp -> Bytes): seq<Bytes>
    requires ValidTrie(t)
  {
    match t
    case Empty => []
    case Leaf(_, _) => [NodeBytes(t, coding, encode)]
    case Extension(path, child) =>
      [NodeBytes(t, coding, encode)]
      + if path <= key && !Inline(child, coding, encode) then ProofFor(child, key[|path|..], coding, encode) else []
    case Branch(children, _) =>
      [NodeBytes(t, coding, encode)]
      + if key == [] || Inline(children[key[0]], coding, encode) then []
        else ProofFor(children[key[0]], key[1..], coding, encode)
  }

  lemma {:induction false} HonestWalk(t: Trie, rest: seq<Nibble>, value: Bytes, coding: Coding, encode: Rlp -> Bytes)
    requires ValidTrie(t) && t != Empty && Decodes(coding, encode) && forall b :: |coding.keccak(b)| == 32
    ensures Onward(t, rest, value, ProofFor(t, rest, coding, encode), coding, encode)
        <==> Reads(t, rest, value, coding, encode)
    decreases t
  {
    hide CompactPath, HexPrefix, Slots, NodeOf, NodeBytes, Walk;
    var nodes := ProofFor(t, rest, coding, encode);
    WalkAtNode(t, rest, value, nodes, coding, encode);
    match t
    case Leaf(_, _) =>
    case Extension(path, child) =>
      if path <= rest && !Inline(child, coding, encode) {
        assert nodes[1..] == ProofFor(child, rest[|path|..], coding, encode);
        HonestWalk(child, rest[|path|..], value, coding, encode);
      }
    case Branch(children, _) =>
      EmptyReads(rest, coding, encode);
      if rest != [] && children[rest[0]] != Empty && !Inline(children[rest[0]], coding, encode) {
        assert children[rest[0]] in children;
        assert nodes[1..] == ProofFor(children[rest[0]], rest[1..], coding, encode);
        HonestWalk(children[rest[0]], rest[1..], value, coding, encode);
      }
  }

  /** The trie's own proof for a key verifies for what the walk makes of the key, and for no other value. */
  lemma HonestProofVerifies(t: Trie, keyHash: Bytes, value: Bytes, coding: Coding, encode: Rlp -> Bytes)
    requires ValidTrie(t) && t != Empty && Decodes(coding, encode) && |keyHash| == 32
    requires forall b :: |coding.keccak(b)| == 32
    ensures
      Verify(RootHash(t, coding, encode), keyHash, value, ProofFor(t, Nibbles(keyHash), coding, encode), coding)
      <==> Reads(t, Nibbles(keyHash), value, coding, encode)
  {
    hide Walk, Lookup, NodeBytes, InlineOnPath;
    HonestWalk(t, Nibbles(keyHash), value, coding, encode);
  }

  /**
    Every verified value is the looked-up one if and only if the key has no value behind an
    inline child of a branch: there the verifier takes the child for an empty slot, and the
    trie's own proof verifies that the key is absent.
  */
  lemma VerifiedIsLookedUpIff(t: Trie, keyHash: Bytes, coding: Coding, encode: Rlp -> Bytes)
    requires ValidTrie(t) && t != Empty && Decodes(coding, encode) && |keyHash| == 32
    requires forall b :: |coding.keccak(b)| == 32
    requires NoCollision(t, ProofFor(t, Nibbles(keyHash), coding, encode), coding, encode)
    ensures
      var key := Nibbles(keyHash);
      (forall value, nodes | NoCollision(t, nodes, coding, encode)
                             && Verify(RootHash(t, coding, encode), keyHash, value, nodes, coding) ::
         Lookup(t, key) == value)
      <==> (InlineOnPath(t, key, coding, encode) == BelowBranch ==> Lookup(t, key) == [])
  {
    hide Walk, Lookup, NoCollision, RootHash, InlineOnPath, Verify, Inline;
    var key := Nibbles(keyHash);
    forall value, nodes | NoCollision(t, nodes, coding, encode)
                          && Verify(RootHash(t, coding, encode), keyHash, value, nodes, coding)
      ensures Reads(t, key, value, coding, encode)
    {
      VerifiedIsLookedUp(t, keyHash, value, nodes, coding, encode);
    }
    HonestProofVerifies(t, keyHash, [], coding, encode);
  }

  // ---------- A key verified absent that is there ----------

  /** Two keys that part at the last nibble but one, each with this value. */
  function TwoLeaves(value: Bytes): Trie {
    Branch([Leaf([0], value), Leaf([0], value)] + seq(14, _ => Empty), [])
  }

  function LateFork(value: Bytes): Trie {
    Extension(seq(62, _ => 0), TwoLeaves(value))
  }

  lemma ZeroNibbles()
    ensures Nibbles(seq(32, _ => 0 as byte)) == seq(64, _ => 0)
  {
    var zeros := seq(32, _ => 0 as byte);
    forall i | 0 <= i < 64
      ensures Nibbles(zeros)[i] == 0
    {
      NibblesAt(zeros, i / 2);
    }
  }

  /**
    Under RLP a 20-byte value makes a leaf of 23 bytes, kept inline, and a branch of 62,
    referenced by its hash: the key of 64 zero nibbles is then in this trie, and its own proof
    verifies that it is absent.
  */
  lemma InlineValueReadAsAbsent(value: Bytes, coding: Coding, encode: Rlp -> Bytes)
    requires value != [] && Decodes(coding, encode) && forall b :: |coding.keccak(b)| == 32
    requires ValidTrie(LateFork(value)) && Inline(Leaf([0], value), coding, encode)
    requires !Inline(TwoLeaves(value), coding, encode)
    ensures
      var t, keyHash := LateFork(value), seq(32, _ => 0 as byte);
      && Lookup(t, Nibbles(keyHash)) == value
      && Verify(RootHash(t, coding, encode), keyHash, [], ProofFor(t, Nibbles(keyHash), coding, encode), coding)
  {
    hide Inline, ProofFor, Verify;
    var t, keyHash := LateFork(value), seq(32, _ => 0 as byte);
    ZeroNibbles();
    var key := Nibbles(keyHash);
    assert t.path <= key && key[62..] == [0, 0] && [0, 0][1..] == [0];
    assert t.child.children[0] == Leaf([0], value);
    assert Lookup(t.child, [0, 0]) == Lookup(Leaf([0], value), [0]) == value;
    assert key[|t.path|..] == [0, 0];
    assert InlineOnPath(t.child, [0, 0], coding, encode) == BelowBranch;
    HonestProofVerifies(t, keyHash, [], coding, encode);
  }
}
