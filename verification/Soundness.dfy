/**
  Soundness: a proof whose root hash is a real grove's root hash proves only what is true
  of that grove, whoever made the proof.
*/
module Soundness {
  import opened Bytes
  import opened Hash
  import opened ProofTree
  import opened Executor
  import opened ExecutorProperties
  import opened LayerVerifier
  import Grove
  import Element

  // ---------- A proof tree with a real tree's root hash is a pruning of it ----------

  /** The node commits to the real node's key and element. */
  ghost predicate Commits(n: MerkNode, key: Bytes, s: Grove.Stored)
    requires !n.HashNode?
  {
    n.KvPart() == KvHash(key, Grove.StoredHash(s))
  }

  /** `t` is `m` with some subtrees given by their hashes and some nodes hidden. */
  ghost predicate Prunes(t: ProofTree, m: Grove.Merk) {
    match t
    case Nil => m.Empty?
    case Node(HashNode(h), _, _) => h == Grove.MerkHash(m)
    case Node(n, l, r) => m.Branch? && Commits(n, m.key, m.stored) && Prunes(l, m.left) && Prunes(r, m.right)
  }

  lemma {:induction false} SameRootPrunes(t: ProofTree, m: Grove.Merk)
    requires RootHash(t) == Grove.MerkHash(m)
    ensures Prunes(t, m)
  {
    if t.Node? && !t.node.HashNode? {
      SameRootPrunes(t.left, m.left);
      SameRootPrunes(t.right, m.right);
    }
  }

  /** A keyed node of a pruning is an entry of the real tree, with the hash it commits to. */
  lemma {:induction false} KeyedNodeIsEntry(t: ProofTree, m: Grove.Merk, n: MerkNode) returns (e: Grove.Entry)
    requires Prunes(t, m) && HashesAreLeaves(t) && n in InOrder(t) && n.HasKey()
    ensures e in Grove.Entries(m) && e.key == n.key && Grove.StoredHash(e.stored) == n.CommittedValueHash()
  {
    if n == t.node {
      e := Grove.Entry(m.key, m.stored);
    } else if n in InOrder(t.left) {
      e := KeyedNodeIsEntry(t.left, m.left, n);
    } else {
      e := KeyedNodeIsEntry(t.right, m.right, n);
    }
  }

  /** An accepted layer with a real tree's root hash: every keyed push is stored there. */
  lemma PushedIsStored(ops: seq<MerkOp>, m: Grove.Merk, n: MerkNode) returns (s: Grove.Stored)
    requires Execute(ops, true).Some? && RootHash(Execute(ops, true).value) == Grove.MerkHash(m)
    requires Grove.WellFormed(m) && n in Pushed(ops) && n.HasKey()
    ensures Grove.Get(m, n.key) == Some(s) && Grove.WellFormedStored(s)
    ensures Grove.StoredHash(s) == n.CommittedValueHash()
  {
    CollapseIsInvisible(ops);
    var t := Execute(ops, false).value;
    SameRootPrunes(t, m);
    TreeHashesAreLeaves(ops);
    PushedNodesAreTreeNodes(ops);
    assert n in multiset(InOrder(t));
    var e := KeyedNodeIsEntry(t, m, n);
    s := e.stored;
    Grove.GetFindsEntries(m, n.key, s);
    Grove.AllEntriesWellFormed(m, e);
  }

  // ---------- Result sets ----------

  lemma {:induction false} ProvedFromNode(nodes: seq<MerkNode>, p: ProvedKeyValue) returns (n: MerkNode)
    requires p in ProvedAll(nodes)
    ensures n in nodes && n.HasKey() && Proved(n) == [p]
  {
    var i := |nodes| - 1;
    if p in Proved(nodes[i]) {
      n := nodes[i];
    } else {
      n := ProvedFromNode(nodes[..i], p);
    }
  }

  lemma {:induction false} NodeIsProved(nodes: seq<MerkNode>, n: MerkNode)
    requires n in nodes && n.HasKey()
    ensures Proved(n)[0] in ProvedAll(nodes)
  {
    var i := |nodes| - 1;
    if n != nodes[i] {
      NodeIsProved(nodes[..i], n);
    }
  }

  /** What the hash of a stored element says of the bytes a proof gives for it. */
  ghost predicate BindsBytes(s: Grove.Stored, value: Bytes, nodeType: NodeType) {
    match s
    case Value(bytes) => value == bytes && nodeType != TKVRefValueHash
    case Reference(_, target) => value == target && nodeType == TKVRefValueHash
    case Subtree(bytes, tree) => value == bytes && tree == Grove.Empty && nodeType != TKVRefValueHash
  }

  lemma BoundLeafIsStored(n: MerkNode, s: Grove.Stored)
    requires n.HasValue() && Grove.WellFormedStored(s) && Grove.StoredHash(s) == n.CommittedValueHash()
    requires BindLeaf(Proved(n)[0]).Some? && BindLeaf(Proved(n)[0]).value != UnboundTree
    ensures BindsBytes(s, n.value, Proved(n)[0].nodeType)
    ensures BindLeaf(Proved(n)[0]).value == EmptyTree ==> s == Grove.Subtree(n.value, Grove.Empty)
  {
    if s.Subtree? {
      MerkHashIsNodeOrNull(s.tree);
    }
  }

  lemma MerkHashIsNodeOrNull(m: Grove.Merk)
    ensures Grove.MerkHash(m) == Null <==> m == Grove.Empty
    ensures Grove.MerkHash(m).Null? || Grove.MerkHash(m).NodeHash?
  {
  }

  /** A node whose value joins with a lower root to its proof's hash is that subtree. */
  lemma LowerLayerIsSubtree(n: MerkNode, s: Grove.Stored, lowerRoot: Hash)
    requires n.HasValue() && Grove.WellFormedStored(s) && Grove.StoredHash(s) == n.CommittedValueHash()
    requires Element.RootedTreeBytes(n.value)
    requires Combined(ValueHash(n.value), lowerRoot) == Proved(n)[0].proof
    ensures s.Subtree? && s.bytes == n.value && Grove.MerkHash(s.tree) == lowerRoot
  {
    if s.Subtree? {
      MerkHashIsNodeOrNull(s.tree);
    }
  }

  // ---------- Entries across layers ----------

  /** The grove holds what the entry says, `base` being the path of the tree `m` itself. */
  ghost predicate EntryHolds(m: Grove.Merk, base: seq<Bytes>, e: ProvenEntry) {
    && base <= e.path
    && var sub := Grove.SubtreeAt(m, e.path[|base|..]);
    && sub.Some? && Grove.Get(sub.value, e.key).Some?
    && EntryBinds(Grove.Get(sub.value, e.key).value, e)
  }

  /**
    What an entry says of the stored element. With a value: its bytes, the element they read
    as, and, except through a reference, whether a subtree is stored. Without one: nothing,
    though it is given as a subtree.
  */
  ghost predicate EntryBinds(s: Grove.Stored, e: ProvenEntry) {
    match e.value
    case Some(value) =>
      && BindsBytes(s, value, e.nodeType)
      && e.element == Element.Deserialize(value) && (e.tree <==> Element.TreeBytes(value))
      && (e.nodeType != TKVRefValueHash ==> (e.tree <==> s.Subtree?))
    case None => e.element.None? && e.tree
  }

  /** The grove has an empty subtree at the path. */
  ghost predicate EmptyHolds(m: Grove.Merk, base: seq<Bytes>, p: seq<Bytes>) {
    base <= p && Grove.SubtreeAt(m, p[|base|..]) == Some(Grove.Empty)
  }

  ghost predicate FindingsHold(m: Grove.Merk, base: seq<Bytes>, f: Findings) {
    (forall e <- f.entries :: EntryHolds(m, base, e)) && (forall p <- f.emptyTrees :: EmptyHolds(m, base, p))
  }

  /** Everything an accepted layer surfaces is in every real grove with its root. */
  lemma {:induction false} LayerSound(layer: LayerProof, base: seq<Bytes>, m: Grove.Merk)
    requires VerifyLayer(layer, base).Some? && Grove.WellFormed(m)
    requires VerifyLayer(layer, base).value.root == Grove.MerkHash(m)
    ensures FindingsHold(m, base, VerifyLayer(layer, base).value.findings)
    decreases layer, 2, 0
  {
    EntriesSound(layer, ProvedAll(Pushed(layer.ops)), base, m);
  }

  lemma {:induction false} EntriesSound(layer: LayerProof, proved: seq<ProvedKeyValue>, base: seq<Bytes>, m: Grove.Merk)
    requires VerifyLayer(layer, base).Some? && Grove.WellFormed(m)
    requires VerifyLayer(layer, base).value.root == Grove.MerkHash(m)
    requires forall p <- proved :: p in ProvedAll(Pushed(layer.ops))
    requires VerifyEntries(layer, proved, base).Some?
    ensures FindingsHold(m, base, VerifyEntries(layer, proved, base).value)
    decreases layer, 1, |proved|
  {
    if proved != [] {
      var p := proved[|proved| - 1];
      EntriesSound(layer, proved[..|proved| - 1], base, m);
      var n := ProvedFromNode(Pushed(layer.ops), p);
      var s := PushedIsStored(layer.ops, m, n);
      if p.value.Some? {
        if p.key in layer.lowerLayers {
          var lower := VerifyLayer(layer.lowerLayers[p.key], base + [p.key]).value;
          LowerLayerIsSubtree(n, s, lower.root);
          LayerSound(layer.lowerLayers[p.key], base + [p.key], s.tree);
          LiftFindings(m, base, p.key, s.tree, lower.findings);
        } else {
          SurfaceSound(n, s, p, base, m);
        }
      }
    }
  }

  lemma SurfaceSound(n: MerkNode, s: Grove.Stored, p: ProvedKeyValue, base: seq<Bytes>, m: Grove.Merk)
    requires n.HasValue() && Proved(n) == [p] && Surface(p, base).Some?
    requires Grove.Get(m, n.key) == Some(s) && Grove.WellFormedStored(s)
    requires Grove.StoredHash(s) == n.CommittedValueHash()
    ensures FindingsHold(m, base, Surface(p, base).value)
  {
    if BindLeaf(p).value != UnboundTree {
      BoundLeafIsStored(n, s);
    }
    assert base[|base|..] == [];
    assert (base + [p.key])[|base|..] == [p.key];
    if BindLeaf(p).value == EmptyTree {
      assert Grove.SubtreeAt(m, [p.key]) == Grove.SubtreeAt(Grove.Empty, [p.key][1..]);
    }
  }

  lemma LiftFindings(m: Grove.Merk, base: seq<Bytes>, key: Bytes, sub: Grove.Merk, f: Findings)
    requires Grove.Get(m, key).Some? && Grove.Get(m, key).value.Subtree? && Grove.Get(m, key).value.tree == sub
    requires FindingsHold(sub, base + [key], f)
    ensures FindingsHold(m, base, f)
  {
    forall q: seq<Bytes> | base + [key] <= q
      ensures base <= q && Grove.SubtreeAt(m, q[|base|..]) == Grove.SubtreeAt(sub, q[|base| + 1..])
    {
      assert q[|base|] == (base + [key])[|base|] == key;
      assert q[|base|..][1..] == q[|base| + 1..];
      assert base == (base + [key])[..|base|];
    }
  }

  // ---------- The chain of layers down a path ----------

  lemma LowerLayerAccepted(layer: LayerProof, proved: seq<ProvedKeyValue>, p: ProvedKeyValue, base: seq<Bytes>)
    requires VerifyEntries(layer, proved, base).Some? && p in proved
    ensures VerifyEntry(layer, p, base).Some?
    decreases |proved|
  {
    if p != proved[|proved| - 1] {
      LowerLayerAccepted(layer, proved[..|proved| - 1], p, base);
    }
  }

  /** Each layer down the path is bound to the real subtree there. */
  lemma {:induction false} ChainSound(layer: LayerProof, base: seq<Bytes>, path: seq<Bytes>, m: Grove.Merk)
    returns (sub: Grove.Merk)
    requires VerifyLayer(layer, base).Some? && Grove.WellFormed(m)
    requires VerifyLayer(layer, base).value.root == Grove.MerkHash(m)
    requires EnvelopeDepth(layer, path) == Some(|path|)
    ensures Grove.SubtreeAt(m, path) == Some(sub) && Grove.WellFormed(sub)
    ensures Execute(LayerAt(layer, path).ops, true).Some?
    ensures RootHash(Execute(LayerAt(layer, path).ops, true).value) == Grove.MerkHash(sub)
    decreases |path|
  {
    hide Execute, Pushed, RootHash, Grove.MerkHash, Grove.StoredHash, Grove.WellFormed, Grove.Get, ProvedAll, BindLeaf;
    if path == [] {
      sub := m;
    } else {
      EnvelopeDepthBound(layer, path);
      var key, nodes := path[0], Pushed(layer.ops);
      assert key in ValueKeys(nodes);
      var n :| n in nodes && n.HasValue() && n.key == key;
      var s := PushedIsStored(layer.ops, m, n);
      NodeIsProved(nodes, n);
      LowerLayerAccepted(layer, ProvedAll(nodes), Proved(n)[0], base);
      var lower := VerifyLayer(layer.lowerLayers[key], base + [key]).value;
      LowerLayerIsSubtree(n, s, lower.root);
      sub := ChainSound(layer.lowerLayers[key], base + [key], path[1..], s.tree);
    }
  }

  // ---------- Whole subtrees ----------

  ghost predicate CompleteEntryHolds(c: CompleteEntry, e: Grove.Entry) {
    && c.key == e.key && c.element == Element.Deserialize(c.value)
    && match e.stored
       case Value(bytes) => c.value == bytes && !c.reference
       case Reference(_, target) => c.value == target && c.reference
       case Subtree(bytes, tree) => c.value == bytes && !c.reference && tree == Grove.Empty
  }

  ghost predicate CompleteEntriesHold(cs: seq<CompleteEntry>, es: seq<Grove.Entry>) {
    |cs| == |es| && forall i | 0 <= i < |cs| :: CompleteEntryHolds(cs[i], es[i])
  }

  /** The node has a key and commits to the entry. */
  ghost predicate ShowsEntry(n: MerkNode, e: Grove.Entry) {
    n.HasKey() && n.key == e.key && n.CommittedValueHash() == Grove.StoredHash(e.stored)
  }

  ghost predicate ShowAll(ns: seq<MerkNode>, es: seq<Grove.Entry>) {
    |ns| == |es| && forall i | 0 <= i < |ns| :: ShowsEntry(ns[i], es[i])
  }

  lemma ShowAround(
    l: seq<MerkNode>, le: seq<Grove.Entry>, n: MerkNode, e: Grove.Entry, r: seq<MerkNode>, re: seq<Grove.Entry>)
    requires ShowAll(l, le) && ShowsEntry(n, e) && ShowAll(r, re)
    ensures ShowAll(l + [n] + r, le + [e] + re)
  {
    hide ShowsEntry;
  }

  lemma AllKeyedParts(l: seq<MerkNode>, n: MerkNode, r: seq<MerkNode>)
    requires forall x <- l + [n] + r :: x.HasKey()
    ensures n.HasKey() && (forall x <- l :: x.HasKey()) && (forall x <- r :: x.HasKey())
  {
    var s := l + [n] + r;
    assert s[|l|] == n && n in s;
    assert forall x <- l :: x in s;
    assert forall x <- r :: x in s;
  }

  /** With every node keyed, the nodes are the entries, one for one. */
  lemma {:induction false} FullyRevealed(t: ProofTree, m: Grove.Merk)
    requires Prunes(t, m) && HashesAreLeaves(t)
    requires forall n <- InOrder(t) :: n.HasKey()
    ensures ShowAll(InOrder(t), Grove.Entries(m))
  {
    hide Grove.StoredHash, ShowAll;
    if t.Node? {
      AllKeyedParts(InOrder(t.left), t.node, InOrder(t.right));
      FullyRevealed(t.left, m.left);
      FullyRevealed(t.right, m.right);
      ShowAround(InOrder(t.left), Grove.Entries(m.left), t.node, Grove.Entry(m.key, m.stored),
                 InOrder(t.right), Grove.Entries(m.right));
    } else {
      NoneShown();
    }
  }

  lemma NoneShown()
    ensures ShowAll([], [])
  {
  }

  lemma {:induction false} CompleteAllNodes(nodes: seq<MerkNode>)
    requires CompleteAll(nodes).Some?
    ensures |CompleteAll(nodes).value| == |nodes|
    ensures forall i | 0 <= i < |nodes| :: CompleteOne(nodes[i]) == Some(CompleteAll(nodes).value[i])
  {
    hide CompleteOne, Less;
    if nodes != [] {
      CompleteAllNodes(nodes[..|nodes| - 1]);
    }
  }

  /** What a complete layer's result says of the real grove. */
  ghost predicate CompleteLayerHolds(g: Grove.Merk, path: seq<Bytes>, depth: nat, entries: seq<CompleteEntry>)
    requires depth <= |path|
  {
    if depth < |path| then entries == [] && Grove.SubtreeAt(g, path[..depth + 1]) == Some(Grove.Empty)
    else
      var sub := Grove.SubtreeAt(g, path);
      sub.Some? && CompleteEntriesHold(entries, Grove.Entries(sub.value))
  }

  /**
    An accepted complete layer is exactly the real subtree's entries, in key order, with the
    stored bytes (a reference's target's); one that stops early has no entries, and the
    subtree it stops at is really empty.
  */
  lemma CompleteLayerSound(proof: GroveProof, path: seq<Bytes>, g: Grove.Merk)
    requires Grove.WellFormed(g) && VerifyCompleteLayer(proof, path).Some?
    requires VerifyCompleteLayer(proof, path).value.root == Grove.MerkHash(g)
    ensures VerifyProof(proof, path).Some? && VerifyProof(proof, path).value.depth <= |path|
    ensures CompleteLayerHolds(g, path, VerifyProof(proof, path).value.depth, VerifyCompleteLayer(proof, path).value.entries)
  {
    EnvelopeDepthBound(proof.rootLayer, path);
    if VerifyProof(proof, path).value.depth < |path| {
      EarlyStopSound(proof, path, g);
    } else {
      var sub := ChainSound(proof.rootLayer, [], path, g);
      CompleteLayerNodes(LayerAt(proof.rootLayer, path).ops, sub);
    }
  }

  lemma EarlyStopSound(proof: GroveProof, path: seq<Bytes>, g: Grove.Merk)
    requires Grove.WellFormed(g) && VerifyProof(proof, path).Some?
    requires VerifyProof(proof, path).value.root == Grove.MerkHash(g)
    requires VerifyProof(proof, path).value.depth < |path|
    ensures Grove.SubtreeAt(g, path[..VerifyProof(proof, path).value.depth + 1]) == Some(Grove.Empty)
  {
    var v := VerifyProof(proof, path).value;
    var p := path[..v.depth + 1];
    LayerSound(proof.rootLayer, [], g);
    assert EmptyHolds(g, [], p);
    assert p[0..] == p;
  }

  lemma CompleteLayerNodes(ops: seq<MerkOp>, sub: Grove.Merk)
    requires Execute(ops, true).Some? && Execute(ops, false).Some?
    requires RootHash(Execute(ops, true).value) == Grove.MerkHash(sub) && Grove.WellFormed(sub)
    requires CompleteAll(InOrder(Execute(ops, false).value)).Some?
    ensures CompleteEntriesHold(CompleteAll(InOrder(Execute(ops, false).value)).value, Grove.Entries(sub))
  {
    CollapseIsInvisible(ops);
    var t := Execute(ops, false).value;
    SameRootPrunes(t, sub);
    TreeHashesAreLeaves(ops);
    CompleteNodesHold(t, sub);
  }

  lemma CompleteNodesHold(t: ProofTree, sub: Grove.Merk)
    requires Prunes(t, sub) && HashesAreLeaves(t) && Grove.WellFormed(sub) && CompleteAll(InOrder(t)).Some?
    ensures CompleteEntriesHold(CompleteAll(InOrder(t)).value, Grove.Entries(sub))
  {
    hide Prunes, HashesAreLeaves, CompleteAll, Grove.Entries, InOrder, CompleteEntryHolds, CompleteOne, ShowsEntry;
    var nodes, es := InOrder(t), Grove.Entries(sub);
    CompleteAllNodes(nodes);
    AllValued(nodes);
    FullyRevealed(t, sub);
    forall i | 0 <= i < |nodes|
      ensures CompleteEntryHolds(CompleteAll(nodes).value[i], es[i])
    {
      assert CompleteOne(nodes[i]) == Some(CompleteAll(nodes).value[i]);
      Grove.AllEntriesWellFormed(sub, es[i]);
      CompleteOneHolds(nodes[i], es[i]);
    }
  }

  lemma AllValued(nodes: seq<MerkNode>)
    requires forall i | 0 <= i < |nodes| :: CompleteOne(nodes[i]).Some?
    ensures forall n <- nodes :: n.HasKey()
  {
    forall n | n in nodes
      ensures n.HasKey()
    {
      var i :| 0 <= i < |nodes| && nodes[i] == n;
      assert CompleteOne(nodes[i]).Some?;
    }
  }

  lemma CompleteOneHolds(n: MerkNode, e: Grove.Entry)
    requires CompleteOne(n).Some? && ShowsEntry(n, e) && Grove.WellFormedStored(e.stored)
    ensures CompleteEntryHolds(CompleteOne(n).value, e)
  {
    BoundLeafIsStored(n, e.stored);
  }
}
