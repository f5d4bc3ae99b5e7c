/** What an honest prover sends for a path of a real grove, and that the verifier takes it. */
module HonestLayers {
  import opened Bytes
  import opened Hash
  import opened ProofTree
  import opened Executor
  import opened ExecutorProperties
  import opened LayerVerifier
  import opened Soundness
  import opened HonestProofs
  import Grove
  import Element

  // ---------- Prunings ----------

  lemma {:induction false} PruningHasRoot(t: ProofTree, m: Grove.Merk)
    requires Prunes(t, m)
    ensures RootHash(t) == Grove.MerkHash(m)
  {
    if t.Node? && !t.node.HashNode? {
      PruningHasRoot(t.left, m.left);
      PruningHasRoot(t.right, m.right);
    }
  }

  lemma IncreasingAround(a: seq<Bytes>, k: seq<Bytes>, b: seq<Bytes>, mid: Bytes)
    requires Increasing(a) && Increasing(b) && (k == [] || k == [mid])
    requires (forall x <- a :: Less(x, mid)) && (forall x <- b :: Less(mid, x))
    ensures Increasing(a + k + b)
  {
    var s := a + k + b;
    forall i, j | 0 <= i < j < |s|
      ensures Less(s[i], s[j])
    {
      if i < |a| && j >= |a| + |k| {
        LessTransitive(s[i], mid, s[j]);
      } else if i >= |a| + |k| {
        assert s[i] == b[i - |a| - |k|] && s[j] == b[j - |a| - |k|];
      }
    }
  }

  lemma {:induction false} KeyOfNode(nodes: seq<MerkNode>, k: Bytes) returns (n: MerkNode)
    requires k in Keys(nodes)
    ensures n in nodes && n.HasKey() && n.key == k
  {
    if nodes[0].HasKey() && nodes[0].key == k {
      n := nodes[0];
    } else {
      n := KeyOfNode(nodes[1..], k);
    }
  }

  /** A pruning shows the real tree's keys in their order. */
  lemma {:induction false} PruningKeysIncrease(t: ProofTree, m: Grove.Merk)
    requires Prunes(t, m) && HashesAreLeaves(t) && Grove.Ordered(Grove.Entries(m))
    ensures Increasing(Keys(InOrder(t)))
  {
    if t.Node? {
      KeysAround(InOrder(t.left), t.node, InOrder(t.right));
      if !t.node.HashNode? {
        Grove.OrderedParts(m);
        PruningKeysIncrease(t.left, m.left);
        PruningKeysIncrease(t.right, m.right);
        forall k | k in Keys(InOrder(t.left))
          ensures Less(k, m.key)
        {
          var n := KeyOfNode(InOrder(t.left), k);
          var e := KeyedNodeIsEntry(t.left, m.left, n);
        }
        forall k | k in Keys(InOrder(t.right))
          ensures Less(m.key, k)
        {
          var n := KeyOfNode(InOrder(t.right), k);
          var e := KeyedNodeIsEntry(t.right, m.right, n);
        }
        IncreasingAround(Keys(InOrder(t.left)), Keys([t.node]), Keys(InOrder(t.right)), m.key);
      }
    }
  }

  /** Every pruning of a real tree, written out, executes back to itself with the tree's root hash. */
  lemma PruningExecutes(t: ProofTree, m: Grove.Merk)
    requires t.Node? && Prunes(t, m) && HashesAreLeaves(t) && Grove.Ordered(Grove.Entries(m))
    ensures Execute(Emit(t), false) == Some(t)
    ensures Execute(Emit(t), true).Some? && RootHash(Execute(Emit(t), true).value) == Grove.MerkHash(m)
  {
    PruningKeysIncrease(t, m);
    EmitExecutes(t);
    PruningHasRoot(t, m);
    CollapseIsInvisible(Emit(t));
  }

  lemma {:induction false} EmitPushes(t: ProofTree)
    ensures AllUpright(Emit(t))
  {
    if t.Node? {
      EmitPushes(t.left);
      EmitPushes(t.right);
    }
  }

  // ---------- Honest trees ----------

  /** The node kinds an honest prover gives an element as. */
  ghost predicate HonestNode(n: MerkNode, key: Bytes, s: Grove.Stored) {
    match n
    case KVHashNode(h) => h == KvHash(key, Grove.StoredHash(s))
    case KVDigest(k, h) => k == key && h == Grove.StoredHash(s)
    case KV(k, v) => k == key && s == Grove.Value(v)
    case KVRefValueHash(k, v, h) => k == key && s.Reference? && v == s.target && h == ValueHash(s.bytes)
    case KVValueHash(k, v, h) => k == key && !s.Reference? && v == s.bytes && h == Grove.StoredHash(s)
    case KVValueHashFeatureType(k, v, h, _) => k == key && !s.Reference? && v == s.bytes && h == Grove.StoredHash(s)
    case HashNode(_) => false
  }

  ghost predicate HonestTree(t: ProofTree, m: Grove.Merk) {
    match t
    case Nil => m.Empty?
    case Node(HashNode(h), l, r) => m.Branch? && h == Grove.MerkHash(m) && l == r == Nil
    case Node(n, l, r) =>
      m.Branch? && HonestNode(n, m.key, m.stored) && HonestTree(l, m.left) && HonestTree(r, m.right)
  }

  lemma {:induction false} HonestTreePrunes(t: ProofTree, m: Grove.Merk)
    requires HonestTree(t, m)
    ensures Prunes(t, m) && HashesAreLeaves(t)
  {
    if t.Node? && !t.node.HashNode? {
      HonestTreePrunes(t.left, m.left);
      HonestTreePrunes(t.right, m.right);
    }
  }

  lemma {:induction false} HonestKeyed(t: ProofTree, m: Grove.Merk, n: MerkNode) returns (e: Grove.Entry)
    requires HonestTree(t, m) && n in InOrder(t) && n.HasKey()
    ensures e in Grove.Entries(m) && e.key == n.key && HonestNode(n, n.key, e.stored)
  {
    if n == t.node {
      e := Grove.Entry(m.key, m.stored);
    } else if n in InOrder(t.left) {
      e := HonestKeyed(t.left, m.left, n);
    } else {
      e := HonestKeyed(t.right, m.right, n);
    }
  }

  /** Nothing pruned or hidden: every element given with its bytes. */
  function Reveal(m: Grove.Merk): ProofTree {
    match m
    case Empty => Nil
    case Branch(key, stored, left, right) =>
      var n := match stored
        case Value(bytes) => KV(key, bytes)
        case Reference(bytes, target) => KVRefValueHash(key, target, ValueHash(bytes))
        case Subtree(bytes, _) => KVValueHash(key, bytes, Grove.StoredHash(stored));
      Node(n, Reveal(left), Reveal(right))
  }

  ghost predicate SubtreesEmpty(m: Grove.Merk) {
    forall e <- Grove.Entries(m) :: e.stored.Subtree? ==> e.stored.tree == Grove.Empty
  }

  lemma {:induction false} RevealIsHonest(m: Grove.Merk)
    ensures HonestTree(Reveal(m), m)
    ensures forall n <- InOrder(Reveal(m)) :: n.HasValue()
  {
    if m.Branch? {
      RevealIsHonest(m.left);
      RevealIsHonest(m.right);
    }
  }

  // ---------- Honest layers ----------

  /**
    A proof layer for the path: a pruning that reveals the next segment's subtree, and so on
    below; any pruning at the path's end.
  */
  ghost predicate HonestLayer(m: Grove.Merk, path: seq<Bytes>, layer: LayerProof)
    decreases |path|, 1
  {
    exists t :: HonestLayerOf(m, path, layer, t)
  }

  ghost predicate HonestLayerOf(m: Grove.Merk, path: seq<Bytes>, layer: LayerProof, t: ProofTree)
    decreases |path|, 0
  {
    && HonestTree(t, m) && t.Node? && layer.ops == Emit(t)
    && if path == [] then layer.lowerLayers == map[]
       else
         && RevealsKey(t, path[0])
         && var s := Grove.Get(m, path[0]);
         && s.Some? && s.value.Subtree?
         && if s.value.tree == Grove.Empty then layer.lowerLayers == map[]
            else
              && layer.lowerLayers.Keys == {path[0]}
              && HonestLayer(s.value.tree, path[1..], layer.lowerLayers[path[0]])
  }

  ghost predicate RevealsKey(t: ProofTree, key: Bytes) {
    exists n <- InOrder(t) :: n.HasValue() && n.key == key
  }

  /** Where an honest proof stops: at the first empty subtree on the path, or at its end. */
  ghost function HonestDepth(m: Grove.Merk, path: seq<Bytes>): nat
    decreases |path|
  {
    if path == [] then 0
    else
      match Grove.Get(m, path[0])
      case Some(Subtree(_, tree)) => if tree == Grove.Empty then 0 else 1 + HonestDepth(tree, path[1..])
      case _ => 0
  }

  lemma {:induction false} HonestEnvelope(m: Grove.Merk, path: seq<Bytes>, layer: LayerProof)
    requires HonestLayer(m, path, layer)
    ensures EnvelopeDepth(layer, path) == Some(HonestDepth(m, path))
    ensures HonestDepth(m, path) <= |path|
    decreases |path|
  {
    if path != [] && Grove.Get(m, path[0]).value.tree != Grove.Empty {
      HonestEnvelope(Grove.Get(m, path[0]).value.tree, path[1..], layer.lowerLayers[path[0]]);
    }
  }

  lemma {:induction false} EntriesAccepted(layer: LayerProof, proved: seq<ProvedKeyValue>, base: seq<Bytes>)
    requires forall p <- proved :: VerifyEntry(layer, p, base).Some?
    ensures VerifyEntries(layer, proved, base).Some?
    ensures forall p <- proved ::
              VerifyEntry(layer, p, base).value.emptyTrees <= VerifyEntries(layer, proved, base).value.emptyTrees
    decreases |proved|
  {
    if proved != [] {
      var before := proved[..|proved| - 1];
      EntriesAccepted(layer, before, base);
      assert VerifyEntry(layer, proved[|proved| - 1], base).Some?;
      assert forall p <- proved :: p == proved[|proved| - 1] || p in before;
    }
  }

  /** An honest leaf binds. */
  lemma HonestLeafBinds(n: MerkNode, s: Grove.Stored)
    requires n.HasValue() && HonestNode(n, n.key, s) && Grove.WellFormedStored(s)
    ensures BindLeaf(Proved(n)[0]).Some?
    ensures n.KVValueHash? || n.KVValueHashFeatureType? ==>
              (s.Subtree? && s.tree == Grove.Empty <==> BindLeaf(Proved(n)[0]) == Some(EmptyTree))
    ensures (s.Subtree? ==> s.tree == Grove.Empty) ==> BindLeaf(Proved(n)[0]) != Some(UnboundTree)
  {
    if s.Subtree? {
      MerkHashIsNodeOrNull(s.tree);
    }
  }

  /** Each lower layer is accepted and hashes to the subtree it hangs under. */
  ghost predicate LowerAccepted(m: Grove.Merk, layer: LayerProof, base: seq<Bytes>, key: Bytes)
    requires key in layer.lowerLayers
  {
    var s := Grove.Get(m, key);
    && s.Some? && s.value.Subtree? && s.value.tree != Grove.Empty
    && var r := VerifyLayer(layer.lowerLayers[key], base + [key]);
    && r.Some? && r.value.root == Grove.MerkHash(s.value.tree)
  }

  /** So every entry of the layer is accepted. */
  lemma HonestEntryAccepted(m: Grove.Merk, layer: LayerProof, base: seq<Bytes>, t: ProofTree, p: ProvedKeyValue)
    requires Grove.WellFormed(m) && HonestTree(t, m) && p in ProvedAll(InOrder(t))
    requires forall key <- layer.lowerLayers :: LowerAccepted(m, layer, base, key)
    ensures VerifyEntry(layer, p, base).Some?
    ensures p.value.Some? && p.key in layer.lowerLayers ==>
              VerifyEntry(layer, p, base).value == VerifyLayer(layer.lowerLayers[p.key], base + [p.key]).value.findings
    ensures p.value.Some? && p.key !in layer.lowerLayers && EmptySubtreeUnder(m, p.key) ==>
              base + [p.key] in VerifyEntry(layer, p, base).value.emptyTrees
  {
    var n := ProvedFromNode(InOrder(t), p);
    var e := HonestKeyed(t, m, n);
    Grove.GetFindsEntries(m, n.key, e.stored);
    Grove.AllEntriesWellFormed(m, e);
    if p.value.Some? {
      HonestLeafBinds(n, e.stored);
      if p.key in layer.lowerLayers {
        assert LowerAccepted(m, layer, base, p.key);
        HonestSubtreeProof(n, e.stored);
      }
    }
  }

  ghost predicate EmptySubtreeUnder(m: Grove.Merk, key: Bytes) {
    var s := Grove.Get(m, key);
    s.Some? && s.value.Subtree? && s.value.tree == Grove.Empty
  }

  lemma HonestSubtreeProof(n: MerkNode, s: Grove.Stored)
    requires n.HasValue() && HonestNode(n, n.key, s) && Grove.WellFormedStored(s)
    requires s.Subtree? && s.tree != Grove.Empty
    ensures Element.RootedTreeBytes(n.value)
    ensures Combined(ValueHash(n.value), Grove.MerkHash(s.tree)) == Proved(n)[0].proof
  {
  }

  lemma ProvedKeys(nodes: seq<MerkNode>, n: MerkNode)
    requires n in nodes && n.HasValue()
    ensures n.key in ValueKeys(nodes) && Proved(n)[0] in ProvedAll(nodes)
    ensures Proved(n)[0].key == n.key && Proved(n)[0].value == Some(n.value)
  {
    NodeIsProved(nodes, n);
  }

  /** An honest tree, written out, is accepted with the real root and pushes its own nodes. */
  lemma HonestTreeExecutes(t: ProofTree, m: Grove.Merk)
    requires Grove.WellFormed(m) && HonestTree(t, m) && t.Node?
    ensures Execute(Emit(t), false) == Some(t) && Pushed(Emit(t)) == InOrder(t)
    ensures Execute(Emit(t), true).Some? && RootHash(Execute(Emit(t), true).value) == Grove.MerkHash(m)
  {
    HonestTreePrunes(t, m);
    PruningExecutes(t, m);
    EmitPushes(t);
    PushOrderIsTreeOrder(Emit(t));
  }

  /** The subtree under the path's first segment of an honest layer. */
  lemma HonestSegment(m: Grove.Merk, path: seq<Bytes>, layer: LayerProof) returns (sub: Grove.Merk)
    requires Grove.WellFormed(m) && HonestLayer(m, path, layer) && path != []
    ensures Grove.Get(m, path[0]).Some? && Grove.Get(m, path[0]).value.Subtree?
    ensures sub == Grove.Get(m, path[0]).value.tree && Grove.WellFormed(sub)
    ensures sub == Grove.Empty ==> layer.lowerLayers == map[]
    ensures sub != Grove.Empty ==>
              layer.lowerLayers.Keys == {path[0]} && HonestLayer(sub, path[1..], layer.lowerLayers[path[0]])
  {
    var s := Grove.Get(m, path[0]).value;
    sub := s.tree;
    Grove.GetFindsEntries(m, path[0], s);
    Grove.AllEntriesWellFormed(m, Grove.Entry(path[0], s));
  }

  /** The layers below are accepted, and each hangs under a key the tree reveals. */
  ghost predicate LowerLayersAccepted(m: Grove.Merk, layer: LayerProof, base: seq<Bytes>, t: ProofTree) {
    forall key <- layer.lowerLayers :: LowerAccepted(m, layer, base, key) && RevealsKey(t, key)
  }

  /** A layer is accepted when those below it are. */
  lemma LayerAccepted(m: Grove.Merk, layer: LayerProof, base: seq<Bytes>, t: ProofTree)
    requires Grove.WellFormed(m) && HonestTree(t, m) && t.Node? && layer.ops == Emit(t)
    requires LowerLayersAccepted(m, layer, base, t)
    ensures VerifyLayer(layer, base).Some? && VerifyLayer(layer, base).value.root == Grove.MerkHash(m)
    ensures VerifyEntries(layer, ProvedAll(InOrder(t)), base) == Some(VerifyLayer(layer, base).value.findings)
  {
    hide Execute, Emit, VerifyEntries, VerifyEntry, HonestTree, InOrder, ProvedAll, RootHash, ValueKeys, Grove.WellFormed;
    HonestTreeExecutes(t, m);
    ProvedAccepted(m, layer, base, t);
    LowerKeysRevealed(m, layer, base, t);
  }

  lemma LowerKeysRevealed(m: Grove.Merk, layer: LayerProof, base: seq<Bytes>, t: ProofTree)
    requires LowerLayersAccepted(m, layer, base, t)
    ensures layer.lowerLayers.Keys <= ValueKeys(InOrder(t))
  {
    hide LowerAccepted, InOrder;
    forall key | key in layer.lowerLayers
      ensures key in ValueKeys(InOrder(t))
    {
      assert RevealsKey(t, key);
    }
  }

  lemma ProvedAccepted(m: Grove.Merk, layer: LayerProof, base: seq<Bytes>, t: ProofTree)
    requires Grove.WellFormed(m) && HonestTree(t, m)
    requires LowerLayersAccepted(m, layer, base, t)
    ensures VerifyEntries(layer, ProvedAll(InOrder(t)), base).Some?
    ensures forall p <- ProvedAll(InOrder(t)) ::
              VerifyEntry(layer, p, base).Some? &&
              VerifyEntry(layer, p, base).value.emptyTrees
              <= VerifyEntries(layer, ProvedAll(InOrder(t)), base).value.emptyTrees
  {
    hide VerifyEntries, VerifyEntry, HonestTree, InOrder, ProvedAll, Grove.WellFormed;
    var proved := ProvedAll(InOrder(t));
    forall p | p in proved
      ensures VerifyEntry(layer, p, base).Some?
    {
      HonestEntryAccepted(m, layer, base, t, p);
    }
    EntriesAccepted(layer, proved, base);
  }

  /** What the node that reveals a key adds to the empty subtrees the layer records. */
  lemma LayerRecords(m: Grove.Merk, layer: LayerProof, base: seq<Bytes>, t: ProofTree, key: Bytes)
    requires Grove.WellFormed(m) && HonestTree(t, m)
    requires LowerLayersAccepted(m, layer, base, t) && RevealsKey(t, key)
    ensures VerifyEntries(layer, ProvedAll(InOrder(t)), base).Some?
    ensures key in layer.lowerLayers ==>
              VerifyLayer(layer.lowerLayers[key], base + [key]).Some? &&
              VerifyLayer(layer.lowerLayers[key], base + [key]).value.findings.emptyTrees
              <= VerifyEntries(layer, ProvedAll(InOrder(t)), base).value.emptyTrees
    ensures key !in layer.lowerLayers && EmptySubtreeUnder(m, key) ==>
              base + [key] in VerifyEntries(layer, ProvedAll(InOrder(t)), base).value.emptyTrees
  {
    hide VerifyEntries, VerifyEntry, VerifyLayer, HonestTree, InOrder, ProvedAll, Grove.WellFormed;
    var nodes := InOrder(t);
    ProvedAccepted(m, layer, base, t);
    var n :| n in nodes && n.HasValue() && n.key == key;
    ProvedKeys(nodes, n);
    var p := Proved(n)[0];
    HonestEntryAccepted(m, layer, base, t, p);
    if key in layer.lowerLayers {
      assert LowerAccepted(m, layer, base, key);
    }
  }

  /** The empty subtree an honest proof stops at, if it does. */
  ghost function StopsAt(m: Grove.Merk, base: seq<Bytes>, path: seq<Bytes>): Option<seq<Bytes>>
    decreases |path|
  {
    if path == [] then None
    else
      match Grove.Get(m, path[0])
      case Some(Subtree(_, tree)) =>
        if tree == Grove.Empty then Some(base + [path[0]]) else StopsAt(tree, base + [path[0]], path[1..])
      case _ => None
  }

  lemma {:induction false} StopsAtDepth(m: Grove.Merk, base: seq<Bytes>, path: seq<Bytes>, layer: LayerProof)
    requires HonestLayer(m, path, layer)
    ensures HonestDepth(m, path) <= |path|
    ensures StopsAt(m, base, path) ==
            if HonestDepth(m, path) == |path| then None else Some(base + path[..HonestDepth(m, path) + 1])
    decreases |path|
  {
    if path != [] {
      var sub := Grove.Get(m, path[0]).value.tree;
      if sub == Grove.Empty {
        assert path[..1] == [path[0]];
      } else {
        StopsAtDepth(sub, base + [path[0]], path[1..], layer.lowerLayers[path[0]]);
        var d := HonestDepth(sub, path[1..]);
        if d < |path| - 1 {
          assert path[..d + 2] == [path[0]] + path[1..][..d + 1];
          assert base + path[..d + 2] == base + [path[0]] + path[1..][..d + 1];
        }
      }
    }
  }

  ghost predicate Records(r: LayerResult, stop: Option<seq<Bytes>>) {
    stop.Some? ==> stop.value in r.findings.emptyTrees
  }

  /** The layer of an honest proof is accepted, with the real root; it records the empty subtree it stops at. */
  lemma {:induction false} HonestLayerAccepted(m: Grove.Merk, path: seq<Bytes>, layer: LayerProof, base: seq<Bytes>)
    requires Grove.WellFormed(m) && HonestLayer(m, path, layer)
    ensures VerifyLayer(layer, base).Some? && VerifyLayer(layer, base).value.root == Grove.MerkHash(m)
    ensures Records(VerifyLayer(layer, base).value, StopsAt(m, base, path))
    decreases |path|
  {
    var t :| HonestLayerOf(m, path, layer, t);
    if path != [] {
      var sub := HonestSegment(m, path, layer);
      if sub != Grove.Empty {
        HonestLayerAccepted(sub, path[1..], layer.lowerLayers[path[0]], base + [path[0]]);
        assert LowerAccepted(m, layer, base, path[0]);
      }
      LayerAccepted(m, layer, base, t);
      LayerRecords(m, layer, base, t, path[0]);
    } else {
      LayerAccepted(m, layer, base, t);
    }
  }

  // ---------- Whole subtrees ----------

  ghost predicate Completes(n: MerkNode) {
    n.HasValue() && CompleteOne(n).Some?
  }

  lemma {:induction false} CompleteAccepted(nodes: seq<MerkNode>)
    requires forall i | 0 <= i < |nodes| :: Completes(nodes[i])
    requires Increasing(Keys(nodes))
    ensures CompleteAll(nodes).Some?
  {
    hide CompleteOne, Keys, Increasing, Less;
    if nodes != [] {
      var before, last := nodes[..|nodes| - 1], nodes[|nodes| - 1];
      assert Completes(last);
      assert nodes == before + [last];
      assert forall i | 0 <= i < |before| :: before[i] == nodes[i];
      PrefixIncreases(before, last);
      CompleteAccepted(before);
      LastInOrder(before, last);
      CompleteAllNodes(before);
    }
  }

  lemma LastInOrder(before: seq<MerkNode>, last: MerkNode)
    requires CompleteAll(before).Some? && Completes(last)
    requires Increasing(Keys(before + [last]))
    ensures
      var r := CompleteAll(before).value;
      before != [] ==> r != [] && Less(r[|r| - 1].key, CompleteOne(last).value.key)
  {
    hide CompleteAll, Keys, Increasing, Less, BindLeaf, Element.Deserialize;
    if before != [] {
      var xs, prev := before[..|before| - 1], before[|before| - 1];
      assert before == xs + [prev];
      LastCompleteKey(before);
      EndAscends(xs, prev, last);
    }
  }

  lemma LastCompleteKey(nodes: seq<MerkNode>)
    requires nodes != [] && CompleteAll(nodes).Some?
    ensures CompleteAll(nodes).value != []
    ensures nodes[|nodes| - 1].HasKey()
    ensures CompleteAll(nodes).value[|CompleteAll(nodes).value| - 1].key == nodes[|nodes| - 1].key
  {
  }

  lemma PrefixIncreases(before: seq<MerkNode>, last: MerkNode)
    requires last.HasKey() && Increasing(Keys(before + [last]))
    ensures Increasing(Keys(before))
  {
    LastOfKeys(before, last);
    FollowsParts(None, Keys(before), [last.key]);
  }

  lemma EndAscends(xs: seq<MerkNode>, a: MerkNode, b: MerkNode)
    requires a.HasKey() && b.HasKey() && Increasing(Keys(xs + [a] + [b]))
    ensures Less(a.key, b.key)
  {
    LastOfKeys(xs + [a], b);
    LastOfKeys(xs, a);
    var ks := Keys(xs) + [a.key] + [b.key];
    assert Less(ks[|ks| - 2], ks[|ks| - 1]);
  }

  lemma LastOfKeys(before: seq<MerkNode>, last: MerkNode)
    requires last.HasKey()
    ensures Keys(before + [last]) == Keys(before) + [last.key]
  {
    KeysSplit(before, [last]);
    KeysAround([], last, []);
  }

  /** The pruning an honest proof ends in, of the subtree at the path. */
  lemma {:induction false} HonestEnd(m: Grove.Merk, path: seq<Bytes>, layer: LayerProof)
    returns (sub: Grove.Merk, t: ProofTree)
    requires Grove.WellFormed(m) && HonestLayer(m, path, layer)
    requires EnvelopeDepth(layer, path) == Some(|path|)
    ensures Grove.SubtreeAt(m, path) == Some(sub) && Grove.WellFormed(sub)
    ensures HonestTree(t, sub) && t.Node? && LayerAt(layer, path).ops == Emit(t)
    decreases |path|
  {
    if path != [] {
      EnvelopeDepthBound(layer, path);
      var next := HonestSegment(m, path, layer);
      sub, t := HonestEnd(next, path[1..], layer.lowerLayers[path[0]]);
    } else {
      sub := m;
      t :| HonestLayerOf(m, path, layer, t);
    }
  }

  /** The proof's envelope and every layer of it are accepted, with the real root. */
  lemma HonestProofAccepted(g: Grove.Merk, path: seq<Bytes>, layer: LayerProof)
    requires Grove.WellFormed(g) && HonestLayer(g, path, layer)
    ensures HonestDepth(g, path) <= |path| && EnvelopeDepth(layer, path) == Some(HonestDepth(g, path))
    ensures
      var v := VerifyProof(GroveProof(0, layer, true), path);
      v.Some? && v.value.root == Grove.MerkHash(g) && v.value.depth == HonestDepth(g, path)
  {
    hide VerifyLayer, Grove.WellFormed, HonestLayer, HonestDepth, StopsAt, EnvelopeDepth;
    HonestEnvelope(g, path, layer);
    HonestLayerAccepted(g, path, layer, []);
    StopsAtDepth(g, [], path, layer);
    if HonestDepth(g, path) < |path| {
      assert [] + path[..HonestDepth(g, path) + 1] == path[..HonestDepth(g, path) + 1];
    }
  }

  ghost predicate AllRevealed(nodes: seq<MerkNode>) {
    forall n <- nodes :: n.HasValue()
  }

  /** It stops before the path's end, or every node there gives its value and no subtree is full. */
  ghost predicate ProvesWhole(g: Grove.Merk, path: seq<Bytes>, layer: LayerProof)
    requires HonestDepth(g, path) == |path| ==> EnvelopeDepth(layer, path) == Some(|path|)
  {
    HonestDepth(g, path) == |path| ==>
      && AllRevealed(Pushed(LayerAt(layer, path).ops))
      && Grove.SubtreeAt(g, path).Some? && SubtreesEmpty(Grove.SubtreeAt(g, path).value)
  }

  /**
    An honest proof is accepted as a complete layer if and only if every node at the path's
    end gives its value and no subtree there is full (or it stops at an empty subtree before);
    then with the grove's root, and exactly the subtree's entries.
  */
  lemma HonestCompleteLayerAccepted(g: Grove.Merk, path: seq<Bytes>, layer: LayerProof)
    requires Grove.WellFormed(g) && HonestLayer(g, path, layer)
    ensures HonestDepth(g, path) <= |path| && EnvelopeDepth(layer, path) == Some(HonestDepth(g, path))
    ensures
      var r := VerifyCompleteLayer(GroveProof(0, layer, true), path);
      && (r.Some? <==> ProvesWhole(g, path, layer))
      && (r.Some? ==> r.value.root == Grove.MerkHash(g)
                      && CompleteLayerHolds(g, path, HonestDepth(g, path), r.value.entries))
  {
    hide VerifyProof, HonestLayer, HonestDepth, EnvelopeDepth, CompleteLayerHolds;
    var proof := GroveProof(0, layer, true);
    HonestProofAccepted(g, path, layer);
    if HonestDepth(g, path) == |path| {
      var sub, t := HonestEnd(g, path, layer);
      HonestTreeExecutes(t, sub);
      RevealedCompletes(t, sub);
    }
    if VerifyCompleteLayer(proof, path).Some? {
      CompleteLayerSound(proof, path, g);
    }
  }

  /** A pruning completes exactly when it reveals every node of a tree with no full subtree. */
  lemma RevealedCompletes(t: ProofTree, m: Grove.Merk)
    requires Grove.WellFormed(m) && HonestTree(t, m)
    ensures CompleteAll(InOrder(t)).Some? <==> AllRevealed(InOrder(t)) && SubtreesEmpty(m)
  {
    hide CompleteAll, CompleteOne, Grove.WellFormedAll, Grove.Entries, InOrder, HonestTree;
    HonestTreePrunes(t, m);
    PruningKeysIncrease(t, m);
    if AllRevealed(InOrder(t)) && SubtreesEmpty(m) {
      forall n | n in InOrder(t)
        ensures Completes(n)
      {
        var e := HonestKeyed(t, m, n);
        Grove.AllEntriesWellFormed(m, e);
        LeafCompletes(n, e.stored);
      }
      CompleteAccepted(InOrder(t));
    } else if CompleteAll(InOrder(t)).Some? {
      CompleteAllNodes(InOrder(t));
      CompletedAreValued(InOrder(t));
      CompletedHoldNoSubtree(t, m);
    }
  }

  lemma LeafCompletes(n: MerkNode, s: Grove.Stored)
    requires n.HasValue() && HonestNode(n, n.key, s) && Grove.WellFormedStored(s)
    ensures CompleteOne(n).Some? <==> (s.Subtree? ==> s.tree == Grove.Empty)
  {
    HonestLeafBinds(n, s);
  }

  lemma CompletedAreValued(nodes: seq<MerkNode>)
    requires forall i | 0 <= i < |nodes| :: CompleteOne(nodes[i]).Some?
    ensures AllRevealed(nodes)
  {
    forall n | n in nodes
      ensures n.HasValue()
    {
      var i :| 0 <= i < |nodes| && nodes[i] == n;
      assert CompleteOne(nodes[i]).Some?;
    }
  }

  lemma CompletedHoldNoSubtree(t: ProofTree, m: Grove.Merk)
    requires Grove.WellFormed(m) && HonestTree(t, m) && AllRevealed(InOrder(t))
    requires forall i | 0 <= i < |InOrder(t)| :: CompleteOne(InOrder(t)[i]).Some?
    ensures SubtreesEmpty(m)
  {
    hide CompleteOne, Grove.WellFormedAll, Grove.Entries, InOrder;
    forall e | e in Grove.Entries(m)
      ensures e.stored.Subtree? ==> e.stored.tree == Grove.Empty
    {
      var n := RevealedEntry(t, m, e);
      Grove.AllEntriesWellFormed(m, e);
      var i :| 0 <= i < |InOrder(t)| && InOrder(t)[i] == n;
      LeafCompletes(n, e.stored);
    }
  }

  /** A pruning that gives every node's value gives every entry's. */
  lemma {:induction false} RevealedEntry(t: ProofTree, m: Grove.Merk, e: Grove.Entry) returns (n: MerkNode)
    requires HonestTree(t, m) && AllRevealed(InOrder(t)) && e in Grove.Entries(m)
    ensures n in InOrder(t) && n.key == e.key && HonestNode(n, n.key, e.stored)
  {
    assert t.node in InOrder(t);
    if e in Grove.Entries(m.left) {
      n := RevealedEntry(t.left, m.left, e);
    } else if e in Grove.Entries(m.right) {
      n := RevealedEntry(t.right, m.right, e);
    } else {
      n := t.node;
    }
  }

  /** Such a proof exists: the layers on the path, each fully revealed. */
  ghost function FullProof(m: Grove.Merk, path: seq<Bytes>): LayerProof
    requires Grove.SubtreeAt(m, path).Some?
    decreases |path|
  {
    var ops := Emit(Reveal(m));
    if path == [] then LayerProof(ops, map[])
    else
      var sub := Grove.Get(m, path[0]).value.tree;
      LayerProof(ops, if sub == Grove.Empty then map[] else map[path[0] := FullProof(sub, path[1..])])
  }

  lemma {:induction false} FullProofIsHonest(m: Grove.Merk, path: seq<Bytes>)
    requires Grove.WellFormed(m) && m.Branch? && Grove.SubtreeAt(m, path).Some?
    ensures HonestLayer(m, path, FullProof(m, path))
    decreases |path|
  {
    RevealIsHonest(m);
    if path != [] {
      var s := Grove.Get(m, path[0]).value;
      Grove.GetFindsEntries(m, path[0], s);
      Grove.AllEntriesWellFormed(m, Grove.Entry(path[0], s));
      RevealHasKey(m, path[0]);
      if s.tree != Grove.Empty {
        FullProofIsHonest(s.tree, path[1..]);
      }
    }
    assert HonestLayerOf(m, path, FullProof(m, path), Reveal(m));
  }

  lemma {:induction false} RevealHasKey(m: Grove.Merk, key: Bytes)
    requires Grove.Get(m, key).Some?
    ensures RevealsKey(Reveal(m), key)
  {
    var t := Reveal(m);
    if key == m.key {
      assert t.node in InOrder(t);
    } else {
      var left := Less(key, m.key);
      RevealHasKey(if left then m.left else m.right, key);
      var side := if left then t.left else t.right;
      var n :| n in InOrder(side) && n.HasValue() && n.key == key;
      assert n in InOrder(t);
    }
  }
}
