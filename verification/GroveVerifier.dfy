/** The verifier as it runs: accumulating results layer by layer, walking envelopes and trees. */
module GroveVerifier {
  import opened Bytes
  import opened Hash
  import opened ProofTree
  import opened Executor
  import opened ExecutorProperties
  import opened LayerVerifier
  import opened MerkTree
  import Element

  /** The proven entries and the entries proven to be empty subtrees, of every layer so far. */
  class Collector {
    var results: seq<ProvenEntry>
    var emptyTrees: set<seq<Bytes>>

    constructor ()
      ensures results == [] && emptyTrees == {}
    {
      results, emptyTrees := [], {};
    }

    function Findings(): Findings
      reads this
    {
      LayerVerifier.Findings(results, emptyTrees)
    }
  }

  datatype MerkResult = MerkResult(rootHash: Hash, resultSet: seq<ProvedKeyValue>, valueKeys: set<Bytes>)

  /** Execute a layer's operations, collapsing, for its root hash and the nodes it proves. */
  method ExecuteWithQuery(ops: seq<MerkOp>) returns (r: Option<MerkResult>)
    ensures r.Some? <==> Execute(ops, true).Some?
    ensures r.Some? ==>
              && r.value.rootHash == RootHash(Execute(ops, true).value)
              && r.value.resultSet == ProvedAll(Pushed(ops)) && r.value.valueKeys == ValueKeys(Pushed(ops))
  {
    var visitor := new Visitor();
    var tree := ExecuteOps(ops, true, visitor);
    if tree.None? {
      return None;
    }
    return Some(MerkResult(tree.value.RootOf(), visitor.resultSet, visitor.valueKeys));
  }

  lemma JoinAssociative(a: Findings, b: Findings, c: Findings)
    ensures Join(Join(a, b), c) == Join(a, Join(b, c))
    ensures Join(a, NOTHING) == a && Join(NOTHING, a) == a
  {
    Associative(a.entries, b.entries, c.entries);
  }

  /** Verify a layer and those below it, adding what they show to the collector. */
  method VerifyLayerProof(layer: LayerProof, path: seq<Bytes>, collector: Collector) returns (root: Option<Hash>)
    modifies collector
    ensures root.Some? <==> VerifyLayer(layer, path).Some?
    ensures root.Some? ==>
              && root.value == VerifyLayer(layer, path).value.root
              && collector.Findings() == Join(old(collector.Findings()), VerifyLayer(layer, path).value.findings)
    decreases layer, 1
  {
    hide VerifyEntry, ProvedAll, ValueKeys, Pushed, Execute;
    var merk := ExecuteWithQuery(layer.ops);
    if merk.None? || !(layer.lowerLayers.Keys <= merk.value.valueKeys) {
      return None;
    }
    var proved := merk.value.resultSet;
    assert proved[..|proved|] == proved;
    JoinAssociative(collector.Findings(), NOTHING, NOTHING);
    for i := 0 to |proved|
      invariant VerifyEntries(layer, proved[..i], path).Some?
      invariant collector.Findings() == Join(old(collector.Findings()), VerifyEntries(layer, proved[..i], path).value)
    {
      assert proved[..i + 1][..i] == proved[..i];
      var ok := VerifyProved(layer, proved[i], path, collector);
      if !ok {
        LaterEntriesRefused(layer, proved, i + 1, path);
        return None;
      }
      JoinAssociative(
        old(collector.Findings()), VerifyEntries(layer, proved[..i], path).value, VerifyEntry(layer, proved[i], path).value);
    }
    return Some(merk.value.rootHash);
  }

  lemma LaterEntriesRefused(layer: LayerProof, proved: seq<ProvedKeyValue>, i: nat, path: seq<Bytes>)
    requires i <= |proved| && VerifyEntries(layer, proved[..i], path).None?
    ensures VerifyEntries(layer, proved, path).None?
    decreases |proved|
  {
    if i == |proved| {
      assert proved[..i] == proved;
    } else {
      assert proved[..|proved| - 1][..i] == proved[..i];
      LaterEntriesRefused(layer, proved[..|proved| - 1], i, path);
    }
  }

  /** One proven entry: the subtree proven below it, or the leaf bound to its bytes. */
  method VerifyProved(layer: LayerProof, p: ProvedKeyValue, path: seq<Bytes>, collector: Collector) returns (ok: bool)
    modifies collector
    ensures ok == VerifyEntry(layer, p, path).Some?
    ensures ok ==> collector.Findings() == Join(old(collector.Findings()), VerifyEntry(layer, p, path).value)
    decreases layer, 0
  {
    if p.value.None? {
      JoinAssociative(collector.Findings(), NOTHING, NOTHING);
      return true;
    }
    var value := p.value.value;
    if p.key in layer.lowerLayers {
      if !Element.RootedTreeBytes(value) {
        return false;
      }
      var lower := VerifyLayerProof(layer.lowerLayers[p.key], path + [p.key], collector);
      return lower.Some? && Combined(ValueHash(value), lower.value) == p.proof;
    }
    var binding := BindLeaf(p);
    if binding.None? {
      return false;
    }
    if binding.value == EmptyTree {
      collector.emptyTrees := collector.emptyTrees + {path + [p.key]};
    }
    var bound := binding.value != UnboundTree;
    collector.results := collector.results + [
      ProvenEntry(path, p.key, if bound then p.value else None, if bound then Element.Deserialize(value) else None,
                  Element.TreeBytes(value), p.nodeType)];
    return true;
  }

  /** How many segments of the path the envelope descends. */
  method DescendEnvelope(layer: LayerProof, path: seq<Bytes>) returns (depth: Option<nat>)
    ensures depth == EnvelopeDepth(layer, path)
  {
    var at := layer;
    for i := 0 to |path|
      invariant EnvelopeDepth(layer, path) ==
                match EnvelopeDepth(at, path[i..])
                case None => None
                case Some(d) => Some(i + d)
    {
      assert path[i..][1..] == path[i + 1..];
      if !(at.lowerLayers.Keys <= {path[i]}) {
        return None;
      }
      if path[i] !in at.lowerLayers {
        return Some(i);
      }
      at := at.lowerLayers[path[i]];
    }
    return if at.lowerLayers == map[] then Some(|path|) else None;
  }

  /** Verify the whole proof for a query at `path`. */
  method VerifyGroveProof(proof: GroveProof, path: seq<Bytes>) returns (v: Option<Verified>)
    ensures v == VerifyProof(proof, path)
  {
    if !HeaderAccepted(proof) {
      return None;
    }
    EnvelopeDepthBound(proof.rootLayer, path);
    var depth := DescendEnvelope(proof.rootLayer, path);
    if depth.None? {
      return None;
    }
    var layer := VerifyRootLayer(proof.rootLayer);
    if layer.None? {
      return None;
    }
    var d := depth.value;
    if d < |path| && path[..d + 1] !in layer.value.findings.emptyTrees {
      return None;
    }
    return Some(Verified(layer.value.root, layer.value.findings, d));
  }

  method VerifyRootLayer(layer: LayerProof) returns (r: Option<LayerResult>)
    ensures r == VerifyLayer(layer, [])
  {
    var collector := new Collector();
    var root := VerifyLayerProof(layer, [], collector);
    if root.None? {
      return None;
    }
    JoinAssociative(VerifyLayer(layer, []).value.findings, NOTHING, NOTHING);
    return Some(LayerResult(root.value, collector.Findings()));
  }

  /** The layer at the end of a path the envelope descends fully. */
  method DescendTo(layer: LayerProof, path: seq<Bytes>) returns (end: LayerProof)
    requires EnvelopeDepth(layer, path) == Some(|path|)
    ensures end == LayerAt(layer, path)
  {
    end := layer;
    for i := 0 to |path|
      invariant EnvelopeDepth(end, path[i..]) == Some(|path| - i)
      invariant LayerAt(layer, path) == LayerAt(end, path[i..])
    {
      assert path[i..][1..] == path[i + 1..];
      EnvelopeDepthBound(end, path[i..]);
      end := end.lowerLayers[path[i]];
    }
  }

  /** Verify a proof that reveals the whole subtree at `path`. */
  method VerifyWholeSubtree(proof: GroveProof, path: seq<Bytes>) returns (r: Option<CompleteLayer>)
    ensures r == VerifyCompleteLayer(proof, path)
  {
    var v := VerifyGroveProof(proof, path);
    if v.None? {
      return None;
    }
    EnvelopeDepthBound(proof.rootLayer, path);
    if v.value.depth < |path| {
      return Some(CompleteLayer(v.value.root, []));
    }
    var layer := DescendTo(proof.rootLayer, path);
    var visitor := new Visitor();
    var tree := ExecuteOps(layer.ops, false, visitor);
    if tree.None? {
      return None;
    }
    var nodes := tree.value.Nodes();
    var entries := ReadWhole(nodes);
    return if entries.Some? then Some(CompleteLayer(v.value.root, entries.value)) else None;
  }

  /** Every node's entry, refusing a node that can hide something and keys out of order. */
  method ReadWhole(nodes: seq<MerkNode>) returns (r: Option<seq<CompleteEntry>>)
    ensures r == CompleteAll(nodes)
  {
    var entries: seq<CompleteEntry> := [];
    var lastKey: Option<Bytes> := None;
    assert nodes[..|nodes|] == nodes;
    for i := 0 to |nodes|
      invariant CompleteAll(nodes[..i]) == Some(entries)
      invariant lastKey == if entries == [] then None else Some(entries[|entries| - 1].key)
    {
      assert nodes[..i + 1][..i] == nodes[..i];
      var n := nodes[i];
      if !n.HasValue() {
        RestRefused(nodes, i + 1);
        return None;
      }
      if lastKey.Some? {
        var c := CompareBytes(n.key, lastKey.value);
        if c <= 0 {
          LessTotal(lastKey.value, n.key);
          LessIrreflexive(n.key);
          if Less(n.key, lastKey.value) {
            LessAsymmetric(n.key, lastKey.value);
          }
          RestRefused(nodes, i + 1);
          return None;
        }
      }
      var entry := CompleteOne(n);
      if entry.None? {
        RestRefused(nodes, i + 1);
        return None;
      }
      lastKey := Some(n.key);
      entries := entries + [entry.value];
    }
    return Some(entries);
  }

  lemma RestRefused(nodes: seq<MerkNode>, i: nat)
    requires i <= |nodes| && CompleteAll(nodes[..i]).None?
    ensures CompleteAll(nodes).None?
    decreases |nodes|
  {
    if i == |nodes| {
      assert nodes[..i] == nodes;
    } else {
      assert nodes[..|nodes| - 1][..i] == nodes[..i];
      RestRefused(nodes[..|nodes| - 1], i);
    }
  }
}
