/** The verifier's decisions, as functions of the decoded proof; None where it throws. */
module LayerVerifier {
  import opened Bytes
  import opened Hash
  import opened ProofTree
  import opened Executor
  import Element

  /** One layer: its merk proof's operations and the proofs of subtrees under its keys. */
  datatype LayerProof = LayerProof(ops: seq<MerkOp>, lowerLayers: map<Bytes, LayerProof>)

  datatype GroveProof = GroveProof(version: nat, rootLayer: LayerProof, decreaseLimitOnEmptySubQueryResult: bool)

  datatype NodeType = TKV | TKVValueHash | TKVDigest | TKVRefValueHash | TKVValueHashFeatureType

  datatype ProvedKeyValue = ProvedKeyValue(key: Bytes, value: Option<Bytes>, proof: Hash, nodeType: NodeType)

  datatype ProvenEntry = ProvenEntry(
    path: seq<Bytes>, key: Bytes, value: Option<Bytes>, element: Option<Element.Element>, tree: bool, nodeType: NodeType)

  /** What a layer and those below it show: the surfaced entries, and where subtrees are empty. */
  datatype Findings = Findings(entries: seq<ProvenEntry>, emptyTrees: set<seq<Bytes>>)

  datatype LayerResult = LayerResult(root: Hash, findings: Findings)

  datatype LeafBinding = Bound | EmptyTree | UnboundTree

  const NOTHING := Findings([], {})

  function Join(a: Findings, b: Findings): Findings {
    Findings(a.entries + b.entries, a.emptyTrees + b.emptyTrees)
  }

  // ---------- One merk proof's results ----------

  /** What a visited node adds to the result set: nothing when it has no key. */
  function Proved(node: MerkNode): seq<ProvedKeyValue> {
    match node
    case KV(key, value) => [ProvedKeyValue(key, Some(value), ValueHash(value), TKV)]
    case KVValueHash(key, value, h) => [ProvedKeyValue(key, Some(value), h, TKVValueHash)]
    case KVValueHashFeatureType(key, value, h, _) => [ProvedKeyValue(key, Some(value), h, TKVValueHashFeatureType)]
    case KVRefValueHash(key, value, h) => [ProvedKeyValue(key, Some(value), h, TKVRefValueHash)]
    case KVDigest(key, h) => [ProvedKeyValue(key, None, h, TKVDigest)]
    case _ => []
  }

  function ProvedAll(nodes: seq<MerkNode>): seq<ProvedKeyValue> {
    if nodes == [] then [] else ProvedAll(nodes[..|nodes| - 1]) + Proved(nodes[|nodes| - 1])
  }

  function ValueKeys(nodes: seq<MerkNode>): set<Bytes> {
    set n | n in nodes && n.HasValue() :: n.key
  }

  // ---------- Binding a leaf ----------

  function BindLeaf(p: ProvedKeyValue): Option<LeafBinding> {
    if p.value.Some? && (p.nodeType == TKVValueHash || p.nodeType == TKVValueHashFeatureType) then
      if Element.TreeBytes(p.value.value) then
        if Element.RootedTreeBytes(p.value.value) then Some(UnboundTree)
        else if Combined(ValueHash(p.value.value), Null) == p.proof then Some(EmptyTree)
        else None
      else if ValueHash(p.value.value) == p.proof then Some(Bound)
      else None
    else Some(Bound)
  }

  function Surface(p: ProvedKeyValue, path: seq<Bytes>): Option<Findings>
    requires p.value.Some?
  {
    var binding :- BindLeaf(p);
    var element := Element.Deserialize(p.value.value);
    var bound := binding != UnboundTree;
    Some(Findings(
           [ProvenEntry(path, p.key, if bound then p.value else None, if bound then element else None,
                        Element.TreeBytes(p.value.value), p.nodeType)],
           if binding == EmptyTree then {path + [p.key]} else {}))
  }

  // ---------- A layer and those below it ----------

  function VerifyLayer(layer: LayerProof, path: seq<Bytes>): Option<LayerResult>
    decreases layer, 2, 0
  {
    var tree :- Execute(layer.ops, true);
    var nodes := Pushed(layer.ops);
    if !(layer.lowerLayers.Keys <= ValueKeys(nodes)) then None
    else
      var findings :- VerifyEntries(layer, ProvedAll(nodes), path);
      Some(LayerResult(RootHash(tree), findings))
  }

  function VerifyEntries(layer: LayerProof, proved: seq<ProvedKeyValue>, path: seq<Bytes>): Option<Findings>
    decreases layer, 1, |proved|
  {
    if proved == [] then Some(NOTHING)
    else
      var before :- VerifyEntries(layer, proved[..|proved| - 1], path);
      var last :- VerifyEntry(layer, proved[|proved| - 1], path);
      Some(Join(before, last))
  }

  function VerifyEntry(layer: LayerProof, p: ProvedKeyValue, path: seq<Bytes>): Option<Findings>
    decreases layer, 0, 0
  {
    if p.value.None? then Some(NOTHING)
    else if p.key in layer.lowerLayers then
      if Element.RootedTreeBytes(p.value.value) then
        var lower :- VerifyLayer(layer.lowerLayers[p.key], path + [p.key]);
        if Combined(ValueHash(p.value.value), lower.root) == p.proof then Some(lower.findings) else None
      else None
    else Surface(p, path)
  }

  // ---------- The envelope ----------

  /** How many segments of `path` the proof descends; None for a lower layer off the path. */
  function EnvelopeDepth(layer: LayerProof, path: seq<Bytes>): Option<nat>
    decreases |path|
  {
    if path == [] then if layer.lowerLayers == map[] then Some(0) else None
    else if !(layer.lowerLayers.Keys <= {path[0]}) then None
    else if path[0] !in layer.lowerLayers then Some(0)
    else
      var rest :- EnvelopeDepth(layer.lowerLayers[path[0]], path[1..]);
      Some(1 + rest)
  }

  predicate HeaderAccepted(proof: GroveProof) {
    proof.version == 0 && proof.decreaseLimitOnEmptySubQueryResult
  }

  datatype Verified = Verified(root: Hash, findings: Findings, depth: nat)

  lemma {:induction false} EnvelopeDepthBound(layer: LayerProof, path: seq<Bytes>)
    ensures EnvelopeDepth(layer, path).Some? ==> EnvelopeDepth(layer, path).value <= |path|
    decreases |path|
  {
    if path != [] && path[0] in layer.lowerLayers {
      EnvelopeDepthBound(layer.lowerLayers[path[0]], path[1..]);
    }
  }

  /** The proof verified for a query at `path`: it may stop short only at a subtree it proves empty. */
  function VerifyProof(proof: GroveProof, path: seq<Bytes>): Option<Verified> {
    if !HeaderAccepted(proof) then None
    else
      var depth :- EnvelopeDepth(proof.rootLayer, path);
      var layer :- VerifyLayer(proof.rootLayer, []);
      if depth < |path| && path[..depth + 1] !in layer.findings.emptyTrees then None
      else Some(Verified(layer.root, layer.findings, depth))
  }

  /** The layer the proof holds at `path`. */
  function LayerAt(layer: LayerProof, path: seq<Bytes>): LayerProof
    requires EnvelopeDepth(layer, path) == Some(|path|)
    decreases |path|
  {
    if path == [] then layer
    else
      EnvelopeDepthBound(layer, path);
      LayerAt(layer.lowerLayers[path[0]], path[1..])
  }

  // ---------- Absence ----------

  /** The keys increase, and `key` falls between two proven neighbours (or past the first or last node). */
  ghost predicate ProvesAbsent(nodes: seq<MerkNode>, key: Bytes) {
    && KeysAscend(nodes)
    && exists gap | 0 <= gap <= |nodes| :: FallsAt(nodes, key, gap)
  }

  ghost predicate KeysAscend(nodes: seq<MerkNode>) {
    forall i, j | 0 <= i < j < |nodes| && nodes[i].HasKey() && nodes[j].HasKey() :: Less(nodes[i].key, nodes[j].key)
  }

  predicate FallsAt(nodes: seq<MerkNode>, key: Bytes, gap: int)
    requires 0 <= gap <= |nodes|
  {
    && (gap == 0 || (nodes[gap - 1].HasKey() && Less(nodes[gap - 1].key, key)))
    && (gap == |nodes| || (nodes[gap].HasKey() && Less(key, nodes[gap].key)))
  }

  /** The root hash of an accepted proof that `key` is absent at `path`. */
  ghost function VerifyKeyAbsence(proof: GroveProof, path: seq<Bytes>, key: Bytes): Option<Hash> {
    var v :- VerifyProof(proof, path);
    if v.depth < |path| then Some(v.root)
    else
      EnvelopeDepthBound(proof.rootLayer, path);
      var tree :- Execute(LayerAt(proof.rootLayer, path).ops, false);
      if ProvesAbsent(InOrder(tree), key) then Some(v.root) else None
  }

  // ---------- Whole subtrees ----------

  datatype CompleteEntry = CompleteEntry(key: Bytes, value: Bytes, element: Option<Element.Element>, reference: bool)

  datatype CompleteLayer = CompleteLayer(root: Hash, entries: seq<CompleteEntry>)

  /** What one node of a fully revealed layer holds; None when it can hide something. */
  function CompleteOne(n: MerkNode): Option<CompleteEntry> {
    if !n.HasValue() then None
    else
      var binding :- BindLeaf(Proved(n)[0]);
      if binding == UnboundTree then None
      else Some(CompleteEntry(n.key, n.value, Element.Deserialize(n.value), n.KVRefValueHash?))
  }

  function CompleteAll(nodes: seq<MerkNode>): Option<seq<CompleteEntry>> {
    if nodes == [] then Some([])
    else
      var before :- CompleteAll(nodes[..|nodes| - 1]);
      var last :- CompleteOne(nodes[|nodes| - 1]);
      if before != [] && !Less(before[|before| - 1].key, last.key) then None
      else Some(before + [last])
  }

  function VerifyCompleteLayer(proof: GroveProof, path: seq<Bytes>): Option<CompleteLayer> {
    var v :- VerifyProof(proof, path);
    if v.depth < |path| then Some(CompleteLayer(v.root, []))
    else
      EnvelopeDepthBound(proof.rootLayer, path);
      var tree :- Execute(LayerAt(proof.rootLayer, path).ops, false);
      var entries :- CompleteAll(InOrder(tree));
      Some(CompleteLayer(v.root, entries))
  }
}
