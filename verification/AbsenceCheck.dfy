/** The absence check as it runs: a traversal with an explicit stack, then one scan of the nodes. */
module AbsenceCheck {
  import opened Bytes
  import opened Hash
  import opened ProofTree
  import opened LayerVerifier
  import opened MerkTree
  import opened GroveVerifier

  /** What is left to visit: each stacked tree's own node and right subtree, top first. */
  ghost function Pending(stack: seq<ProofTree>): seq<MerkNode>
    requires forall i | 0 <= i < |stack| :: stack[i].Node?
  {
    if stack == [] then []
    else
      var top := stack[|stack| - 1];
      [top.node] + (InOrder(top.right) + Pending(stack[..|stack| - 1]))
  }

  lemma PendingPush(stack: seq<ProofTree>, t: ProofTree)
    requires t.Node? && forall i | 0 <= i < |stack| :: stack[i].Node?
    ensures InOrder(t) + Pending(stack) == InOrder(t.left) + Pending(stack + [t])
  {
    assert (stack + [t])[..|stack|] == stack;
    Regroup(InOrder(t.left), [t.node], InOrder(t.right), Pending(stack));
  }

  lemma Regroup(l: seq<MerkNode>, n: seq<MerkNode>, r: seq<MerkNode>, p: seq<MerkNode>)
    ensures (l + n + r) + p == l + (n + (r + p))
  {
  }

  ghost predicate Holds(t: Tree, model: ProofTree)
    reads t, t.repr
  {
    t.Valid() && t.model == model
  }

  /** The nodes of the tree from left to right, visited with an explicit stack. */
  method CollectNodes(tree: Tree) returns (nodes: seq<MerkNode>)
    requires tree.Valid()
    ensures nodes == InOrder(tree.model)
  {
    hide Pending;
    nodes := [];
    var stack: seq<Tree> := [];
    NothingPending();
    var current: Tree? := tree;
    ghost var models: seq<ProofTree> := [];
    ghost var here := tree.model;
    while current != null || |stack| > 0
      invariant |stack| == |models|
      invariant forall i | 0 <= i < |stack| :: models[i].Node? && Holds(stack[i], models[i])
      invariant if current == null then here == Nil else Holds(current, here)
      invariant nodes + (InOrder(here) + Pending(models)) == InOrder(tree.model)
      decreases |InOrder(tree.model)| - |nodes|
    {
      while current != null
        invariant |stack| == |models|
        invariant forall i | 0 <= i < |stack| :: models[i].Node? && Holds(stack[i], models[i])
        invariant if current == null then here == Nil && |stack| > 0 else Holds(current, here)
        invariant nodes + (InOrder(here) + Pending(models)) == InOrder(tree.model)
        decreases here, if current == null then 0 else 1
      {
        PendingPush(models, here);
        stack, models := stack + [current], models + [here];
        here := here.left;
        current := if current.left.ChildLink? then current.left.tree else null;
      }
      var n := |stack|;
      var node := stack[n - 1];
      PendingPop(nodes, models);
      nodes := nodes + [node.node];
      here := models[n - 1].right;
      stack, models := stack[..n - 1], models[..n - 1];
      current := if node.right.ChildLink? then node.right.tree else null;
    }
    NothingPending();
    assert nodes + ([] + []) == nodes;
  }

  lemma NothingPending()
    ensures Pending([]) == []
  {
  }

  lemma PendingPop(nodes: seq<MerkNode>, stack: seq<ProofTree>)
    requires stack != [] && forall i | 0 <= i < |stack| :: stack[i].Node?
    ensures
      var n := |stack| - 1;
      nodes + (InOrder(Nil) + Pending(stack)) == (nodes + [stack[n].node]) + (InOrder(stack[n].right) + Pending(stack[..n]))
  {
    var n := |stack| - 1;
    PopRegroup(nodes, [stack[n].node], InOrder(stack[n].right) + Pending(stack[..n]));
  }

  lemma PopRegroup(nodes: seq<MerkNode>, n: seq<MerkNode>, rest: seq<MerkNode>)
    ensures nodes + ([] + (n + rest)) == (nodes + n) + rest
  {
  }

  /** Where the scan of the nodes before `n` stands. */
  ghost predicate Scanned(nodes: seq<MerkNode>, key: Bytes, n: nat, before: int, after: int)
    requires n <= |nodes|
  {
    && (before == -1 || (0 <= before < n && nodes[before].HasKey() && Less(nodes[before].key, key)))
    && (forall j | before < j < n && 0 <= j && nodes[j].HasKey() :: Less(key, nodes[j].key))
    && (after == |nodes| || (0 <= after < n && nodes[after].HasKey() && Less(key, nodes[after].key)))
    && (forall j | 0 <= j < n && j < after && nodes[j].HasKey() :: Less(nodes[j].key, key))
  }

  lemma PresentIsNotAbsent(nodes: seq<MerkNode>, key: Bytes, i: nat)
    requires i < |nodes| && nodes[i].HasKey() && nodes[i].key == key
    ensures !ProvesAbsent(nodes, key)
  {
    if ProvesAbsent(nodes, key) {
      var gap :| 0 <= gap <= |nodes| && FallsAt(nodes, key, gap);
      LessIrreflexive(key);
      if i < gap {
        LessAsymmetric(nodes[gap - 1].key, key);
      } else {
        LessAsymmetric(key, nodes[gap].key);
      }
    }
  }

  /** Scanned to the end, the two neighbours are adjacent exactly when the key falls in a gap. */
  lemma AdjacentIffGap(nodes: seq<MerkNode>, key: Bytes, before: int, after: int)
    requires KeysAscend(nodes) && Scanned(nodes, key, |nodes|, before, after)
    ensures after == before + 1 <==> ProvesAbsent(nodes, key)
  {
    if after == before + 1 {
      assert FallsAt(nodes, key, after);
    }
    if ProvesAbsent(nodes, key) {
      var gap :| 0 <= gap <= |nodes| && FallsAt(nodes, key, gap);
      GapIsBetween(nodes, key, before, after, gap);
    }
  }

  lemma GapIsBetween(nodes: seq<MerkNode>, key: Bytes, before: int, after: int, gap: int)
    requires KeysAscend(nodes) && Scanned(nodes, key, |nodes|, before, after)
    requires 0 <= gap <= |nodes| && FallsAt(nodes, key, gap)
    ensures before == gap - 1 && after == gap
  {
    if gap > 0 {
      LessAsymmetric(nodes[gap - 1].key, key);
      if 0 <= after < gap - 1 {
        LessTransitive(nodes[after].key, nodes[gap - 1].key, key);
        LessAsymmetric(nodes[after].key, key);
      }
    }
    if gap < |nodes| {
      LessAsymmetric(key, nodes[gap].key);
      if before > gap {
        LessTransitive(key, nodes[gap].key, nodes[before].key);
        LessAsymmetric(key, nodes[before].key);
      }
    }
  }

  /** Whether the tree shows `key` absent. */
  method MerkProvesAbsent(tree: Tree, key: Bytes) returns (absent: bool)
    requires tree.Valid()
    ensures absent <==> ProvesAbsent(InOrder(tree.model), key)
  {
    hide Scanned, KeysAscend, ProvesAbsent, Less;
    var nodes := CollectNodes(tree);
    ScanStarts(nodes, key);
    var before, after := -1, |nodes|;
    var lastKey: Option<Bytes> := None;
    ghost var last := -1;
    for i := 0 to |nodes|
      invariant -1 <= last < i
      invariant last >= 0 ==> nodes[last].HasKey() && lastKey == Some(nodes[last].key)
      invariant last == -1 ==> lastKey == None
      invariant forall j | last < j < i && 0 <= j :: !nodes[j].HasKey()
      invariant KeysAscend(nodes[..i])
      invariant Scanned(nodes, key, i, before, after)
    {
      var n := nodes[i];
      if n.HasKey() {
        if lastKey.Some? {
          var c := CompareBytes(n.key, lastKey.value);
          if c <= 0 {
            OutOfOrder(nodes, key, last, i);
            return false;
          }
        }
        StillAscending(nodes, last, i);
        lastKey, last := Some(n.key), i;
        var c := CompareBytes(n.key, key);
        if c == 0 {
          PresentIsNotAbsent(nodes, key, i);
          return false;
        }
        ScanStep(nodes, key, i, before, after);
        if c < 0 {
          before := i;
        } else if after == |nodes| {
          after := i;
        }
      } else {
        ScanSkips(nodes, key, i, before, after);
      }
    }
    assert nodes[..|nodes|] == nodes;
    AdjacentIffGap(nodes, key, before, after);
    return after == before + 1;
  }

  lemma ScanStarts(nodes: seq<MerkNode>, key: Bytes)
    ensures Scanned(nodes, key, 0, -1, |nodes|) && KeysAscend(nodes[..0])
  {
  }

  lemma ScanSkips(nodes: seq<MerkNode>, key: Bytes, i: nat, before: int, after: int)
    requires i < |nodes| && !nodes[i].HasKey()
    requires Scanned(nodes, key, i, before, after) && KeysAscend(nodes[..i])
    ensures Scanned(nodes, key, i + 1, before, after) && KeysAscend(nodes[..i + 1])
  {
    assert forall j | 0 <= j < i :: nodes[..i + 1][j] == nodes[..i][j];
  }

  lemma OutOfOrder(nodes: seq<MerkNode>, key: Bytes, last: int, i: nat)
    requires 0 <= last < i < |nodes| && nodes[last].HasKey() && nodes[i].HasKey()
    requires nodes[i].key == nodes[last].key || Less(nodes[i].key, nodes[last].key)
    ensures !ProvesAbsent(nodes, key)
  {
    LessIrreflexive(nodes[i].key);
    if Less(nodes[i].key, nodes[last].key) {
      LessAsymmetric(nodes[i].key, nodes[last].key);
    }
  }

  lemma StillAscending(nodes: seq<MerkNode>, last: int, i: nat)
    requires -1 <= last < i < |nodes| && nodes[i].HasKey() && KeysAscend(nodes[..i])
    requires last >= 0 ==> nodes[last].HasKey() && Less(nodes[last].key, nodes[i].key)
    requires forall j | last < j < i && 0 <= j :: !nodes[j].HasKey()
    ensures KeysAscend(nodes[..i + 1])
  {
    forall j | 0 <= j < i && nodes[j].HasKey()
      ensures Less(nodes[j].key, nodes[i].key)
    {
      if j < last {
        assert Less(nodes[..i][j].key, nodes[..i][last].key);
        LessTransitive(nodes[j].key, nodes[last].key, nodes[i].key);
      }
    }
  }

  /** The scan passes one more keyed node: the keys before it are smaller. */
  lemma ScanStep(nodes: seq<MerkNode>, key: Bytes, i: nat, before: int, after: int)
    requires i < |nodes| && nodes[i].HasKey() && nodes[i].key != key
    requires KeysAscend(nodes[..i + 1]) && Scanned(nodes, key, i, before, after)
    ensures Less(nodes[i].key, key) ==> Scanned(nodes, key, i + 1, i, after)
    ensures Less(key, nodes[i].key) ==> Scanned(nodes, key, i + 1, before, if after == |nodes| then i else after)
  {
    if Less(nodes[i].key, key) && after < |nodes| {
      assert Less(nodes[..i + 1][after].key, nodes[..i + 1][i].key);
      LessTransitive(key, nodes[after].key, nodes[i].key);
      LessAsymmetric(nodes[i].key, key);
    }
  }

  /** Verify a proof that `key` is absent under `path`, for its root hash. */
  method VerifyAbsence(proof: GroveProof, path: seq<Bytes>, key: Bytes) returns (r: Option<Hash>)
    ensures r == VerifyKeyAbsence(proof, path, key)
  {
    var v := VerifyGroveProof(proof, path);
    if v.None? {
      return None;
    }
    EnvelopeDepthBound(proof.rootLayer, path);
    if v.value.depth < |path| {
      return Some(v.value.root);
    }
    var layer := DescendTo(proof.rootLayer, path);
    var visitor := new Visitor();
    var tree := ExecuteOps(layer.ops, false, visitor);
    if tree.None? {
      return None;
    }
    var absent := MerkProvesAbsent(tree.value, key);
    return if absent then Some(v.value.root) else None;
  }
}
