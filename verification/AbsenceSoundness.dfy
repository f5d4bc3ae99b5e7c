/** Absence soundness: an accepted absence proof is of a key the real grove does not hold. */
module AbsenceSoundness {
  import opened Bytes
  import opened ProofTree
  import opened Executor
  import opened ExecutorProperties
  import opened LayerVerifier
  import opened Soundness
  import Grove

  /** The real entries behind each node of a pruning: one for a node, many for a pruned subtree. */
  ghost function Behind(t: ProofTree, m: Grove.Merk): seq<seq<Grove.Entry>>
    requires Prunes(t, m)
  {
    match t
    case Nil => []
    case Node(HashNode(_), _, _) => [Grove.Entries(m)]
    case Node(n, l, r) => Behind(l, m.left) + [[Grove.Entry(m.key, m.stored)]] + Behind(r, m.right)
  }

  ghost function Flatten(xs: seq<seq<Grove.Entry>>): seq<Grove.Entry> {
    if xs == [] then [] else xs[0] + Flatten(xs[1..])
  }

  lemma {:induction false} FlattenSplit(xs: seq<seq<Grove.Entry>>, ys: seq<seq<Grove.Entry>>)
    ensures Flatten(xs + ys) == Flatten(xs) + Flatten(ys)
  {
    if xs == [] {
      assert xs + ys == ys;
    } else {
      assert (xs + ys)[1..] == xs[1..] + ys;
      FlattenSplit(xs[1..], ys);
    }
  }

  lemma {:induction false} BehindCoversEntries(t: ProofTree, m: Grove.Merk)
    requires Prunes(t, m)
    ensures Flatten(Behind(t, m)) == Grove.Entries(m)
  {
    if t.Node? {
      if t.node.HashNode? {
        assert Flatten([Grove.Entries(m)]) == Grove.Entries(m) + Flatten([]);
      } else {
        BehindCoversEntries(t.left, m.left);
        BehindCoversEntries(t.right, m.right);
        var one := [[Grove.Entry(m.key, m.stored)]];
        assert Flatten(one) == one[0] + Flatten([]);
        FlattenSplit(Behind(t.left, m.left) + one, Behind(t.right, m.right));
        FlattenSplit(Behind(t.left, m.left), one);
      }
    }
  }

  /** Behind a node with a key is the one entry with that key. */
  ghost predicate Shows(n: MerkNode, es: seq<Grove.Entry>) {
    n.HasKey() ==> |es| == 1 && es[0].key == n.key
  }

  lemma AlignedAround(
    ns: seq<MerkNode>, bs: seq<seq<Grove.Entry>>, n: MerkNode, b: seq<Grove.Entry>,
    ns': seq<MerkNode>, bs': seq<seq<Grove.Entry>>)
    requires |ns| == |bs| && |ns'| == |bs'| && Shows(n, b)
    requires forall i | 0 <= i < |ns| :: Shows(ns[i], bs[i])
    requires forall i | 0 <= i < |ns'| :: Shows(ns'[i], bs'[i])
    ensures forall i | 0 <= i < |ns + [n] + ns'| :: Shows((ns + [n] + ns')[i], (bs + [b] + bs')[i])
  {
    var k := |ns|;
    forall i | 0 <= i < |ns + [n] + ns'|
      ensures Shows((ns + [n] + ns')[i], (bs + [b] + bs')[i])
    {
      if i < k {
        assert Shows(ns[i], bs[i]);
      } else if i > k {
        assert Shows(ns'[i - k - 1], bs'[i - k - 1]);
      }
    }
  }

  lemma {:induction false} BehindNodes(t: ProofTree, m: Grove.Merk)
    requires Prunes(t, m) && HashesAreLeaves(t)
    ensures |Behind(t, m)| == |InOrder(t)|
    ensures forall i | 0 <= i < |InOrder(t)| :: Shows(InOrder(t)[i], Behind(t, m)[i])
  {
    if t.Node? && !t.node.HashNode? {
      BehindNodes(t.left, m.left);
      BehindNodes(t.right, m.right);
      AlignedAround(InOrder(t.left), Behind(t.left, m.left), t.node, [Grove.Entry(m.key, m.stored)],
                    InOrder(t.right), Behind(t.right, m.right));
    }
  }

  lemma {:induction false} InFlatten(xs: seq<seq<Grove.Entry>>, e: Grove.Entry) returns (i: nat)
    requires e in Flatten(xs)
    ensures i < |xs| && e in xs[i]
  {
    if e in xs[0] {
      i := 0;
    } else {
      i := InFlatten(xs[1..], e);
      i := i + 1;
    }
  }

  lemma {:induction false} FlattenHolds(xs: seq<seq<Grove.Entry>>, i: nat, e: Grove.Entry)
    requires i < |xs| && e in xs[i]
    ensures e in Flatten(xs)
  {
    if i > 0 {
      FlattenHolds(xs[1..], i - 1, e);
    }
  }

  lemma FlattenOrdered(xs: seq<seq<Grove.Entry>>, i: nat, j: nat, a: Grove.Entry, b: Grove.Entry)
    requires i < j < |xs| && a in xs[i] && b in xs[j] && Grove.Ordered(Flatten(xs))
    ensures Less(a.key, b.key)
  {
    var p, q := Flatten(xs[..j]), Flatten(xs[j..]);
    assert xs == xs[..j] + xs[j..];
    FlattenSplit(xs[..j], xs[j..]);
    FlattenHolds(xs[..j], i, a);
    FlattenHolds(xs[j..], 0, b);
    var x :| 0 <= x < |p| && p[x] == a;
    var y :| 0 <= y < |q| && q[y] == b;
    assert Flatten(xs)[x] == a && Flatten(xs)[|p| + y] == b;
  }

  /** An entry strictly between two neighbours' keys has no place on either side of the gap. */
  lemma NoPlace(behind: seq<seq<Grove.Entry>>, gap: nat, e: Grove.Entry, i: nat)
    requires Grove.Ordered(Flatten(behind)) && gap <= |behind| && i < |behind|
    requires gap > 0 ==> |behind[gap - 1]| == 1 && Less(behind[gap - 1][0].key, e.key)
    requires gap < |behind| ==> |behind[gap]| == 1 && Less(e.key, behind[gap][0].key)
    ensures e !in behind[i]
  {
    if e !in behind[i] {
    } else if i < gap {
      var before := behind[gap - 1][0];
      LessAsymmetric(before.key, e.key);
      if i < gap - 1 {
        FlattenOrdered(behind, i, gap - 1, e, before);
      }
    } else {
      var after := behind[gap][0];
      LessAsymmetric(e.key, after.key);
      if i > gap {
        FlattenOrdered(behind, gap, i, after, e);
      }
    }
  }

  /** In a pruning of an ordered tree, nothing is hidden between two adjacent proven nodes. */
  lemma GapIsEmpty(t: ProofTree, m: Grove.Merk, key: Bytes)
    requires Prunes(t, m) && HashesAreLeaves(t) && Grove.WellFormed(m)
    requires ProvesAbsent(InOrder(t), key)
    ensures Grove.Get(m, key).None?
  {
    var nodes, behind := InOrder(t), Behind(t, m);
    var gap :| 0 <= gap <= |nodes| && FallsAt(nodes, key, gap);
    BehindCoversEntries(t, m);
    BehindNodes(t, m);
    if Grove.Get(m, key).Some? {
      var e := Grove.Entry(key, Grove.Get(m, key).value);
      Grove.GetFindsEntries(m, key, e.stored);
      var i := InFlatten(behind, e);
      if gap > 0 {
        assert Shows(nodes[gap - 1], behind[gap - 1]);
      }
      if gap < |nodes| {
        assert Shows(nodes[gap], behind[gap]);
      }
      NoPlace(behind, gap, e, i);
    }
  }

  /** The grove holds no such key at the path (or nothing at the path at all). */
  ghost predicate Absent(g: Grove.Merk, path: seq<Bytes>, key: Bytes) {
    var sub := Grove.SubtreeAt(g, path);
    sub.None? || Grove.Get(sub.value, key).None?
  }

  /** Below an empty subtree there is nothing. */
  lemma NothingBelowEmpty(g: Grove.Merk, path: seq<Bytes>, depth: nat)
    requires depth < |path| && Grove.SubtreeAt(g, path[..depth + 1]) == Some(Grove.Empty)
    ensures Grove.SubtreeAt(g, path) == if depth + 1 == |path| then Some(Grove.Empty) else None
  {
    Grove.SubtreeAtSplit(g, path[..depth + 1], path[depth + 1..]);
    assert path == path[..depth + 1] + path[depth + 1..];
  }

  /** No accepted absence proof with a real grove's root is of a key that grove holds there. */
  lemma KeyAbsenceSound(proof: GroveProof, path: seq<Bytes>, key: Bytes, g: Grove.Merk)
    requires Grove.WellFormed(g)
    requires VerifyKeyAbsence(proof, path, key) == Some(Grove.MerkHash(g))
    ensures Absent(g, path, key)
  {
    EnvelopeDepthBound(proof.rootLayer, path);
    var v := VerifyProof(proof, path).value;
    if v.depth < |path| {
      EarlyStopSound(proof, path, g);
      NothingBelowEmpty(g, path, v.depth);
    } else {
      var sub := ChainSound(proof.rootLayer, [], path, g);
      var ops := LayerAt(proof.rootLayer, path).ops;
      CollapseIsInvisible(ops);
      SameRootPrunes(Execute(ops, false).value, sub);
      TreeHashesAreLeaves(ops);
      GapIsEmpty(Execute(ops, false).value, sub, key);
    }
  }
}
