/** Honest absence proofs: which prunings of a real tree prove a key absent, and that the verifier takes them. */
module HonestAbsence {
  import opened Bytes
  import opened ProofTree
  import opened Executor
  import opened LayerVerifier
  import opened Soundness
  import opened AbsenceSoundness
  import opened HonestProofs
  import opened HonestLayers
  import Grove

  ghost predicate Between(a: Bytes, b: Bytes, c: Bytes) {
    Less(a, b) && Less(b, c)
  }

  /** No other entry's key lies between the entry's and `key`. */
  ghost predicate Neighbours(es: seq<Grove.Entry>, key: Bytes, e: Grove.Entry) {
    e in es && forall x <- es :: !Between(e.key, x.key, key) && !Between(key, x.key, e.key)
  }

  /** Some node shows the key. */
  ghost predicate ShowsKey(nodes: seq<MerkNode>, key: Bytes) {
    exists n <- nodes :: n.HasKey() && n.key == key
  }

  /** The key is not in the tree, and the nodes show the keys next to it on either side. */
  ghost predicate ShowsGap(nodes: seq<MerkNode>, m: Grove.Merk, key: Bytes) {
    && Grove.Get(m, key).None?
    && forall e <- Grove.Entries(m) | Neighbours(Grove.Entries(m), key, e) :: ShowsKey(nodes, e.key)
  }

  // ---------- The real entries behind an honest tree's nodes ----------

  /** Every node of an honest tree stands for some entry. */
  lemma {:induction false} NothingStandsForNothing(t: ProofTree, m: Grove.Merk)
    requires HonestTree(t, m) && Prunes(t, m)
    ensures forall i | 0 <= i < |Behind(t, m)| :: Behind(t, m)[i] != []
  {
    if t.Node? && !t.node.HashNode? {
      NothingStandsForNothing(t.left, m.left);
      NothingStandsForNothing(t.right, m.right);
    }
  }

  /** Where a key that is in no entry falls. */
  lemma {:induction false} Position(es: seq<Grove.Entry>, key: Bytes) returns (p: nat)
    requires Grove.Ordered(es) && forall e <- es :: e.key != key
    ensures p <= |es|
    ensures forall i | 0 <= i < p :: Less(es[i].key, key)
    ensures forall i | p <= i < |es| :: Less(key, es[i].key)
  {
    p := 0;
    while p < |es| && Less(es[p].key, key)
      invariant p <= |es|
      invariant forall i | 0 <= i < p :: Less(es[i].key, key)
    {
      p := p + 1;
    }
    if p < |es| {
      assert es[p] in es;
      LessTotal(key, es[p].key);
      forall i | p < i < |es|
        ensures Less(key, es[i].key)
      {
        LessTransitive(key, es[p].key, es[i].key);
      }
    }
  }

  /** The last entry below the key, or the first above it, is its neighbour. */
  lemma SideIsNeighbour(es: seq<Grove.Entry>, key: Bytes, p: nat, e: Grove.Entry)
    requires Grove.Ordered(es) && p <= |es|
    requires forall i | 0 <= i < p :: Less(es[i].key, key)
    requires forall i | p <= i < |es| :: Less(key, es[i].key)
    requires (p > 0 && e == es[p - 1]) || (p < |es| && e == es[p])
    ensures Neighbours(es, key, e)
  {
    forall x | x in es
      ensures !Between(e.key, x.key, key) && !Between(key, x.key, e.key)
    {
      var i :| 0 <= i < |es| && es[i] == x;
      var j := if p > 0 && e == es[p - 1] then p - 1 else p;
      LessIrreflexive(x.key);
      if i < p {
        LessAsymmetric(x.key, key);
      } else {
        LessAsymmetric(key, x.key);
      }
      if i < j {
        LessAsymmetric(x.key, e.key);
      } else if j < i {
        LessAsymmetric(e.key, x.key);
      }
    }
  }

  /** The place of a shown entry among the nodes. */
  lemma PlaceOf(nodes: seq<MerkNode>, behind: seq<seq<Grove.Entry>>, e: Grove.Entry) returns (i: nat)
    requires |nodes| == |behind| && forall j | 0 <= j < |nodes| :: Shows(nodes[j], behind[j])
    requires Grove.Ordered(Flatten(behind)) && e in Flatten(behind) && ShowsKey(nodes, e.key)
    ensures i < |nodes| && nodes[i].HasKey() && nodes[i].key == e.key && behind[i] == [e]
  {
    var n :| n in nodes && n.HasKey() && n.key == e.key;
    i :| 0 <= i < |nodes| && nodes[i] == n;
    assert Shows(nodes[i], behind[i]);
    var k := InFlatten(behind, e);
    LessIrreflexive(e.key);
    if k < i {
      FlattenOrdered(behind, k, i, e, behind[i][0]);
    } else if i < k {
      FlattenOrdered(behind, i, k, behind[i][0], e);
    }
  }

  lemma NodesAscend(nodes: seq<MerkNode>, behind: seq<seq<Grove.Entry>>)
    requires |nodes| == |behind| && forall j | 0 <= j < |nodes| :: Shows(nodes[j], behind[j])
    requires Grove.Ordered(Flatten(behind))
    ensures KeysAscend(nodes)
  {
    forall i, j | 0 <= i < j < |nodes| && nodes[i].HasKey() && nodes[j].HasKey()
      ensures Less(nodes[i].key, nodes[j].key)
    {
      assert Shows(nodes[i], behind[i]) && Shows(nodes[j], behind[j]);
      FlattenOrdered(behind, i, j, behind[i][0], behind[j][0]);
    }
  }

  // ---------- Which prunings prove a key absent ----------

  /** The nodes before the gap stand for entries below the key, those after it for entries above. */
  ghost predicate Splits(behind: seq<seq<Grove.Entry>>, key: Bytes, gap: nat) {
    && gap <= |behind|
    && forall i, x | 0 <= i < |behind| && x in behind[i] :: if i < gap then Less(x.key, key) else Less(key, x.key)
  }

  ghost predicate Stands(nodes: seq<MerkNode>, behind: seq<seq<Grove.Entry>>) {
    && |nodes| == |behind| && (forall j | 0 <= j < |nodes| :: Shows(nodes[j], behind[j]))
    && Grove.Ordered(Flatten(behind))
  }

  lemma OneGap(behind: seq<seq<Grove.Entry>>, key: Bytes, g: nat, h: nat)
    requires Splits(behind, key, g) && Splits(behind, key, h) && g <= h
    requires forall j | 0 <= j < |behind| :: behind[j] != []
    ensures g == h
  {
    if g < h {
      var x := behind[g][0];
      LessAsymmetric(x.key, key);
    }
  }

  /** The node of a neighbour below the key ends the part below it. */
  lemma BelowEnds(nodes: seq<MerkNode>, behind: seq<seq<Grove.Entry>>, key: Bytes, e: Grove.Entry) returns (gap: nat)
    requires Stands(nodes, behind) && forall x <- Flatten(behind) :: x.key != key
    requires Neighbours(Flatten(behind), key, e) && Less(e.key, key) && ShowsKey(nodes, e.key)
    ensures Splits(behind, key, gap) && gap > 0 && nodes[gap - 1].HasKey() && nodes[gap - 1].key == e.key
  {
    hide Flatten;
    var i := PlaceOf(nodes, behind, e);
    gap := i + 1;
    forall k, x | 0 <= k < |behind| && x in behind[k]
      ensures if k < gap then Less(x.key, key) else Less(key, x.key)
    {
      FlattenHolds(behind, k, x);
      LessTotal(x.key, key);
      if k < i {
        FlattenOrdered(behind, k, i, x, e);
        LessTransitive(x.key, e.key, key);
      } else if k > i {
        FlattenOrdered(behind, i, k, e, x);
      }
    }
  }

  /** The node of a neighbour above the key begins the part above it. */
  lemma AboveBegins(nodes: seq<MerkNode>, behind: seq<seq<Grove.Entry>>, key: Bytes, e: Grove.Entry) returns (gap: nat)
    requires Stands(nodes, behind) && forall x <- Flatten(behind) :: x.key != key
    requires Neighbours(Flatten(behind), key, e) && Less(key, e.key) && ShowsKey(nodes, e.key)
    ensures Splits(behind, key, gap) && gap < |nodes| && nodes[gap].HasKey() && nodes[gap].key == e.key
  {
    hide Flatten;
    gap := PlaceOf(nodes, behind, e);
    forall k, x | 0 <= k < |behind| && x in behind[k]
      ensures if k < gap then Less(x.key, key) else Less(key, x.key)
    {
      FlattenHolds(behind, k, x);
      LessTotal(x.key, key);
      if k < gap {
        FlattenOrdered(behind, k, gap, x, e);
      } else if k > gap {
        FlattenOrdered(behind, gap, k, e, x);
        LessTransitive(key, e.key, x.key);
      }
    }
  }

  /** With no entry on one side of the key, there is nothing before the gap, or after it. */
  lemma OneSided(behind: seq<seq<Grove.Entry>>, key: Bytes)
    ensures (forall x <- Flatten(behind) :: Less(key, x.key)) ==> Splits(behind, key, 0)
    ensures (forall x <- Flatten(behind) :: Less(x.key, key)) ==> Splits(behind, key, |behind|)
  {
    hide Flatten;
    forall i, x | 0 <= i < |behind| && x in behind[i]
      ensures x in Flatten(behind)
    {
      FlattenHolds(behind, i, x);
    }
  }

  /** With both neighbours shown, no node stands between them. */
  lemma ShownGapIsProved(nodes: seq<MerkNode>, behind: seq<seq<Grove.Entry>>, key: Bytes)
    requires Stands(nodes, behind) && forall j | 0 <= j < |behind| :: behind[j] != []
    requires forall e <- Flatten(behind) :: e.key != key
    requires forall e <- Flatten(behind) | Neighbours(Flatten(behind), key, e) :: ShowsKey(nodes, e.key)
    ensures ProvesAbsent(nodes, key)
  {
    hide Shows, Flatten, Splits, Neighbours, ShowsKey;
    var es := Flatten(behind);
    NodesAscend(nodes, behind);
    OneSided(behind, key);
    var p := Position(es, key);
    var g, h := 0, |behind|;
    if p > 0 {
      assert es[p - 1] in es;
      SideIsNeighbour(es, key, p, es[p - 1]);
      g := BelowEnds(nodes, behind, key, es[p - 1]);
    }
    if p < |es| {
      assert es[p] in es;
      SideIsNeighbour(es, key, p, es[p]);
      h := AboveBegins(nodes, behind, key, es[p]);
    }
    if g <= h {
      OneGap(behind, key, g, h);
    } else {
      OneGap(behind, key, h, g);
    }
    assert FallsAt(nodes, key, g);
  }

  /** A gap proved has both its neighbours shown. */
  lemma ProvedGapIsShown(nodes: seq<MerkNode>, behind: seq<seq<Grove.Entry>>, key: Bytes, e: Grove.Entry)
    requires Stands(nodes, behind) && ProvesAbsent(nodes, key)
    requires Neighbours(Flatten(behind), key, e) && e.key != key
    ensures ShowsKey(nodes, e.key)
  {
    hide Flatten;
    var gap :| 0 <= gap <= |nodes| && FallsAt(nodes, key, gap);
    var k := InFlatten(behind, e);
    assert Shows(nodes[k], behind[k]);
    LessTotal(e.key, key);
    if k < gap {
      assert Shows(nodes[gap - 1], behind[gap - 1]);
      var last := behind[gap - 1][0];
      FlattenHolds(behind, gap - 1, last);
      if k < gap - 1 {
        FlattenOrdered(behind, k, gap - 1, e, last);
        LessTransitive(e.key, last.key, key);
      } else {
        assert nodes[k] in nodes;
      }
    } else {
      assert Shows(nodes[gap], behind[gap]);
      var first := behind[gap][0];
      FlattenHolds(behind, gap, first);
      if k > gap {
        FlattenOrdered(behind, gap, k, first, e);
        LessTransitive(key, first.key, e.key);
      } else {
        assert nodes[k] in nodes;
      }
    }
  }

  /** An honest pruning proves a key absent if and only if it is, and both its neighbours are shown. */
  lemma ProvesAbsentIffShown(t: ProofTree, m: Grove.Merk, key: Bytes)
    requires HonestTree(t, m) && Grove.WellFormed(m)
    ensures ProvesAbsent(InOrder(t), key) <==> ShowsGap(InOrder(t), m, key)
  {
    hide ProvesAbsent, ShowsKey, Neighbours, Flatten, Behind, HonestTree, Grove.Get;
    HonestTreePrunes(t, m);
    var nodes, behind := InOrder(t), Behind(t, m);
    BehindCoversEntries(t, m);
    BehindNodes(t, m);
    NothingStandsForNothing(t, m);
    if ProvesAbsent(nodes, key) {
      GapIsEmpty(t, m, key);
      NoEntryHas(m, key);
      forall e | e in Grove.Entries(m) && Neighbours(Grove.Entries(m), key, e)
        ensures ShowsKey(nodes, e.key)
      {
        ProvedGapIsShown(nodes, behind, key, e);
      }
    }
    if ShowsGap(nodes, m, key) {
      NoEntryHas(m, key);
      ShownGapIsProved(nodes, behind, key);
    }
  }

  lemma NoEntryHas(m: Grove.Merk, key: Bytes)
    requires Grove.Ordered(Grove.Entries(m)) && Grove.Get(m, key).None?
    ensures forall e <- Grove.Entries(m) :: e.key != key
  {
    forall e | e in Grove.Entries(m)
      ensures e.key != key
    {
      Grove.GetFindsEntries(m, key, e.stored);
    }
  }

  // ---------- Whole proofs ----------

  /** What an honest proof must show of a key to prove it absent at its path: nothing more when it stops before. */
  ghost predicate ProvesKeyAbsent(g: Grove.Merk, path: seq<Bytes>, layer: LayerProof, key: Bytes)
    requires HonestDepth(g, path) == |path| ==> EnvelopeDepth(layer, path) == Some(|path|)
  {
    HonestDepth(g, path) == |path| ==>
      var sub := Grove.SubtreeAt(g, path);
      sub.Some? && ShowsGap(Pushed(LayerAt(layer, path).ops), sub.value, key)
  }

  /**
    An honest proof is accepted as one that a key is absent at its path if and only if the key
    is absent there and the proof shows both its neighbours (or it stops at an empty subtree
    before); then with the grove's root.
  */
  lemma HonestAbsenceAccepted(g: Grove.Merk, path: seq<Bytes>, layer: LayerProof, key: Bytes)
    requires Grove.WellFormed(g) && HonestLayer(g, path, layer)
    ensures HonestDepth(g, path) <= |path| && EnvelopeDepth(layer, path) == Some(HonestDepth(g, path))
    ensures
      VerifyKeyAbsence(GroveProof(0, layer, true), path, key)
      == if ProvesKeyAbsent(g, path, layer, key) then Some(Grove.MerkHash(g)) else None
  {
    hide VerifyProof, HonestLayer, HonestDepth, EnvelopeDepth, ShowsGap, ProvesAbsent;
    HonestProofAccepted(g, path, layer);
    if HonestDepth(g, path) == |path| {
      var sub, t := HonestEnd(g, path, layer);
      HonestTreeExecutes(t, sub);
      ProvesAbsentIffShown(t, sub, key);
    }
  }

  lemma {:induction false} FullEnd(m: Grove.Merk, path: seq<Bytes>)
    requires Grove.SubtreeAt(m, path).Some? && EnvelopeDepth(FullProof(m, path), path) == Some(|path|)
    ensures LayerAt(FullProof(m, path), path).ops == Emit(Reveal(Grove.SubtreeAt(m, path).value))
    decreases |path|
  {
    if path != [] {
      EnvelopeDepthBound(FullProof(m, path), path);
      FullEnd(Grove.Get(m, path[0]).value.tree, path[1..]);
    }
  }

  lemma RevealShowsAll(m: Grove.Merk, e: Grove.Entry)
    requires e in Grove.Entries(m)
    ensures ShowsKey(InOrder(Reveal(m)), e.key)
  {
    RevealIsHonest(m);
    var n := RevealedEntry(Reveal(m), m, e);
  }

  /** The unpruned proof of a path proves exactly the keys absent there to be so. */
  lemma FullProofProvesAbsence(g: Grove.Merk, path: seq<Bytes>, key: Bytes)
    requires Grove.WellFormed(g) && g.Branch? && Grove.SubtreeAt(g, path).Some?
    ensures
      VerifyKeyAbsence(GroveProof(0, FullProof(g, path), true), path, key) == Some(Grove.MerkHash(g))
      <==> Absent(g, path, key)
  {
    hide VerifyKeyAbsence, HonestLayer, HonestDepth, EnvelopeDepth, FullProof, Emit, Reveal, ShowsKey, Neighbours;
    var layer := FullProof(g, path);
    var proof := GroveProof(0, layer, true);
    FullProofIsHonest(g, path);
    HonestAbsenceAccepted(g, path, layer, key);
    if VerifyKeyAbsence(proof, path, key) == Some(Grove.MerkHash(g)) {
      KeyAbsenceSound(proof, path, key, g);
    } else if Absent(g, path, key) {
      var sub, t := HonestEnd(g, path, layer);
      FullEnd(g, path);
      RevealIsHonest(sub);
      HonestTreeExecutes(Reveal(sub), sub);
      forall e | e in Grove.Entries(sub)
        ensures ShowsKey(InOrder(Reveal(sub)), e.key)
      {
        RevealShowsAll(sub, e);
      }
    }
  }
}
