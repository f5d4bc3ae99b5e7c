/** Honest proofs are accepted: the operations a prover writes for a pruning build that pruning. */
module HonestProofs {
  import opened Bytes
  import opened ProofTree
  import opened Executor
  import opened ExecutorProperties

  // ---------- Writing a tree as operations ----------

  /** The left-to-right operations that build `t`. */
  function Emit(t: ProofTree): seq<MerkOp> {
    match t
    case Nil => []
    case Node(n, l, r) =>
      (Emit(l) + [Push(n)])
      + ((if l.Nil? then [] else [Parent])
      + (if r.Nil? then [] else Emit(r) + [Child]))
  }

  lemma {:induction false} RunSplit(m: Machine, a: seq<MerkOp>, b: seq<MerkOp>, collapse: bool)
    requires Run(m, a, collapse).Some?
    ensures Run(m, a + b, collapse) == Run(Run(m, a, collapse).value, b, collapse)
    decreases |a|
  {
    if a == [] {
      assert a + b == b;
    } else {
      assert (a + b)[1..] == a[1..] + b;
      RunSplit(Step(m, a[0], collapse).value, a[1..], b, collapse);
    }
  }

  lemma KeysAround(l: seq<MerkNode>, n: MerkNode, r: seq<MerkNode>)
    ensures Keys(l + [n] + r) == Keys(l) + Keys([n]) + Keys(r)
    ensures Keys([n]) == if n.HasKey() then [n.key] else []
  {
    KeysSplit(l + [n], r);
    KeysSplit(l, [n]);
    assert Keys([n]) == (if n.HasKey() then [n.key] else []) + Keys([]);
  }

  /** The last key a machine has seen once it has pushed nodes with these keys. */
  ghost function LastKey(before: Option<Bytes>, keys: seq<Bytes>): Option<Bytes> {
    if keys == [] then before else Some(keys[|keys| - 1])
  }

  ghost predicate Follows(last: Option<Bytes>, keys: seq<Bytes>) {
    last.Some? && keys != [] ==> Less(last.value, keys[0])
  }

  ghost function With(m: Machine, t: ProofTree): Machine {
    Machine(m.stack + [t], LastKey(m.lastKey, Keys(InOrder(t))), false)
  }

  lemma FollowsParts(last: Option<Bytes>, a: seq<Bytes>, b: seq<Bytes>)
    requires Increasing(a + b) && Follows(last, a + b)
    ensures Increasing(a) && Increasing(b) && Follows(last, a) && Follows(LastKey(last, a), b)
    ensures LastKey(LastKey(last, a), b) == LastKey(last, a + b)
  {
    assert forall i | 0 <= i < |a| :: (a + b)[i] == a[i];
    assert forall i | 0 <= i < |b| :: (a + b)[|a| + i] == b[i];
    if a != [] && b != [] {
      assert Less((a + b)[|a| - 1], (a + b)[|a|]);
    }
  }

  /** Running a tree's operations pushes that tree. */
  lemma {:induction false} EmitRuns(m: Machine, t: ProofTree)
    requires t.Node? && HashesAreLeaves(t) && !m.lastInverted
    requires Increasing(Keys(InOrder(t))) && Follows(m.lastKey, Keys(InOrder(t)))
    ensures Run(m, Emit(t), false) == Some(With(m, t))
    decreases t, 1
  {
    var n, l, r := t.node, t.left, t.right;
    var kl, kn, kr := Keys(InOrder(l)), Keys([n]), Keys(InOrder(r));
    KeysAround(InOrder(l), n, InOrder(r));
    FollowsParts(m.lastKey, kl + kn, kr);
    FollowsParts(m.lastKey, kl, kn);
    EmitLeft(m, t);
    var m1 := Machine(m.stack + [Node(n, l, Nil)], LastKey(m.lastKey, kl + kn), false);
    EmitRight(m, t);
    RunSplit(m, (Emit(l) + [Push(n)]) + (if l.Nil? then [] else [Parent]), if r.Nil? then [] else Emit(r) + [Child], false);
    Associative(Emit(l) + [Push(n)], if l.Nil? then [] else [Parent], if r.Nil? then [] else Emit(r) + [Child]);
  }

  /** The right subtree, built and attached to the node. */
  lemma {:induction false} EmitRight(m: Machine, t: ProofTree)
    requires t.Node? && HashesAreLeaves(t)
    requires Increasing(Keys(InOrder(t.right)))
    requires
      var keys := Keys(InOrder(t.left)) + Keys([t.node]);
      Follows(LastKey(m.lastKey, keys), Keys(InOrder(t.right)))
    ensures
      var keys := Keys(InOrder(t.left)) + Keys([t.node]);
      var m1 := Machine(m.stack + [Node(t.node, t.left, Nil)], LastKey(m.lastKey, keys), false);
      Run(m1, if t.right.Nil? then [] else Emit(t.right) + [Child], false)
      == Some(Machine(m.stack + [t], LastKey(m1.lastKey, Keys(InOrder(t.right))), false))
    decreases t, 0
  {
    var keys := Keys(InOrder(t.left)) + Keys([t.node]);
    var m1 := Machine(m.stack + [Node(t.node, t.left, Nil)], LastKey(m.lastKey, keys), false);
    if t.right.Node? {
      EmitRuns(m1, t.right);
      RunSplit(m1, Emit(t.right), [Child], false);
      var m2 := With(m1, t.right);
      RunOne(m2, Child);
      assert m2.stack == m.stack + [Node(t.node, t.left, Nil), t.right];
      assert m2.stack[..|m2.stack| - 2] == m.stack;
    }
  }

  /** The node with its left subtree attached, before the right one is built. */
  lemma {:induction false} EmitLeft(m: Machine, t: ProofTree)
    requires t.Node? && HashesAreLeaves(t) && !m.lastInverted
    requires Increasing(Keys(InOrder(t.left))) && Follows(m.lastKey, Keys(InOrder(t.left)))
    requires Follows(LastKey(m.lastKey, Keys(InOrder(t.left))), Keys([t.node]))
    ensures
      var keys := Keys(InOrder(t.left)) + Keys([t.node]);
      Run(m, (Emit(t.left) + [Push(t.node)]) + (if t.left.Nil? then [] else [Parent]), false)
      == Some(Machine(m.stack + [Node(t.node, t.left, Nil)], LastKey(m.lastKey, keys), false))
    decreases t, 0
  {
    var n, l := t.node, t.left;
    KeysAround([], n, []);
    if l.Nil? {
      assert Emit(l) + [Push(n)] + [] == [Push(n)];
      assert Keys(InOrder(l)) + Keys([n]) == Keys([n]);
      RunOne(m, Push(n));
    } else {
      EmitRuns(m, l);
      var m1 := With(m, l);
      RunSplit(m, Emit(l), [Push(n)], false);
      RunOne(m1, Push(n));
      var m2 := Step(m1, Push(n), false).value;
      assert m2.stack == m.stack + [l, Single(n)];
      RunSplit(m, Emit(l) + [Push(n)], [Parent], false);
      RunOne(m2, Parent);
      assert m2.stack[..|m2.stack| - 2] == m.stack;
    }
  }

  /** Executing a tree's operations gives that tree back. */
  lemma EmitExecutes(t: ProofTree)
    requires t.Node? && HashesAreLeaves(t) && Increasing(Keys(InOrder(t)))
    ensures Execute(Emit(t), false) == Some(t)
  {
    EmitRuns(START, t);
    assert START.stack + [t] == [t];
  }
}
