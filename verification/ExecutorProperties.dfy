/** What every accepted run of the stack machine keeps. */
module ExecutorProperties {
  import opened Bytes
  import opened ProofTree
  import opened Executor

  // ---------- The final tree in order ----------

  ghost predicate AllUpright(ops: seq<MerkOp>) {
    forall op <- ops :: op.Push? || op.Parent? || op.Child?
  }

  ghost predicate AllInverted(ops: seq<MerkOp>) {
    forall op <- ops :: op.PushInverted? || op.ParentInverted? || op.ChildInverted?
  }

  /** The nodes on the stack, bottom tree first. */
  ghost function Upwards(stack: seq<ProofTree>): seq<MerkNode> {
    if stack == [] then [] else Upwards(stack[..|stack| - 1]) + InOrder(stack[|stack| - 1])
  }

  /** The nodes on the stack, top tree first. */
  ghost function Downwards(stack: seq<ProofTree>): seq<MerkNode> {
    if stack == [] then [] else InOrder(stack[|stack| - 1]) + Downwards(stack[..|stack| - 1])
  }

  ghost function Reverse<T>(s: seq<T>): seq<T> {
    if s == [] then [] else Reverse(s[1..]) + [s[0]]
  }

  lemma Associative<T>(a: seq<T>, b: seq<T>, c: seq<T>)
    ensures (a + b) + c == a + (b + c)
  {
  }

  lemma Top(stack: seq<ProofTree>, a: ProofTree)
    ensures Upwards(stack + [a]) == Upwards(stack) + InOrder(a)
    ensures Downwards(stack + [a]) == InOrder(a) + Downwards(stack)
  {
    assert (stack + [a])[..|stack|] == stack;
  }

  lemma Alone(stack: seq<ProofTree>)
    requires |stack| == 1
    ensures Upwards(stack) == Downwards(stack) == InOrder(stack[0])
    ensures Upwards(START.stack) == Downwards(START.stack) == []
  {
    assert stack == [] + [stack[0]];
    Top([], stack[0]);
  }

  lemma TopTwo(stack: seq<ProofTree>, a: ProofTree, b: ProofTree)
    ensures Upwards(stack + [a, b]) == Upwards(stack) + (InOrder(a) + InOrder(b))
    ensures Downwards(stack + [a, b]) == (InOrder(b) + InOrder(a)) + Downwards(stack)
  {
    assert stack + [a, b] == (stack + [a]) + [b];
    Top(stack, a);
    Top(stack + [a], b);
    Associative(Upwards(stack), InOrder(a), InOrder(b));
    Associative(InOrder(b), InOrder(a), Downwards(stack));
  }

  /** An attached child's nodes come before the parent's, or after. */
  lemma AttachInOrder(parent: ProofTree, left: bool, child: ProofTree, t: ProofTree)
    requires Attach(parent, left, child) == Some(t)
    ensures InOrder(t) == if left then InOrder(child) + InOrder(parent) else InOrder(parent) + InOrder(child)
  {
    if left {
      AroundNode(InOrder(child), parent.node, InOrder(parent.right));
    } else {
      AroundNode(InOrder(parent.left), parent.node, InOrder(child));
    }
  }

  lemma AroundNode(x: seq<MerkNode>, n: MerkNode, y: seq<MerkNode>)
    ensures x + [n] + y == x + ([] + [n] + y) == (x + [n] + []) + y
  {
  }

  /** What a step that is no push does to the stack: its two top trees become one. */
  lemma JoinTopTwo(m: Machine, op: MerkOp, m': Machine)
    returns (below: seq<ProofTree>, a: ProofTree, b: ProofTree, t: ProofTree)
    requires !op.Push? && !op.PushInverted? && Step(m, op, false) == Some(m')
    ensures m.stack == below + [a, b] && m'.stack == below + [t]
    ensures op.Parent? || op.Child? ==> InOrder(t) == InOrder(a) + InOrder(b)
    ensures op.ParentInverted? || op.ChildInverted? ==> InOrder(t) == InOrder(b) + InOrder(a)
    ensures Pushed([op]) == []
  {
    hide InOrder;
    var n := |m.stack|;
    below, a, b, t := m.stack[..n - 2], m.stack[n - 2], m.stack[n - 1], m'.stack[n - 2];
    match op
    case Parent => AttachInOrder(b, true, a, t);
    case Child => AttachInOrder(a, false, b, t);
    case ParentInverted => AttachInOrder(b, false, a, t);
    case ChildInverted => AttachInOrder(a, true, b, t);
  }

  lemma StepUpwards(m: Machine, op: MerkOp, m': Machine)
    requires op.Push? || op.Parent? || op.Child?
    requires Step(m, op, false) == Some(m')
    ensures Upwards(m'.stack) == Upwards(m.stack) + Pushed([op])
  {
    hide InOrder, Upwards;
    if op.Push? {
      Top(m.stack, Single(op.node));
      PushedAlone(op);
    } else {
      var below, a, b, t := JoinTopTwo(m, op, m');
      TopTwo(below, a, b);
      Top(below, t);
    }
  }

  lemma StepDownwards(m: Machine, op: MerkOp, m': Machine)
    requires op.PushInverted? || op.ParentInverted? || op.ChildInverted?
    requires Step(m, op, false) == Some(m')
    ensures Downwards(m'.stack) == Pushed([op]) + Downwards(m.stack)
  {
    hide InOrder, Downwards;
    if op.PushInverted? {
      Top(m.stack, Single(op.node));
      PushedAlone(op);
    } else {
      var below, a, b, t := JoinTopTwo(m, op, m');
      TopTwo(below, a, b);
      Top(below, t);
    }
  }

  lemma PushedSplit(ops: seq<MerkOp>)
    requires ops != []
    ensures Pushed(ops) == Pushed([ops[0]]) + Pushed(ops[1..])
  {
  }

  lemma {:induction false} RunUpwards(m: Machine, ops: seq<MerkOp>, m': Machine)
    requires AllUpright(ops) && Run(m, ops, false) == Some(m')
    ensures Upwards(m'.stack) == Upwards(m.stack) + Pushed(ops)
    decreases |ops|
  {
    if ops != [] {
      var m1 := Step(m, ops[0], false).value;
      StepUpwards(m, ops[0], m1);
      RunUpwards(m1, ops[1..], m');
      PushedSplit(ops);
      Associative(Upwards(m.stack), Pushed([ops[0]]), Pushed(ops[1..]));
    }
  }

  lemma {:induction false} RunDownwards(m: Machine, ops: seq<MerkOp>, m': Machine)
    requires AllInverted(ops) && Run(m, ops, false) == Some(m')
    ensures Downwards(m'.stack) == Reverse(Pushed(ops)) + Downwards(m.stack)
    decreases |ops|
  {
    if ops != [] {
      var m1 := Step(m, ops[0], false).value;
      StepDownwards(m, ops[0], m1);
      RunDownwards(m1, ops[1..], m');
      PushedSplit(ops);
      assert Reverse(Pushed(ops)) == Reverse(Pushed(ops[1..])) + Pushed([ops[0]]);
      Associative(Reverse(Pushed(ops[1..])), Pushed([ops[0]]), Downwards(m.stack));
    }
  }

  /** Pushes are the final tree's nodes from left to right; from right to left for inverted ones. */
  lemma PushOrderIsTreeOrder(ops: seq<MerkOp>)
    requires Execute(ops, false).Some?
    ensures AllUpright(ops) ==> InOrder(Execute(ops, false).value) == Pushed(ops)
    ensures AllInverted(ops) ==> InOrder(Execute(ops, false).value) == Reverse(Pushed(ops))
  {
    var m := Run(START, ops, false).value;
    Alone(m.stack);
    if AllUpright(ops) {
      RunUpwards(START, ops, m);
      assert [] + Pushed(ops) == Pushed(ops);
    }
    if AllInverted(ops) {
      RunDownwards(START, ops, m);
      assert Reverse(Pushed(ops)) + [] == Reverse(Pushed(ops));
    }
  }

  // ---------- Every pushed node is in the final tree, whatever the directions ----------

  lemma StepKeepsNodes(m: Machine, op: MerkOp, m': Machine)
    requires Step(m, op, false) == Some(m')
    ensures multiset(Upwards(m'.stack)) == multiset(Upwards(m.stack)) + multiset(Pushed([op]))
  {
    hide InOrder, Upwards;
    if op.Push? || op.PushInverted? {
      Top(m.stack, Single(op.node));
      PushedAlone(op);
    } else {
      var below, a, b, t := JoinTopTwo(m, op, m');
      TopTwo(below, a, b);
      Top(below, t);
    }
  }

  lemma PushedAlone(op: MerkOp)
    requires op.Push? || op.PushInverted?
    ensures Pushed([op]) == InOrder(Single(op.node)) == [op.node]
  {
  }

  lemma {:induction false} RunKeepsNodes(m: Machine, ops: seq<MerkOp>, m': Machine)
    requires Run(m, ops, false) == Some(m')
    ensures multiset(Upwards(m'.stack)) == multiset(Upwards(m.stack)) + multiset(Pushed(ops))
    decreases |ops|
  {
    if ops != [] {
      var m1 := Step(m, ops[0], false).value;
      StepKeepsNodes(m, ops[0], m1);
      RunKeepsNodes(m1, ops[1..], m');
      PushedSplit(ops);
    }
  }

  /** The final tree holds exactly the pushed nodes, each as often as it was pushed. */
  lemma PushedNodesAreTreeNodes(ops: seq<MerkOp>)
    requires Execute(ops, false).Some?
    ensures multiset(InOrder(Execute(ops, false).value)) == multiset(Pushed(ops))
  {
    var m := Run(START, ops, false).value;
    RunKeepsNodes(START, ops, m);
    Alone(m.stack);
  }

  // ---------- Key order ----------

  /** The keys of the nodes that have one. */
  function Keys(nodes: seq<MerkNode>): seq<Bytes> {
    if nodes == [] then []
    else (if nodes[0].HasKey() then [nodes[0].key] else []) + Keys(nodes[1..])
  }

  function TreeKeys(t: ProofTree): seq<Bytes> {
    Keys(InOrder(t))
  }

  ghost predicate Increasing(keys: seq<Bytes>) {
    forall i, j | 0 <= i < j < |keys| :: Less(keys[i], keys[j])
  }

  lemma IncreasingCons(k: Bytes, keys: seq<Bytes>)
    requires Increasing(keys) && (keys != [] ==> Less(k, keys[0]))
    ensures Increasing([k] + keys)
  {
    forall i, j | 0 <= i < j < |keys| + 1
      ensures Less(([k] + keys)[i], ([k] + keys)[j])
    {
      if i == 0 && j > 1 {
        LessTransitive(k, keys[0], keys[j - 1]);
      }
    }
  }

  lemma {:induction false} RunKeysIncrease(m: Machine, ops: seq<MerkOp>, collapse: bool)
    requires AllUpright(ops) && Run(m, ops, collapse).Some? && !m.lastInverted
    ensures Increasing(Keys(Pushed(ops)))
    ensures m.lastKey.Some? && Keys(Pushed(ops)) != [] ==> Less(m.lastKey.value, Keys(Pushed(ops))[0])
    decreases |ops|
  {
    if ops != [] {
      RunKeysIncrease(Step(m, ops[0], collapse).value, ops[1..], collapse);
      if ops[0].Push? && ops[0].node.HasKey() {
        IncreasingCons(ops[0].node.key, Keys(Pushed(ops[1..])));
      }
    }
  }

  // An inverted stream pushes its keys from the last down.

  ghost predicate Decreasing(keys: seq<Bytes>) {
    forall i, j | 0 <= i < j < |keys| :: Less(keys[j], keys[i])
  }

  lemma DecreasingCons(k: Bytes, keys: seq<Bytes>)
    requires Decreasing(keys) && (keys != [] ==> Less(keys[0], k))
    ensures Decreasing([k] + keys)
  {
    forall i, j | 0 <= i < j < |keys| + 1
      ensures Less(([k] + keys)[j], ([k] + keys)[i])
    {
      if i == 0 && j > 1 {
        LessTransitive(keys[j - 1], keys[0], k);
      }
    }
  }

  lemma StaysInverted(m: Machine, op: MerkOp, collapse: bool)
    requires op.PushInverted? || op.ParentInverted? || op.ChildInverted?
    requires Step(m, op, collapse).Some? && (m.lastKey.Some? ==> m.lastInverted)
    ensures Step(m, op, collapse).value.lastKey.Some? ==> Step(m, op, collapse).value.lastInverted
    ensures !op.PushInverted? ==> Step(m, op, collapse).value.lastKey == m.lastKey
  {
    hide Attach, IntoHash, Less;
  }

  lemma {:induction false} RunKeysDecrease(m: Machine, ops: seq<MerkOp>, collapse: bool)
    requires AllInverted(ops) && Run(m, ops, collapse).Some? && (m.lastKey.Some? ==> m.lastInverted)
    ensures Decreasing(Keys(Pushed(ops)))
    ensures m.lastKey.Some? && Keys(Pushed(ops)) != [] ==> Less(Keys(Pushed(ops))[0], m.lastKey.value)
    decreases |ops|
  {
    if ops != [] {
      assert ops[0] in ops;
      StaysInverted(m, ops[0], collapse);
      RunKeysDecrease(Step(m, ops[0], collapse).value, ops[1..], collapse);
      if ops[0].PushInverted? && ops[0].node.HasKey() {
        DecreasingCons(ops[0].node.key, Keys(Pushed(ops[1..])));
      }
    }
  }

  lemma {:induction false} KeysSplit(a: seq<MerkNode>, b: seq<MerkNode>)
    ensures Keys(a + b) == Keys(a) + Keys(b)
  {
    if a == [] {
      assert a + b == b;
    } else {
      assert (a + b)[1..] == a[1..] + b;
      KeysSplit(a[1..], b);
    }
  }

  lemma {:induction false} KeysReversed(nodes: seq<MerkNode>)
    ensures Keys(Reverse(nodes)) == Reverse(Keys(nodes))
  {
    if nodes != [] {
      var rest, first := nodes[1..], [nodes[0]];
      KeysReversed(rest);
      KeysSplit(Reverse(rest), first);
      assert first[1..] == [] && Keys(first) == if nodes[0].HasKey() then [nodes[0].key] else [];
      if nodes[0].HasKey() {
        assert Keys(nodes)[1..] == Keys(rest);
      } else {
        assert Keys(nodes) == Keys(rest);
        assert Reverse(Keys(rest)) + [] == Reverse(Keys(rest));
      }
    }
  }

  lemma {:induction false} ReversedAt<T>(s: seq<T>)
    ensures |Reverse(s)| == |s| && forall i | 0 <= i < |s| :: Reverse(s)[i] == s[|s| - 1 - i]
  {
    if s != [] {
      ReversedAt(s[1..]);
    }
  }

  /** In an accepted proof of one direction, the final tree's keys increase from left to right. */
  lemma TreeKeysIncrease(ops: seq<MerkOp>)
    requires (AllUpright(ops) || AllInverted(ops)) && Execute(ops, false).Some?
    ensures Increasing(TreeKeys(Execute(ops, false).value))
  {
    PushOrderIsTreeOrder(ops);
    if AllUpright(ops) {
      RunKeysIncrease(START, ops, false);
    } else {
      RunKeysDecrease(START, ops, false);
      KeysReversed(Pushed(ops));
      ReversedAt(Keys(Pushed(ops)));
    }
  }

  lemma RunOne(m: Machine, op: MerkOp)
    ensures Run(m, [op], false) == Step(m, op, false)
  {
  }

  lemma RunThen(m: Machine, op: MerkOp, rest: seq<MerkOp>)
    requires Step(m, op, false).Some?
    ensures Run(m, [op] + rest, false) == Run(Step(m, op, false).value, rest, false)
  {
    assert ([op] + rest)[1..] == rest;
  }

  /**
    The order check alone does not order the keys of a stream of both directions: this one
    is accepted, and its tree has its keys the wrong way round.
  */
  lemma MixedStreamMayDisorder(k: Bytes, k': Bytes, value: Bytes)
    requires Less(k, k')
    ensures
      var ops := [Push(KV(k', value)), PushInverted(KV(k, value)), Child];
      Execute(ops, false).Some? && !Increasing(TreeKeys(Execute(ops, false).value))
  {
    var upper, lower := KV(k', value), KV(k, value);
    var m1 := Machine([Single(upper)], Some(k'), false);
    var m2 := Machine([Single(upper), Single(lower)], Some(k), true);
    var tree := Node(upper, Nil, Single(lower));
    assert [] + [Single(upper)] == [Single(upper)];
    assert Step(START, Push(upper), false) == Some(m1);
    assert m1.stack + [Single(lower)] == m2.stack;
    assert Step(m1, PushInverted(lower), false) == Some(m2);
    assert m2.stack[..0] + [tree] == [tree];
    assert Step(m2, Child, false) == Some(Machine([tree], Some(k), true));
    RunOne(m2, Child);
    RunThen(m1, PushInverted(lower), [Child]);
    RunThen(START, Push(upper), [PushInverted(lower), Child]);
    assert [Push(upper)] + [PushInverted(lower), Child] == [Push(upper), PushInverted(lower), Child];
    assert [PushInverted(lower)] + [Child] == [PushInverted(lower), Child];
    assert InOrder(tree) == [upper, lower];
    KeysSplit([upper], [lower]);
    assert [upper] + [lower] == [upper, lower] && Keys([upper]) == [k'] && Keys([lower]) == [k];
    LessAsymmetric(k, k');
    var ops := [Push(upper), PushInverted(lower), Child];
    assert Execute(ops, false) == Some(tree);
    var keys := TreeKeys(tree);
    assert keys == [k', k];
    assert !Less(keys[0], keys[1]);
  }

  // ---------- Key order of any accepted stream ----------

  /** Every key of `l` is below every key of `r`, told by the two that would meet. */
  predicate Follows(l: seq<Bytes>, r: seq<Bytes>) {
    l != [] && r != [] ==> Less(l[|l| - 1], r[0])
  }

  /** Where the operation joins two trees, the keys of the one that will be on the left end below those of the other. */
  predicate JoinInOrder(m: Machine, op: MerkOp) {
    var n := |m.stack|;
    n >= 2 ==>
      var a, b := TreeKeys(m.stack[n - 2]), TreeKeys(m.stack[n - 1]);
      && (op.Parent? || op.Child? ==> Follows(a, b))
      && (op.ParentInverted? || op.ChildInverted? ==> Follows(b, a))
  }

  /** Every join of the run is in order. */
  predicate JoinsInOrder(m: Machine, ops: seq<MerkOp>)
    decreases |ops|
  {
    ops != [] ==>
      && JoinInOrder(m, ops[0])
      && (Step(m, ops[0], false).Some? ==> JoinsInOrder(Step(m, ops[0], false).value, ops[1..]))
  }

  ghost predicate AllIncreasing(stack: seq<ProofTree>) {
    forall i | 0 <= i < |stack| :: Increasing(TreeKeys(stack[i]))
  }

  lemma IncreasingParts(l: seq<Bytes>, r: seq<Bytes>)
    ensures Increasing(l + r) <==> Increasing(l) && Increasing(r) && Follows(l, r)
  {
    var all := l + r;
    if Increasing(all) {
      assert forall i | 0 <= i < |l| :: l[i] == all[i];
      assert forall i | 0 <= i < |r| :: r[i] == all[|l| + i];
    } else if Increasing(l) && Increasing(r) && Follows(l, r) {
      forall i, j | 0 <= i < |l| && 0 <= j < |r|
        ensures Less(l[i], r[j])
      {
        if i < |l| - 1 {
          LessTransitive(l[i], l[|l| - 1], r[0]);
        }
        if j > 0 {
          LessTransitive(l[i], r[0], r[j]);
        }
      }
    }
  }

  lemma JoinedIncrease(l: ProofTree, r: ProofTree, t: ProofTree)
    requires InOrder(t) == InOrder(l) + InOrder(r)
    ensures
      Increasing(TreeKeys(t)) <==> Increasing(TreeKeys(l)) && Increasing(TreeKeys(r)) && Follows(TreeKeys(l), TreeKeys(r))
  {
    KeysSplit(InOrder(l), InOrder(r));
    IncreasingParts(TreeKeys(l), TreeKeys(r));
  }

  lemma IncreasingOnTop(below: seq<ProofTree>, t: ProofTree)
    ensures AllIncreasing(below + [t]) <==> AllIncreasing(below) && Increasing(TreeKeys(t))
  {
    hide Increasing, TreeKeys;
    var stack := below + [t];
    assert forall i | 0 <= i < |below| :: below[i] == stack[i];
    assert stack[|below|] == t;
  }

  lemma StepIncreases(m: Machine, op: MerkOp, m': Machine)
    requires Step(m, op, false) == Some(m')
    ensures AllIncreasing(m'.stack) <==> AllIncreasing(m.stack) && JoinInOrder(m, op)
  {
    hide Increasing, AllIncreasing, TreeKeys, Follows, InOrder;
    if op.Push? || op.PushInverted? {
      IncreasingOnTop(m.stack, Single(op.node));
      SingleIncreases(op.node);
    } else {
      var below, a, b, t := JoinTopTwo(m, op, m');
      assert below + [a, b] == (below + [a]) + [b];
      IncreasingOnTop(below + [a], b);
      IncreasingOnTop(below, a);
      IncreasingOnTop(below, t);
      if op.Parent? || op.Child? {
        JoinedIncrease(a, b, t);
      } else {
        JoinedIncrease(b, a, t);
      }
    }
  }

  lemma SingleIncreases(node: MerkNode)
    ensures Increasing(TreeKeys(Single(node)))
  {
    assert InOrder(Single(node)) == [node];
    assert Keys([node]) == if node.HasKey() then [node.key] else [];
  }

  lemma {:induction false} RunIncreases(m: Machine, ops: seq<MerkOp>, m': Machine)
    requires Run(m, ops, false) == Some(m')
    ensures AllIncreasing(m'.stack) <==> AllIncreasing(m.stack) && JoinsInOrder(m, ops)
    decreases |ops|
  {
    hide AllIncreasing, JoinInOrder;
    if ops != [] {
      var m1 := Step(m, ops[0], false).value;
      StepIncreases(m, ops[0], m1);
      RunIncreases(m1, ops[1..], m');
    }
  }

  /**
    An accepted stream, of whatever directions, builds a tree whose keys increase from left
    to right if and only if, at each join, the last key of the tree that goes left is below
    the first of the one that goes right.
  */
  lemma IncreasingIffJoinsInOrder(ops: seq<MerkOp>)
    requires Execute(ops, false).Some?
    ensures Increasing(TreeKeys(Execute(ops, false).value)) <==> JoinsInOrder(START, ops)
  {
    hide Increasing, TreeKeys;
    var m := Run(START, ops, false).value;
    RunIncreases(START, ops, m);
  }

  // ---------- Collapsing children to their hashes changes nothing that is checked ----------

  /** The same node over children that are absent in both or hash the same. */
  ghost predicate SameAbove(c: ProofTree, u: ProofTree) {
    && c.Node? && u.Node? && c.node == u.node
    && (c.left.Nil? <==> u.left.Nil?) && RootHash(c.left) == RootHash(u.left)
    && (c.right.Nil? <==> u.right.Nil?) && RootHash(c.right) == RootHash(u.right)
  }

  ghost predicate SameMachine(c: Machine, u: Machine) {
    && |c.stack| == |u.stack| && c.lastKey == u.lastKey && c.lastInverted == u.lastInverted
    && forall i | 0 <= i < |c.stack| :: SameAbove(c.stack[i], u.stack[i])
  }

  lemma SameAboveSameHash(c: ProofTree, u: ProofTree)
    requires SameAbove(c, u)
    ensures RootHash(c) == RootHash(u)
  {
  }

  lemma AttachCollapsed(c: ProofTree, u: ProofTree, left: bool, c': ProofTree, u': ProofTree)
    requires SameAbove(c, u) && SameAbove(c', u')
    ensures Attach(c, left, IntoHash(c')).Some? <==> Attach(u, left, u').Some?
    ensures Attach(c, left, IntoHash(c')).Some? ==>
              SameAbove(Attach(c, left, IntoHash(c')).value, Attach(u, left, u').value)
  {
    SameAboveSameHash(c', u');
  }

  lemma StepCollapsed(c: Machine, u: Machine, op: MerkOp)
    requires SameMachine(c, u)
    ensures Step(c, op, true).Some? <==> Step(u, op, false).Some?
    ensures Step(c, op, true).Some? ==> SameMachine(Step(c, op, true).value, Step(u, op, false).value)
  {
    hide IntoHash, SameAbove, Attach, RootHash;
    match op
    case Push(node) => PushCollapsed(c, u, node, false);
    case PushInverted(node) => PushCollapsed(c, u, node, true);
    case Parent => AttachChildCollapsed(c, u, true, true);
    case Child => AttachChildCollapsed(c, u, false, false);
    case ParentInverted => AttachChildCollapsed(c, u, true, false);
    case ChildInverted => AttachChildCollapsed(c, u, false, true);
  }

  lemma PushCollapsed(c: Machine, u: Machine, node: MerkNode, inverted: bool)
    requires SameMachine(c, u)
    ensures PushNode(c, node, inverted).Some? <==> PushNode(u, node, inverted).Some?
    ensures PushNode(c, node, inverted).Some? ==>
              SameMachine(PushNode(c, node, inverted).value, PushNode(u, node, inverted).value)
  {
  }

  lemma AttachChildCollapsed(c: Machine, u: Machine, parentFirst: bool, left: bool)
    requires SameMachine(c, u)
    ensures AttachChild(c, parentFirst, left, true).Some? <==> AttachChild(u, parentFirst, left, false).Some?
    ensures AttachChild(c, parentFirst, left, true).Some? ==>
              SameMachine(AttachChild(c, parentFirst, left, true).value, AttachChild(u, parentFirst, left, false).value)
  {
    hide IntoHash, SameAbove, Attach, RootHash;
    var n := |c.stack|;
    if n >= 2 {
      var p := if parentFirst then n - 1 else n - 2;
      AttachCollapsed(c.stack[p], u.stack[p], left, c.stack[2 * n - 3 - p], u.stack[2 * n - 3 - p]);
    }
  }

  lemma {:induction false} RunCollapsed(c: Machine, u: Machine, ops: seq<MerkOp>)
    requires SameMachine(c, u)
    ensures Run(c, ops, true).Some? <==> Run(u, ops, false).Some?
    ensures Run(c, ops, true).Some? ==> SameMachine(Run(c, ops, true).value, Run(u, ops, false).value)
    decreases |ops|
  {
    if ops != [] {
      StepCollapsed(c, u, ops[0]);
      if Step(c, ops[0], true).Some? {
        RunCollapsed(Step(c, ops[0], true).value, Step(u, ops[0], false).value, ops[1..]);
      }
    }
  }

  /** Collapsing accepts the same proofs and gives the same root hash as keeping the children. */
  lemma CollapseIsInvisible(ops: seq<MerkOp>)
    ensures Execute(ops, true).Some? <==> Execute(ops, false).Some?
    ensures Execute(ops, true).Some? ==>
              RootHash(Execute(ops, true).value) == RootHash(Execute(ops, false).value)
  {
    RunCollapsed(START, START, ops);
    if Execute(ops, true).Some? {
      SameAboveSameHash(Execute(ops, true).value, Execute(ops, false).value);
    }
  }

  // ---------- Pruned subtrees stay leaves ----------

  lemma {:induction false} RunKeepsHashLeaves(m: Machine, ops: seq<MerkOp>, m': Machine)
    requires forall t <- m.stack :: t.Node? && HashesAreLeaves(t)
    requires Run(m, ops, false) == Some(m')
    ensures forall t <- m'.stack :: t.Node? && HashesAreLeaves(t)
    decreases |ops|
  {
    if ops != [] {
      var m1 := Step(m, ops[0], false).value;
      forall t | t in m1.stack
        ensures t.Node? && HashesAreLeaves(t)
      {
        var i :| 0 <= i < |m1.stack| && m1.stack[i] == t;
        if i < |m1.stack| - 1 {
          assert t == m.stack[i];
        }
      }
      RunKeepsHashLeaves(m1, ops[1..], m');
    }
  }

  lemma TreeHashesAreLeaves(ops: seq<MerkOp>)
    requires Execute(ops, false).Some?
    ensures Execute(ops, false).value.Node? && HashesAreLeaves(Execute(ops, false).value)
  {
    var m := Run(START, ops, false).value;
    RunKeepsHashLeaves(START, ops, m);
    assert m.stack[0] in m.stack;
  }
}
