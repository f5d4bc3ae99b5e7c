/** The mutable tree a merk proof is executed into, and the stack machine over it. */
module MerkTree {
  import opened Bytes
  import opened Hash
  import opened ProofTree
  import opened Executor
  import opened ExecutorProperties
  import opened LayerVerifier

  /** A child and its hash, cached when it was attached. */
  datatype ChildLink = NoChild | ChildLink(tree: Tree, hash: Hash)

  class Tree {
    const node: MerkNode
    var left: ChildLink
    var right: ChildLink
    /** The tree as a value, and the objects it is made of. */
    ghost var model: ProofTree
    ghost var repr: set<Tree>

    ghost predicate Valid()
      reads this, repr
      decreases repr
      ensures Valid() ==> this in repr
    {
      && this in repr && model.Node? && model.node == node
      && (left.NoChild? ==> model.left == Nil)
      && (right.NoChild? ==> model.right == Nil)
      && (left.ChildLink? ==>
            && left.tree in repr && left.tree.repr <= repr && this !in left.tree.repr && left.tree.Valid()
            && left.tree.model == model.left && left.hash == RootHash(model.left))
      && (right.ChildLink? ==>
            && right.tree in repr && right.tree.repr <= repr && this !in right.tree.repr && right.tree.Valid()
            && right.tree.model == model.right && right.hash == RootHash(model.right))
    }

    constructor (node: MerkNode)
      ensures Valid() && fresh(repr) && repr == {this} && model == Single(node)
    {
      this.node := node;
      left, right := NoChild, NoChild;
      model, repr := Single(node), {this};
    }

    function ChildHash(isLeft: bool): Hash
      reads this
    {
      var child := if isLeft then left else right;
      if child.NoChild? then Null else child.hash
    }

    function RootOf(): (h: Hash)
      requires Valid()
      reads this, repr
      ensures h == RootHash(model)
    {
      if node.HashNode? then node.hash
      else NodeHash(node.KvPart(), ChildHash(true), ChildHash(false))
    }

    /** Hang `child` on one side; refused under a pruned subtree or where a child already hangs. */
    method Attach(isLeft: bool, child: Tree) returns (ok: bool)
      requires Valid() && child.Valid() && repr !! child.repr
      modifies this
      ensures Valid() && ok == Executor.Attach(old(model), isLeft, child.model).Some?
      ensures ok ==> model == Executor.Attach(old(model), isLeft, child.model).value && repr == old(repr) + child.repr
      ensures !ok ==> model == old(model) && repr == old(repr)
    {
      if node.HashNode? || (if isLeft then left.ChildLink? else right.ChildLink?) {
        LinkedIsNode();
        return false;
      }
      var link := ChildLink(child, child.RootOf());
      if isLeft {
        left, model := link, model.(left := child.model);
      } else {
        right, model := link, model.(right := child.model);
      }
      repr := repr + child.repr;
      return true;
    }

    lemma LinkedIsNode()
      requires Valid()
      ensures left.ChildLink? ==> model.left.Node?
      ensures right.ChildLink? ==> model.right.Node?
    {
    }

    method IntoHash() returns (t: Tree)
      requires Valid()
      ensures t.Valid() && fresh(t.repr) && t.model == Executor.IntoHash(model)
    {
      t := new Tree(HashNode(RootOf()));
    }

    /** The nodes from left to right. */
    method Nodes() returns (nodes: seq<MerkNode>)
      requires Valid()
      ensures nodes == InOrder(model)
      decreases repr
    {
      nodes := [];
      if left.ChildLink? {
        nodes := left.tree.Nodes();
      }
      nodes := nodes + [node];
      if right.ChildLink? {
        var after := right.tree.Nodes();
        nodes := nodes + after;
      }
    }
  }

  /** What is recorded of each visited node: the result set, and the keys that carry a value. */
  class Visitor {
    var resultSet: seq<ProvedKeyValue>
    var valueKeys: set<Bytes>
    ghost var visited: seq<MerkNode>

    ghost predicate Valid()
      reads this
    {
      resultSet == ProvedAll(visited) && valueKeys == ValueKeys(visited)
    }

    constructor ()
      ensures Valid() && visited == []
    {
      resultSet, valueKeys, visited := [], {}, [];
    }

    method Visit(node: MerkNode)
      requires Valid()
      modifies this
      ensures Valid() && visited == old(visited) + [node]
    {
      if node.HasValue() {
        valueKeys := valueKeys + {node.key};
      }
      resultSet := resultSet + Proved(node);
      assert (visited + [node])[..|visited|] == visited;
      visited := visited + [node];
    }
  }

  /** Hang `child`, or its hash when collapsing, on one side of `parent`. */
  method Hang(parent: Tree, child: Tree, isLeft: bool, collapse: bool) returns (ok: bool)
    requires parent.Valid() && child.Valid() && parent.repr !! child.repr
    modifies parent
    ensures parent.Valid() && fresh(parent.repr - old(parent.repr) - child.repr)
    ensures
      var t := Executor.Attach(old(parent.model), isLeft, if collapse then Executor.IntoHash(child.model) else child.model);
      ok == t.Some? && (ok ==> parent.model == t.value)
  {
    if collapse {
      var hashed := child.IntoHash();
      ok := parent.Attach(isLeft, hashed);
    } else {
      ok := parent.Attach(isLeft, child);
    }
  }

  /** The stack of trees, and the key order it keeps. */
  class StackMachine {
    const collapse: bool
    var stack: seq<Tree>
    var lastKey: Option<Bytes>
    var lastKeyInverted: bool
    ghost var models: seq<ProofTree>
    ghost var trees: set<Tree>

    ghost predicate Valid()
      reads this, trees
    {
      && |stack| == |models|
      && (forall i | 0 <= i < |stack| :: Holds(stack[i], models[i]))
      && forall i, j | 0 <= i < j < |stack| :: stack[i].repr !! stack[j].repr
    }

    ghost predicate Holds(t: Tree, model: ProofTree)
      reads this, trees
    {
      t in trees && t.repr <= trees && t.Valid() && t.model == model
    }

    /** The tree shares nothing with those on the stack. */
    ghost predicate Apart(t: Tree)
      requires Valid()
      reads this, trees, t
    {
      forall i | 0 <= i < |stack| :: t.repr !! stack[i].repr
    }

    /** The machine the operations are run on, as a value. */
    ghost function State(): Machine
      reads this
    {
      Machine(models, lastKey, lastKeyInverted)
    }

    constructor (collapse: bool)
      ensures Valid() && trees == {} && State() == START && this.collapse == collapse
    {
      this.collapse := collapse;
      stack, lastKey, lastKeyInverted := [], None, false;
      models, trees := [], {};
    }

    method Put(t: Tree)
      requires Valid() && t.Valid() && Apart(t)
      modifies this
      ensures Valid() && trees == old(trees) + t.repr
      ensures State() == old(State()).(stack := old(State()).stack + [t.model])
    {
      stack, models, trees := stack + [t], models + [t.model], trees + t.repr;
    }

    method Pop() returns (t: Option<Tree>)
      requires Valid()
      modifies this
      ensures Valid() && trees == old(trees)
      ensures t.None? <==> old(models) == []
      ensures t.Some? ==>
                && t.value in trees && t.value.repr <= trees && t.value.Valid() && Apart(t.value)
                && old(stack) == stack + [t.value] && t.value.model == old(models)[|old(models)| - 1]
                && State() == old(State()).(stack := old(models)[..|old(models)| - 1])
    {
      var n := |stack|;
      if n == 0 {
        return None;
      }
      t := Some(stack[n - 1]);
      stack, models := stack[..n - 1], models[..n - 1];
    }

    method IsInOrder(node: MerkNode, inverted: bool) returns (ok: bool)
      ensures ok == InKeyOrder(State(), node, inverted)
    {
      hide Less;
      if node.HasKey() && lastKey.Some? && lastKeyInverted == inverted {
        var c := CompareBytes(node.key, lastKey.value);
        if if inverted then c >= 0 else c <= 0 {
          return false;
        }
      }
      return true;
    }

    /** Push a node: keys ascend, or descend once the pushes are inverted. */
    method PushNode(node: MerkNode, inverted: bool) returns (ok: bool)
      requires Valid()
      modifies this
      ensures Valid() && fresh(trees - old(trees))
      ensures ok == Executor.PushNode(old(State()), node, inverted).Some?
      ensures ok ==> State() == Executor.PushNode(old(State()), node, inverted).value
    {
      hide InKeyOrder;
      ok := IsInOrder(node, inverted);
      if !ok {
        return false;
      }
      if node.HasKey() {
        lastKey, lastKeyInverted := Some(node.key), inverted;
      }
      var leaf := new Tree(node);
      Put(leaf);
      return true;
    }

    /** Pop two trees and hang one on the other. */
    method AttachChild(parentFirst: bool, isLeft: bool) returns (ok: bool)
      requires Valid()
      modifies this, trees
      ensures Valid() && fresh(trees - old(trees))
      ensures ok == Executor.AttachChild(old(State()), parentFirst, isLeft, collapse).Some?
      ensures ok ==> State() == Executor.AttachChild(old(State()), parentFirst, isLeft, collapse).value
    {
      var first := Pop();
      if first.None? {
        return false;
      }
      var second := Pop();
      if second.None? {
        return false;
      }
      var parent := if parentFirst then first.value else second.value;
      var child := if parentFirst then second.value else first.value;
      assert first.value.repr !! second.value.repr;
      ok := HangAndPut(parent, child, isLeft);
    }

    method Apply(op: MerkOp) returns (ok: bool)
      requires Valid()
      modifies this, trees
      ensures Valid() && fresh(trees - old(trees))
      ensures Step(old(State()), op, collapse) == if ok then Some(State()) else None
    {
      match op
      case Push(node) => ok := PushNode(node, false);
      case PushInverted(node) => ok := PushNode(node, true);
      case Parent => ok := AttachChild(true, true);
      case Child => ok := AttachChild(false, false);
      case ParentInverted => ok := AttachChild(true, false);
      case ChildInverted => ok := AttachChild(false, true);
    }

    method HangAndPut(parent: Tree, child: Tree, isLeft: bool) returns (ok: bool)
      requires Valid() && parent.Valid() && child.Valid() && parent.repr !! child.repr
      requires parent.repr <= trees && child.repr <= trees && Apart(parent) && Apart(child)
      modifies this, parent
      ensures Valid() && fresh(trees - old(trees))
      ensures
        var t := Executor.Attach(old(parent.model), isLeft,
                                 if collapse then Executor.IntoHash(old(child.model)) else old(child.model));
        && ok == t.Some?
        && (ok ==> State() == old(State()).(stack := old(models) + [t.value]))
    {
      ok := Hang(parent, child, isLeft, collapse);
      assert forall i | 0 <= i < |stack| :: stack[i].repr == old(stack[i].repr) && Holds(stack[i], models[i]);
      if ok {
        Put(parent);
      }
    }
  }

  /** Apply an operation, and visit the node it pushes. */
  method Handle(machine: StackMachine, op: MerkOp, visitor: Visitor) returns (ok: bool)
    requires machine.Valid() && visitor.Valid()
    modifies machine, machine.trees, visitor
    ensures machine.Valid() && visitor.Valid() && fresh(machine.trees - old(machine.trees))
    ensures Step(old(machine.State()), op, machine.collapse) == if ok then Some(machine.State()) else None
    ensures ok ==> visitor.visited == old(visitor.visited) + Pushed([op])
  {
    ok := machine.Apply(op);
    if ok && (op.Push? || op.PushInverted?) {
      visitor.Visit(op.node);
      assert Pushed([op]) == [op.node];
    }
  }

  /** How far a run is, `m` and `seen` being the machine and the nodes pushed so far. */
  ghost predicate Reached(ops: seq<MerkOp>, i: nat, collapse: bool, m: Machine, seen: seq<MerkNode>)
    requires i <= |ops|
  {
    Run(START, ops, collapse) == Run(m, ops[i..], collapse) && Pushed(ops) == seen + Pushed(ops[i..])
  }

  lemma ReachedNext(ops: seq<MerkOp>, i: nat, collapse: bool, m: Machine, seen: seq<MerkNode>)
    requires i < |ops| && Reached(ops, i, collapse, m, seen)
    ensures
      match Step(m, ops[i], collapse)
      case None => Run(START, ops, collapse).None?
      case Some(m') => Reached(ops, i + 1, collapse, m', seen + Pushed([ops[i]]))
  {
    assert ops[i..][1..] == ops[i + 1..];
    PushedSplit(ops[i..]);
    Associative(seen, Pushed([ops[i]]), Pushed(ops[i + 1..]));
  }

  /**
    Execute the operations on a stack of trees, visiting each pushed node: the result is the
    tree the operations mean, and none when they do not run or leave more or less than one.
  */
  method ExecuteOps(ops: seq<MerkOp>, collapse: bool, visitor: Visitor) returns (tree: Option<Tree>)
    requires visitor.Valid() && visitor.visited == []
    modifies visitor
    ensures visitor.Valid()
    ensures tree.Some? <==> Execute(ops, collapse).Some?
    ensures tree.Some? ==>
              tree.value.Valid() && fresh(tree.value.repr) && tree.value.model == Execute(ops, collapse).value
    ensures tree.Some? ==> visitor.visited == Pushed(ops)
  {
    var machine := new StackMachine(collapse);
    for i := 0 to |ops|
      invariant machine.Valid() && fresh(machine.trees) && visitor.Valid()
      invariant Reached(ops, i, collapse, machine.State(), visitor.visited)
    {
      ReachedNext(ops, i, collapse, machine.State(), visitor.visited);
      var ok := Handle(machine, ops[i], visitor);
      if !ok {
        return None;
      }
    }
    var stack := machine.stack;
    if |stack| != 1 {
      return None;
    }
    return Some(stack[0]);
  }
}
