/** The stack machine that builds a proof tree from merk proof operations. */
module Executor {
  import opened Bytes
  import opened ProofTree

  datatype MerkOp =
    | Push(node: MerkNode)
    | PushInverted(node: MerkNode)
    | Parent
    | Child
    | ParentInverted
    | ChildInverted

  /** The stack (top last) and the key and direction of the last keyed push. */
  datatype Machine = Machine(stack: seq<ProofTree>, lastKey: Option<Bytes>, lastInverted: bool)

  const START := Machine([], None, false)

  /** Whether a keyed node may be pushed next: in key order while the direction does not change. */
  predicate InKeyOrder(m: Machine, node: MerkNode, inverted: bool) {
    node.HasKey() && m.lastKey.Some? && m.lastInverted == inverted ==>
      if inverted then Less(node.key, m.lastKey.value) else Less(m.lastKey.value, node.key)
  }

  function PushNode(m: Machine, node: MerkNode, inverted: bool): Option<Machine> {
    if !InKeyOrder(m, node, inverted) then None
    else
      var stack := m.stack + [Single(node)];
      Some(if node.HasKey() then Machine(stack, Some(node.key), inverted) else m.(stack := stack))
  }

  function Attach(parent: ProofTree, left: bool, child: ProofTree): Option<ProofTree> {
    if parent.Nil? || parent.node.HashNode? then None
    else if left then
      if parent.left.Nil? then Some(parent.(left := child)) else None
    else
      if parent.right.Nil? then Some(parent.(right := child)) else None
  }

  /** A tree as its hash alone. */
  function IntoHash(t: ProofTree): ProofTree {
    Single(HashNode(RootHash(t)))
  }

  function AttachChild(m: Machine, parentFirst: bool, left: bool, collapse: bool): Option<Machine> {
    var n := |m.stack|;
    if n < 2 then None
    else
      var parent := if parentFirst then m.stack[n - 1] else m.stack[n - 2];
      var child := if parentFirst then m.stack[n - 2] else m.stack[n - 1];
      var tree :- Attach(parent, left, if collapse then IntoHash(child) else child);
      Some(m.(stack := m.stack[..n - 2] + [tree]))
  }

  function Step(m: Machine, op: MerkOp, collapse: bool): Option<Machine> {
    match op
    case Push(node) => PushNode(m, node, false)
    case PushInverted(node) => PushNode(m, node, true)
    case Parent => AttachChild(m, true, true, collapse)
    case Child => AttachChild(m, false, false, collapse)
    case ParentInverted => AttachChild(m, true, false, collapse)
    case ChildInverted => AttachChild(m, false, true, collapse)
  }

  function Run(m: Machine, ops: seq<MerkOp>, collapse: bool): Option<Machine>
    decreases |ops|
  {
    if ops == [] then Some(m)
    else
      var m' :- Step(m, ops[0], collapse);
      Run(m', ops[1..], collapse)
  }

  /** The one tree the operations leave, if they run and leave exactly one. */
  function Execute(ops: seq<MerkOp>, collapse: bool): Option<ProofTree> {
    var m :- Run(START, ops, collapse);
    if |m.stack| == 1 then Some(m.stack[0]) else None
  }

  /** The nodes the operations push, in push order. */
  function Pushed(ops: seq<MerkOp>): seq<MerkNode> {
    if ops == [] then []
    else if ops[0].Push? || ops[0].PushInverted? then [ops[0].node] + Pushed(ops[1..])
    else Pushed(ops[1..])
  }
}
