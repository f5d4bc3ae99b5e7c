/** Merk proof nodes, and the partial tree a proof builds of them. */
module ProofTree {
  import opened Bytes
  import opened Hash

  datatype FeatureType =
    | BasicMerkNode
    | SummedMerkNode(sum: int)
    | BigSummedMerkNode(sum: int)
    | CountedMerkNode(count: nat)
    | CountedSummedMerkNode(count: nat, sum: int)

  datatype MerkNode =
    | HashNode(hash: Hash)
    | KVHashNode(kvHash: Hash)
    | KV(key: Bytes, value: Bytes)
    | KVValueHash(key: Bytes, value: Bytes, valueHash: Hash)
    | KVDigest(key: Bytes, valueHash: Hash)
    | KVRefValueHash(key: Bytes, value: Bytes, valueHash: Hash)
    | KVValueHashFeatureType(key: Bytes, value: Bytes, valueHash: Hash, featureType: FeatureType)
  {
    predicate HasKey() {
      !HashNode? && !KVHashNode?
    }

    predicate HasValue() {
      KV? || KVValueHash? || KVRefValueHash? || KVValueHashFeatureType?
    }

    /** The hash of the node's value as the tree commits to it. */
    function CommittedValueHash(): Hash
      requires HasKey()
    {
      match this
      case KV(_, value) => ValueHash(value)
      case KVRefValueHash(_, value, valueHash) => Combined(valueHash, ValueHash(value))
      case KVValueHash(_, _, h) => h
      case KVDigest(_, h) => h
      case KVValueHashFeatureType(_, _, h, _) => h
    }

    /** The hash of the node's key and value. */
    function KvPart(): Hash
      requires !HashNode?
    {
      if KVHashNode? then kvHash else KvHash(key, CommittedValueHash())
    }
  }

  /** `Nil` is an absent child. */
  datatype ProofTree = Nil | Node(node: MerkNode, left: ProofTree, right: ProofTree)

  function Single(node: MerkNode): ProofTree {
    Node(node, Nil, Nil)
  }

  function RootHash(t: ProofTree): Hash {
    match t
    case Nil => Null
    case Node(HashNode(h), _, _) => h
    case Node(n, l, r) => NodeHash(n.KvPart(), RootHash(l), RootHash(r))
  }

  /** The nodes of the tree, left to right. */
  function InOrder(t: ProofTree): seq<MerkNode> {
    match t
    case Nil => []
    case Node(n, l, r) => InOrder(l) + [n] + InOrder(r)
  }

  /** No pruned subtree has children (its hash would not cover them). */
  ghost predicate HashesAreLeaves(t: ProofTree) {
    match t
    case Nil => true
    case Node(n, l, r) =>
      (n.HashNode? ==> l == Nil && r == Nil) && HashesAreLeaves(l) && HashesAreLeaves(r)
  }
}
