/** GroveDB elements and how their bytes are read. */
module Element {
  import opened Bytes
  import opened BincodeReading

  datatype Element =
    | Item(value: Bytes, flags: Option<Bytes>)
    | Reference(path: seq<Bytes>, flags: Option<Bytes>)
    | Tree(rootKey: Option<Bytes>, flags: Option<Bytes>)
    | SumItem(sum: int, flags: Option<Bytes>)
    | SumTree(rootKey: Option<Bytes>, sum: int, flags: Option<Bytes>)
    | BigSumTree(rootKey: Option<Bytes>, sum: int, flags: Option<Bytes>)
    | CountTree(rootKey: Option<Bytes>, count: nat, flags: Option<Bytes>)
    | CountSumTree(rootKey: Option<Bytes>, count: nat, sum: int, flags: Option<Bytes>)

  predicate IsTree(e: Element) {
    e.Tree? || e.SumTree? || e.BigSumTree? || e.CountTree? || e.CountSumTree?
  }

  predicate HasRootKey(e: Element) {
    match e
    case Tree(rootKey, _) => rootKey.Some?
    case SumTree(rootKey, _, _) => rootKey.Some?
    case BigSumTree(rootKey, _, _) => rootKey.Some?
    case CountTree(rootKey, _, _) => rootKey.Some?
    case CountSumTree(rootKey, _, _, _) => rootKey.Some?
    case _ => false
  }

  /** Every path variant as the byte strings it carries: the variant and its height are dropped. */
  function ReadReferencePath(s: Bytes): Reading<seq<Bytes>> {
    var (variant, rest) :- ReadNumber(s);
    if variant == 0 || variant == 5 then ReadVecOfByteVec(rest)
    else if variant == 1 || variant == 2 || variant == 3 then
      var (_, rest') :- ReadU8(rest);
      ReadVecOfByteVec(rest')
    else if variant == 4 || variant == 6 then
      var (p, rest') :- ReadByteVec(rest);
      Some(([p], rest'))
    else None
  }

  function ReadElement(s: Bytes): Reading<Element> {
    var (variant, s0) :- ReadNumber(s);
    match variant
    case 0 =>
      var (value, s1) :- ReadByteVec(s0);
      var (flags, s2) :- ReadOptionByteVec(s1);
      Some((Item(value, flags), s2))
    case 1 =>
      var (path, s1) :- ReadReferencePath(s0);
      var (_, s2) :- ReadOptionU8(s1);
      var (flags, s3) :- ReadOptionByteVec(s2);
      Some((Reference(path, flags), s3))
    case 2 =>
      var (rootKey, s1) :- ReadOptionByteVec(s0);
      var (flags, s2) :- ReadOptionByteVec(s1);
      Some((Tree(rootKey, flags), s2))
    case 3 =>
      var (sum, s1) :- ReadSigned(s0);
      var (flags, s2) :- ReadOptionByteVec(s1);
      Some((SumItem(sum, flags), s2))
    case 4 =>
      var (rootKey, s1) :- ReadOptionByteVec(s0);
      var (sum, s2) :- ReadSigned(s1);
      var (flags, s3) :- ReadOptionByteVec(s2);
      Some((SumTree(rootKey, sum, flags), s3))
    case 5 =>
      var (rootKey, s1) :- ReadOptionByteVec(s0);
      var (sum, s2) :- ReadSigned(s1);
      var (flags, s3) :- ReadOptionByteVec(s2);
      Some((BigSumTree(rootKey, sum, flags), s3))
    case 6 =>
      var (rootKey, s1) :- ReadOptionByteVec(s0);
      var (count, s2) :- ReadU64(s1);
      var (flags, s3) :- ReadOptionByteVec(s2);
      Some((CountTree(rootKey, count, flags), s3))
    case 7 =>
      var (rootKey, s1) :- ReadOptionByteVec(s0);
      var (count, s2) :- ReadU64(s1);
      var (sum, s3) :- ReadSigned(s2);
      var (flags, s4) :- ReadOptionByteVec(s3);
      Some((CountSumTree(rootKey, count, sum, flags), s4))
    case _ => None
  }

  /** The element the whole of `s` is, trailing bytes refused. */
  function Deserialize(s: Bytes): Option<Element> {
    var (e, rest) :- ReadElement(s);
    if rest == [] then Some(e) else None
  }

  /** `s` is read as a subtree, and one with a root key (that is, not empty) or without. */
  predicate TreeBytes(s: Bytes) {
    var e := Deserialize(s);
    e.Some? && IsTree(e.value)
  }

  predicate RootedTreeBytes(s: Bytes) {
    var e := Deserialize(s);
    e.Some? && HasRootKey(e.value)
  }
}
