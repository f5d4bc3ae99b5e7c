/** The bytes GroveDB stores for an element, and that they are read back as it. */
module ElementCodec {
  import opened Bytes
  import opened BincodeReading
  import opened BincodeWriting
  import opened Element

  /** The seven ways a reference names its target. */
  datatype ReferencePath =
    | Absolute(path: seq<Bytes>)
    | UpstreamRootHeight(height: byte, path: seq<Bytes>)
    | UpstreamRootHeightWithParent(height: byte, path: seq<Bytes>)
    | UpstreamFromElementHeight(height: byte, path: seq<Bytes>)
    | Cousin(key: Bytes)
    | RemovedCousin(path: seq<Bytes>)
    | Sibling(key: Bytes)

  /** What reading keeps of it: the byte strings it carries. */
  function Collapsed(p: ReferencePath): seq<Bytes> {
    match p
    case Cousin(key) => [key]
    case Sibling(key) => [key]
    case _ => p.path
  }

  function PutReferencePath(p: ReferencePath, rest: Bytes): Bytes {
    match p
    case Absolute(path) => PutVarint(0, PutVecOfByteVec(path, rest))
    case UpstreamRootHeight(h, path) => PutVarint(1, PutTag(h, PutVecOfByteVec(path, rest)))
    case UpstreamRootHeightWithParent(h, path) => PutVarint(2, PutTag(h, PutVecOfByteVec(path, rest)))
    case UpstreamFromElementHeight(h, path) => PutVarint(3, PutTag(h, PutVecOfByteVec(path, rest)))
    case Cousin(key) => PutVarint(4, PutByteVec(key, rest))
    case RemovedCousin(path) => PutVarint(5, PutVecOfByteVec(path, rest))
    case Sibling(key) => PutVarint(6, PutByteVec(key, rest))
  }

  /** An element as stored: a reference with its path's form and its hop limit. */
  datatype StoredElement =
    | Plain(element: Element)
    | ReferenceTo(path: ReferencePath, maxHops: Option<byte>, flags: Option<Bytes>)

  function Read(e: StoredElement): Element {
    match e
    case Plain(element) => element
    case ReferenceTo(path, _, flags) => Reference(Collapsed(path), flags)
  }

  function PutElement(e: StoredElement, rest: Bytes): Bytes
    requires e.Plain? ==> !e.element.Reference?
  {
    match e
    case ReferenceTo(path, hops, flags) =>
      PutVarint(1, PutReferencePath(path, PutOptionU8(hops, PutOptionByteVec(flags, rest))))
    case Plain(Item(value, flags)) => PutVarint(0, PutByteVec(value, PutOptionByteVec(flags, rest)))
    case Plain(Tree(root, flags)) => PutVarint(2, PutOptionByteVec(root, PutOptionByteVec(flags, rest)))
    case Plain(SumItem(sum, flags)) => PutVarint(3, PutVarint(Zigzag(sum), PutOptionByteVec(flags, rest)))
    case Plain(SumTree(root, sum, flags)) =>
      PutVarint(4, PutOptionByteVec(root, PutVarint(Zigzag(sum), PutOptionByteVec(flags, rest))))
    case Plain(BigSumTree(root, sum, flags)) =>
      PutVarint(5, PutOptionByteVec(root, PutVarint(Zigzag(sum), PutOptionByteVec(flags, rest))))
    case Plain(CountTree(root, count, flags)) =>
      PutVarint(6, PutOptionByteVec(root, PutVarint(count, PutOptionByteVec(flags, rest))))
    case Plain(CountSumTree(root, count, sum, flags)) =>
      PutVarint(7, PutOptionByteVec(root, PutVarint(count, PutVarint(Zigzag(sum), PutOptionByteVec(flags, rest)))))
  }

  ghost predicate ValidPath(p: ReferencePath) {
    ShortVecs(Collapsed(p))
  }

  /** Its lengths and numbers fit the types GroveDB stores them in. */
  ghost predicate ValidElement(e: StoredElement) {
    match e
    case ReferenceTo(path, _, flags) => ValidPath(path) && ShortOption(flags)
    case Plain(Item(value, flags)) => |value| <= MAX_SAFE_INTEGER && ShortOption(flags)
    case Plain(Reference(_, _)) => false
    case Plain(Tree(root, flags)) => ShortOption(root) && ShortOption(flags)
    case Plain(SumItem(sum, flags)) => Zigzag(sum) <= U64_MAX && ShortOption(flags)
    case Plain(SumTree(root, sum, flags)) => ShortOption(root) && Zigzag(sum) <= U64_MAX && ShortOption(flags)
    case Plain(BigSumTree(root, sum, flags)) => ShortOption(root) && Zigzag(sum) <= U128_MAX && ShortOption(flags)
    case Plain(CountTree(root, count, flags)) => ShortOption(root) && count <= U64_MAX && ShortOption(flags)
    case Plain(CountSumTree(root, count, sum, flags)) =>
      ShortOption(root) && count <= U64_MAX && Zigzag(sum) <= U64_MAX && ShortOption(flags)
  }

  lemma VariantsRead()
    ensures forall v: nat, rest | v <= 7 :: ReadNumber(PutVarint(v, rest)) == Some((v, rest))
  {
    hide PutVarint, ReadNumber;
    forall v: nat, rest | v <= 7
      ensures ReadNumber(PutVarint(v, rest)) == Some((v, rest))
    {
      NumberReads(v);
    }
  }

  lemma ReferencePathReads(p: ReferencePath)
    requires ValidPath(p)
    ensures forall rest :: ReadReferencePath(PutReferencePath(p, rest)) == Some((Collapsed(p), rest))
  {
    hide PutVarint, ReadNumber, PutVecOfByteVec, ReadVecOfByteVec, PutByteVec, ReadByteVec, PutTag, ReadU8;
    VariantsRead();
    VecOfByteVecReads(Collapsed(p));
    match p {
      case UpstreamRootHeight(h, _) => TagReads(h);
      case UpstreamRootHeightWithParent(h, _) => TagReads(h);
      case UpstreamFromElementHeight(h, _) => TagReads(h);
      case Cousin(key) =>
        assert key in Collapsed(p);
        ByteVecReads(key);
      case Sibling(key) =>
        assert key in Collapsed(p);
        ByteVecReads(key);
      case _ =>
    }
  }

  /** The number fields of an element read back. */
  lemma NumbersRead(e: StoredElement)
    requires ValidElement(e) && e.Plain?
    ensures e.element.SumItem? || e.element.SumTree? || e.element.BigSumTree? || e.element.CountSumTree? ==>
              forall rest :: ReadSigned(PutVarint(Zigzag(e.element.sum), rest)) == Some((e.element.sum, rest))
    ensures e.element.CountTree? || e.element.CountSumTree? ==>
              forall rest :: ReadU64(PutVarint(e.element.count, rest)) == Some((e.element.count, rest))
  {
    hide PutVarint, ReadSigned, ReadU64, Zigzag;
    if e.element.SumItem? || e.element.SumTree? || e.element.BigSumTree? || e.element.CountSumTree? {
      SignedReads(e.element.sum);
    }
    if e.element.CountTree? || e.element.CountSumTree? {
      U64Reads(e.element.count);
    }
  }

  lemma ElementReads(e: StoredElement)
    requires ValidElement(e)
    ensures forall rest :: ReadElement(PutElement(e, rest)) == Some((Read(e), rest))
  {
    hide PutVarint, ReadNumber, ReadSigned, ReadU64, PutByteVec, ReadByteVec, PutOptionByteVec, ReadOptionByteVec,
         PutOptionU8, ReadOptionU8, PutReferencePath, ReadReferencePath, Zigzag;
    VariantsRead();
    match e
    case ReferenceTo(path, hops, flags) =>
      ReferencePathReads(path);
      OptionU8Reads(hops);
      OptionByteVecReads(flags);
    case Plain(element) =>
      NumbersRead(e);
      OptionByteVecReads(element.flags);
      if element.Item? {
        ByteVecReads(element.value);
      } else if !element.SumItem? {
        OptionByteVecReads(element.rootKey);
      }
  }

  /** An element's stored bytes deserialize to it, a reference with its collapsed path. */
  lemma ElementRoundTrip(e: StoredElement)
    requires ValidElement(e)
    ensures Deserialize(PutElement(e, [])) == Some(Read(e))
  {
    hide PutElement, ReadElement;
    ElementReads(e);
  }
}
