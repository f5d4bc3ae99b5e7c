/** The bytes of merk proof operations: reading them (None where the decoder throws), writing them, and the round trip. */
module MerkFormat {
  import opened Bytes
  import opened Powers
  import opened Hash
  import opened ProofTree
  import opened Executor
  import opened BincodeReading
  import opened BincodeWriting

  const HASH_LENGTH: nat := 32

  /** A value this long or longer has the large operations' length. */
  const LARGE_VALUE_THRESHOLD: nat := 65536
  const MAX_VALUE_LEN: nat := 0x400_0000

  /** What 32 bytes stand for, and the bytes of a hash. */
  datatype Digests = Digests(hash: Bytes -> Hash, bytes: Hash -> Bytes)

  // ---------- LEB128 ----------

  /** A varint read from its `i`-th byte on, at most ten in all. */
  function ReadLebFrom(s: Bytes, i: nat): (r: Reading<nat>)
    ensures r.Some? ==> |r.value.1| <= |s|
    decreases |s|
  {
    if s == [] then None
    else if s[0] < 0x80 then Some((s[0] as nat, s[1..]))
    else if i >= 9 then None
    else
      var (high, rest) :- ReadLebFrom(s[1..], i + 1);
      Some((s[0] as nat - 0x80 + 0x80 * high, rest))
  }

  function ReadLeb(s: Bytes): (r: Reading<nat>)
    ensures r.Some? ==> |r.value.1| <= |s|
  {
    var (v, rest) :- ReadLebFrom(s, 0);
    if v <= U64_MAX then Some((v, rest)) else None
  }

  function PutLeb(v: nat, rest: Bytes): Bytes {
    if v < 0x80 then [v as byte] + rest else [(v % 0x80 + 0x80) as byte] + PutLeb(v / 0x80, rest)
  }

  lemma {:induction false} LebFromReads(v: nat, rest: Bytes, i: nat)
    requires i <= 9 && v < IntPow(0x80, 10 - i)
    ensures ReadLebFrom(PutLeb(v, rest), i) == Some((v, rest))
  {
    var all := PutLeb(v, rest);
    if v < 0x80 {
      assert all[1..] == rest;
    } else {
      assert all[1..] == PutLeb(v / 0x80, rest);
      assert IntPow(0x80, 1) == 0x80;
      assert IntPow(0x80, 10 - i) == 0x80 * IntPow(0x80, 9 - i);
      LebFromReads(v / 0x80, rest, i + 1);
    }
  }

  lemma TenSevens()
    ensures IntPow(0x80, 10) > U64_MAX
  {
    assert IntPow(0x80, 2) == 0x4000;
    assert IntPow(0x80, 4) == 0x1000_0000;
    IntPowAdd(0x80, 4, 4);
    IntPowAdd(0x80, 8, 2);
  }

  lemma LebReads(v: nat)
    requires v <= U64_MAX
    ensures forall rest :: ReadLeb(PutLeb(v, rest)) == Some((v, rest))
  {
    hide IntPow, PutLeb, ReadLebFrom;
    TenSevens();
    forall rest
      ensures ReadLeb(PutLeb(v, rest)) == Some((v, rest))
    {
      LebFromReads(v, rest, 0);
    }
  }

  // ---------- Parts of a node ----------

  function PutHash(h: Hash, d: Digests, rest: Bytes): Bytes {
    d.bytes(h) + rest
  }

  function ReadHash(s: Bytes, d: Digests): (r: Reading<Hash>)
    ensures r.Some? ==> |r.value.1| <= |s|
  {
    var (b, rest) :- Take(s, HASH_LENGTH);
    Some((d.hash(b), rest))
  }

  ghost predicate ValidHash(h: Hash, d: Digests) {
    |d.bytes(h)| == HASH_LENGTH && d.hash(d.bytes(h)) == h
  }

  lemma HashReads(h: Hash, d: Digests)
    requires ValidHash(h, d)
    ensures forall rest :: ReadHash(PutHash(h, d, rest), d) == Some((h, rest))
  {
    hide Take;
    TakeReads(d.bytes(h));
  }

  function PutKey(key: Bytes, rest: Bytes): Bytes {
    PutTag((|key| % 256) as byte, key + rest)
  }

  function ReadKey(s: Bytes): (r: Reading<Bytes>)
    ensures r.Some? ==> |r.value.1| <= |s|
  {
    var (n, rest) :- ReadU8(s);
    Take(rest, n as nat)
  }

  lemma KeyReads(key: Bytes)
    requires |key| < 256
    ensures forall rest :: ReadKey(PutKey(key, rest)) == Some((key, rest))
  {
    hide PutTag, ReadU8, Take;
    TagReads(|key| as byte);
    TakeReads(key);
  }

  function ReadBigEndian(s: Bytes, width: nat): (r: Reading<nat>)
    ensures r.Some? ==> |r.value.1| <= |s|
  {
    var (b, rest) :- Take(s, width);
    Some((BigEndian(b), rest))
  }

  function ReadValueLength(s: Bytes, large: bool): (r: Reading<nat>)
    ensures r.Some? ==> |r.value.1| <= |s|
  {
    if !large then ReadBigEndian(s, 2)
    else
      var (n, rest) :- ReadBigEndian(s, 4);
      if LARGE_VALUE_THRESHOLD <= n <= MAX_VALUE_LEN then Some((n, rest)) else None
  }

  function ReadValue(s: Bytes, large: bool): (r: Reading<Bytes>)
    ensures r.Some? ==> |r.value.1| <= |s|
  {
    var (n, rest) :- ReadValueLength(s, large);
    Take(rest, n)
  }

  predicate IsLarge(value: Bytes) {
    |value| >= LARGE_VALUE_THRESHOLD
  }

  function PutValue(value: Bytes, rest: Bytes): Bytes {
    BigEndianBytes(|value|, if IsLarge(value) then 4 else 2) + (value + rest)
  }

  lemma ValueReads(value: Bytes)
    requires |value| <= MAX_VALUE_LEN
    ensures forall rest :: ReadValue(PutValue(value, rest), IsLarge(value)) == Some((value, rest))
  {
    hide IntPow, BigEndian, BigEndianBytes, Take;
    Sizes();
    var width := if IsLarge(value) then 4 else 2;
    BigEndianReads(|value|, width);
    TakeReads(BigEndianBytes(|value|, width));
    TakeReads(value);
  }

  // ---------- Feature types ----------

  function LittleEndian(s: Bytes): nat {
    if s == [] then 0 else s[0] as nat + 256 * LittleEndian(s[1..])
  }

  function LittleEndianBytes(v: nat, width: nat): (b: Bytes)
    ensures |b| == width
  {
    if width == 0 then [] else [(v % 256) as byte] + LittleEndianBytes(v / 256, width - 1)
  }

  lemma {:induction false} LittleEndianReads(v: nat, width: nat)
    requires v < IntPow(256, width)
    ensures LittleEndian(LittleEndianBytes(v, width)) == v
    ensures width > 0 ==> (LittleEndianBytes(v, width)[width - 1] >= 0x80 <==> v >= 128 * IntPow(256, width - 1))
  {
    if width > 0 {
      var b := LittleEndianBytes(v, width);
      LittleEndianReads(v / 256, width - 1);
      assert b[1..] == LittleEndianBytes(v / 256, width - 1);
      if width > 1 {
        assert b[width - 1] == b[1..][width - 2];
        assert IntPow(256, width - 1) == 256 * IntPow(256, width - 2);
      } else {
        assert IntPow(256, 1) == 256 * IntPow(256, 0);
      }
    }
  }

  /** A two's complement i128. */
  function SignedOf(v: nat, high: byte): int {
    if high >= 0x80 then v - (U128_MAX + 1) else v
  }

  function ReadI128(s: Bytes): (r: Reading<int>)
    ensures r.Some? ==> |r.value.1| <= |s|
  {
    var (b, rest) :- Take(s, 16);
    Some((SignedOf(LittleEndian(b), b[15]), rest))
  }

  function PutI128(n: int, rest: Bytes): Bytes
    requires -(U128_MAX + 1) / 2 <= n <= U128_MAX / 2
  {
    LittleEndianBytes(if n >= 0 then n else n + (U128_MAX + 1), 16) + rest
  }

  lemma I128Reads(n: int)
    requires -(U128_MAX + 1) / 2 <= n <= U128_MAX / 2
    ensures forall rest :: ReadI128(PutI128(n, rest)) == Some((n, rest))
  {
    hide IntPow, LittleEndian, LittleEndianBytes, Take;
    var v: nat := if n >= 0 then n else n + (U128_MAX + 1);
    Sizes();
    LittleEndianReads(v, 16);
    HighByte();
    TakeReads(LittleEndianBytes(v, 16));
  }

  lemma HighByte()
    ensures 128 * IntPow(256, 15) == (U128_MAX + 1) / 2
  {
    Sizes();
    assert IntPow(256, 16) == 256 * IntPow(256, 15);
  }

  lemma TagsRead()
    ensures forall tag, rest :: ReadU8(PutTag(tag, rest)) == Some((tag, rest))
  {
    hide PutTag, ReadU8;
    forall tag, rest
      ensures ReadU8(PutTag(tag, rest)) == Some((tag, rest))
    {
      TagReads(tag);
    }
  }

  function ReadFeature(s: Bytes): (r: Reading<FeatureType>)
    ensures r.Some? ==> |r.value.1| <= |s|
  {
    var (code, rest) :- ReadU8(s);
    if code == 0 then Some((BasicMerkNode, rest))
    else if code == 1 then
      var (u, rest') :- ReadLeb(rest);
      Some((SummedMerkNode(Unzigzag(u)), rest'))
    else if code == 2 then
      var (sum, rest') :- ReadI128(rest);
      Some((BigSummedMerkNode(sum), rest'))
    else if code == 3 then
      var (count, rest') :- ReadLeb(rest);
      Some((CountedMerkNode(count), rest'))
    else if code == 4 then
      var (count, rest') :- ReadLeb(rest);
      var (u, rest'') :- ReadLeb(rest');
      Some((CountedSummedMerkNode(count, Unzigzag(u)), rest''))
    else None
  }

  ghost predicate ValidFeature(f: FeatureType) {
    match f
    case BasicMerkNode => true
    case SummedMerkNode(sum) => Zigzag(sum) <= U64_MAX
    case BigSummedMerkNode(sum) => -(U128_MAX + 1) / 2 <= sum <= U128_MAX / 2
    case CountedMerkNode(count) => count <= U64_MAX
    case CountedSummedMerkNode(count, sum) => count <= U64_MAX && Zigzag(sum) <= U64_MAX
  }

  ghost function PutFeature(f: FeatureType, rest: Bytes): Bytes
    requires ValidFeature(f)
  {
    match f
    case BasicMerkNode => PutTag(0, rest)
    case SummedMerkNode(sum) => PutTag(1, PutLeb(Zigzag(sum), rest))
    case BigSummedMerkNode(sum) => PutTag(2, PutI128(sum, rest))
    case CountedMerkNode(count) => PutTag(3, PutLeb(count, rest))
    case CountedSummedMerkNode(count, sum) => PutTag(4, PutLeb(count, PutLeb(Zigzag(sum), rest)))
  }

  lemma FeatureReads(f: FeatureType)
    requires ValidFeature(f)
    ensures forall rest :: ReadFeature(PutFeature(f, rest)) == Some((f, rest))
  {
    hide PutTag, ReadU8, PutLeb, ReadLeb, PutI128, ReadI128, Zigzag, Unzigzag;
    TagsRead();
    match f
    case BasicMerkNode =>
    case SummedMerkNode(sum) =>
      ZigzagReads(sum);
      LebReads(Zigzag(sum));
    case BigSummedMerkNode(sum) => I128Reads(sum);
    case CountedMerkNode(count) => LebReads(count);
    case CountedSummedMerkNode(count, sum) =>
      LebReads(count);
      ZigzagReads(sum);
      LebReads(Zigzag(sum));
  }

  // ---------- Operations ----------

  /** The nodes an operation code can push. */
  datatype NodeForm = HashForm | KVHashForm | KVForm | KVValueHashForm | KVDigestForm | KVRefValueHashForm | FeatureForm

  datatype Code = PushCode(form: NodeForm, inverted: bool, large: bool) | TreeCode(op: MerkOp) | UnknownCode

  function FormOf(code: int): NodeForm
    requires 1 <= code <= 7
  {
    if code == 1 then HashForm
    else if code == 2 then KVHashForm
    else if code == 3 then KVForm
    else if code == 4 then KVValueHashForm
    else if code == 5 then KVDigestForm
    else if code == 6 then KVRefValueHashForm
    else FeatureForm
  }

  /** The large codes: the forms that carry a value, in order. */
  function LargeForm(code: int): NodeForm
    requires 0 <= code <= 3
  {
    if code == 0 then KVForm
    else if code == 1 then KVValueHashForm
    else if code == 2 then KVRefValueHashForm
    else FeatureForm
  }

  function CodeOf(b: byte): Code {
    var c := b as int;
    if 0x01 <= c <= 0x07 then PushCode(FormOf(c), false, false)
    else if 0x08 <= c <= 0x0E then PushCode(FormOf(c - 7), true, false)
    else if c == 0x10 then TreeCode(Parent)
    else if c == 0x11 then TreeCode(Child)
    else if c == 0x12 then TreeCode(ParentInverted)
    else if c == 0x13 then TreeCode(ChildInverted)
    else if 0x20 <= c <= 0x23 then PushCode(LargeForm(c - 0x20), false, true)
    else if 0x28 <= c <= 0x2B then PushCode(LargeForm(c - 0x28), true, true)
    else UnknownCode
  }

  function ReadNode(s: Bytes, form: NodeForm, large: bool, d: Digests): Reading<MerkNode> {
    match form
    case HashForm =>
      var (h, rest) :- ReadHash(s, d);
      Some((HashNode(h), rest))
    case KVHashForm =>
      var (h, rest) :- ReadHash(s, d);
      Some((KVHashNode(h), rest))
    case KVDigestForm =>
      var (key, s1) :- ReadKey(s);
      var (h, rest) :- ReadHash(s1, d);
      Some((KVDigest(key, h), rest))
    case KVForm =>
      var (key, s1) :- ReadKey(s);
      var (value, rest) :- ReadValue(s1, large);
      Some((KV(key, value), rest))
    case KVValueHashForm =>
      var (key, s1) :- ReadKey(s);
      var (value, s2) :- ReadValue(s1, large);
      var (h, rest) :- ReadHash(s2, d);
      Some((KVValueHash(key, value, h), rest))
    case KVRefValueHashForm =>
      var (key, s1) :- ReadKey(s);
      var (value, s2) :- ReadValue(s1, large);
      var (h, rest) :- ReadHash(s2, d);
      Some((KVRefValueHash(key, value, h), rest))
    case FeatureForm =>
      var (key, s1) :- ReadKey(s);
      var (value, s2) :- ReadValue(s1, large);
      var (h, s3) :- ReadHash(s2, d);
      var (f, rest) :- ReadFeature(s3);
      Some((KVValueHashFeatureType(key, value, h, f), rest))
  }

  function ReadOp(s: Bytes, d: Digests): Reading<MerkOp> {
    var (b, rest) :- ReadU8(s);
    match CodeOf(b)
    case UnknownCode => None
    case TreeCode(op) => Some((op, rest))
    case PushCode(form, inverted, large) =>
      var (node, rest') :- ReadNode(rest, form, large, d);
      Some((if inverted then PushInverted(node) else Push(node), rest'))
  }

  lemma NodeShrinks(s: Bytes, form: NodeForm, large: bool, d: Digests)
    ensures ReadNode(s, form, large, d).Some? ==> |ReadNode(s, form, large, d).value.1| <= |s|
  {
    hide ReadHash, ReadKey, ReadValue, ReadFeature;
  }

  /** Every operation the bytes hold. */
  function ReadOps(s: Bytes, d: Digests): Option<seq<MerkOp>>
    decreases |s|
  {
    if s == [] then Some([])
    else
      var (op, rest) :- ReadOp(s, d);
      OpShrinks(s, d);
      var ops :- ReadOps(rest, d);
      Some([op] + ops)
  }

  lemma OpShrinks(s: Bytes, d: Digests)
    ensures ReadOp(s, d).Some? ==> |ReadOp(s, d).value.1| < |s|
  {
    hide ReadNode;
    if s != [] && CodeOf(s[0]).PushCode? {
      NodeShrinks(s[1..], CodeOf(s[0]).form, CodeOf(s[0]).large, d);
    }
  }

  // ---------- Writing ----------

  function CodeFor(node: MerkNode, inverted: bool): byte {
    var large := node.HasValue() && IsLarge(node.value);
    var small: byte :=
      match node
      case HashNode(_) => 1
      case KVHashNode(_) => 2
      case KV(_, _) => 3
      case KVValueHash(_, _, _) => 4
      case KVDigest(_, _) => 5
      case KVRefValueHash(_, _, _) => 6
      case KVValueHashFeatureType(_, _, _, _) => 7;
    if !large then (if inverted then small + 7 else small)
    else
      (if node.KV? then 0x20 else if node.KVValueHash? then 0x21 else if node.KVRefValueHash? then 0x22 else 0x23)
      + if inverted then 8 else 0
  }

  ghost predicate ValidNode(n: MerkNode, d: Digests) {
    && (n.HasKey() ==> |n.key| < 256) && (n.HasValue() ==> |n.value| <= MAX_VALUE_LEN)
    && match n
       case HashNode(h) => ValidHash(h, d)
       case KVHashNode(h) => ValidHash(h, d)
       case KV(_, _) => true
       case KVValueHash(_, _, h) => ValidHash(h, d)
       case KVDigest(_, h) => ValidHash(h, d)
       case KVRefValueHash(_, _, h) => ValidHash(h, d)
       case KVValueHashFeatureType(_, _, h, f) => ValidHash(h, d) && ValidFeature(f)
  }

  ghost function PutNode(n: MerkNode, d: Digests, rest: Bytes): Bytes
    requires ValidNode(n, d)
  {
    match n
    case HashNode(h) => PutHash(h, d, rest)
    case KVHashNode(h) => PutHash(h, d, rest)
    case KV(key, value) => PutKey(key, PutValue(value, rest))
    case KVValueHash(key, value, h) => PutKey(key, PutValue(value, PutHash(h, d, rest)))
    case KVDigest(key, h) => PutKey(key, PutHash(h, d, rest))
    case KVRefValueHash(key, value, h) => PutKey(key, PutValue(value, PutHash(h, d, rest)))
    case KVValueHashFeatureType(key, value, h, f) => PutKey(key, PutValue(value, PutHash(h, d, PutFeature(f, rest))))
  }

  ghost predicate ValidOp(op: MerkOp, d: Digests) {
    match op
    case Push(node) => ValidNode(node, d)
    case PushInverted(node) => ValidNode(node, d)
    case _ => true
  }

  ghost function PutOp(op: MerkOp, d: Digests, rest: Bytes): Bytes
    requires ValidOp(op, d)
  {
    match op
    case Push(node) => PutTag(CodeFor(node, false), PutNode(node, d, rest))
    case PushInverted(node) => PutTag(CodeFor(node, true), PutNode(node, d, rest))
    case Parent => PutTag(0x10, rest)
    case Child => PutTag(0x11, rest)
    case ParentInverted => PutTag(0x12, rest)
    case ChildInverted => PutTag(0x13, rest)
  }

  ghost function PutOps(ops: seq<MerkOp>, d: Digests): Bytes
    requires forall op <- ops :: ValidOp(op, d)
  {
    if ops == [] then [] else PutOp(ops[0], d, PutOps(ops[1..], d))
  }

  function FormFor(node: MerkNode): NodeForm {
    match node
    case HashNode(_) => HashForm
    case KVHashNode(_) => KVHashForm
    case KV(_, _) => KVForm
    case KVValueHash(_, _, _) => KVValueHashForm
    case KVDigest(_, _) => KVDigestForm
    case KVRefValueHash(_, _, _) => KVRefValueHashForm
    case KVValueHashFeatureType(_, _, _, _) => FeatureForm
  }

  lemma CodeTells(node: MerkNode, inverted: bool)
    ensures CodeOf(CodeFor(node, inverted)) == PushCode(FormFor(node), inverted, node.HasValue() && IsLarge(node.value))
  {
  }

  lemma NodeReads(n: MerkNode, d: Digests)
    requires ValidNode(n, d)
    ensures forall rest ::
              ReadNode(PutNode(n, d, rest), FormFor(n), n.HasValue() && IsLarge(n.value), d) == Some((n, rest))
  {
    hide PutKey, ReadKey, PutValue, ReadValue, PutHash, ReadHash, PutFeature, ReadFeature, ValidHash, ValidFeature, IsLarge;
    if n.HasKey() {
      KeyReads(n.key);
    }
    if n.HasValue() {
      ValueReads(n.value);
    }
    match n
    case HashNode(h) => HashReads(h, d);
    case KVHashNode(h) => HashReads(h, d);
    case KV(_, _) =>
    case KVValueHash(_, _, h) => HashReads(h, d);
    case KVDigest(_, h) => HashReads(h, d);
    case KVRefValueHash(_, _, h) => HashReads(h, d);
    case KVValueHashFeatureType(_, _, h, f) =>
      HashReads(h, d);
      FeatureReads(f);
  }

  lemma OpReads(op: MerkOp, d: Digests)
    requires ValidOp(op, d)
    ensures forall rest :: ReadOp(PutOp(op, d, rest), d) == Some((op, rest))
  {
    hide PutTag, ReadU8, PutNode, ReadNode, CodeFor;
    TagsRead();
    if op.Push? || op.PushInverted? {
      CodeTells(op.node, op.PushInverted?);
      NodeReads(op.node, d);
    }
  }

  /** The bytes of any operations, of whatever kind and length, read back as those operations. */
  lemma {:induction false} OpsRoundTrip(ops: seq<MerkOp>, d: Digests)
    requires forall op <- ops :: ValidOp(op, d)
    ensures ReadOps(PutOps(ops, d), d) == Some(ops)
  {
    hide PutOp, ReadOp;
    if ops != [] {
      assert ops[0] in ops;
      OpReads(ops[0], d);
      OpsRoundTrip(ops[1..], d);
      OpHasBytes(ops[0], d, PutOps(ops[1..], d));
      assert ops == [ops[0]] + ops[1..];
    }
  }

  lemma OpHasBytes(op: MerkOp, d: Digests, rest: Bytes)
    requires ValidOp(op, d)
    ensures PutOp(op, d, rest) != []
  {
    hide PutNode, CodeFor;
  }
}
