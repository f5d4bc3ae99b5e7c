/** A GroveDB proof's bytes: reading its nested layers, and that what is written reads back. */
module ProofDecoding {
  import opened Bytes
  import opened Executor
  import opened BincodeReading
  import opened BincodeWriting
  import opened BincodeReader
  import opened MerkFormat
  import opened LayerVerifier

  const MAX_LAYER_DEPTH: nat := 64

  /** A layer as decoded: its merk proof's bytes and the layers under its keys. */
  datatype RawLayer = RawLayer(merkProof: Bytes, lower: map<Bytes, RawLayer>)

  datatype RawProof = RawProof(root: RawLayer, decreaseLimit: bool)

  lemma VecShrinks(s: Bytes)
    ensures ReadByteVec(s).Some? ==> |ReadByteVec(s).value.1| < |s|
    ensures ReadNumber(s).Some? ==> |ReadNumber(s).value.1| < |s|
  {
    hide BigEndian;
  }

  function ReadLayer(s: Bytes, depth: nat): (r: Reading<RawLayer>)
    ensures r.Some? ==> |r.value.1| <= |s|
    decreases |s|, 1
  {
    if depth > MAX_LAYER_DEPTH then None
    else
      var (merkProof, s1) :- ReadByteVec(s);
      var (count, s2) :- ReadNumber(s1);
      VecShrinks(s);
      VecShrinks(s1);
      var (lower, s3) :- ReadLower(s2, count, depth, map[]);
      Some((RawLayer(merkProof, lower), s3))
  }

  /** A layer's `count` keys and layers from here on; a key given again replaces its layer. */
  function ReadLower(s: Bytes, count: nat, depth: nat, before: map<Bytes, RawLayer>): (r: Reading<map<Bytes, RawLayer>>)
    ensures r.Some? ==> |r.value.1| <= |s|
    decreases |s|, 0
  {
    if count == 0 then Some((before, s))
    else
      var (key, s1) :- ReadByteVec(s);
      VecShrinks(s);
      var (layer, s2) :- ReadLayer(s1, depth + 1);
      ReadLower(s2, count - 1, depth, before[key := layer])
  }

  /** The proof the whole of `s` is. */
  function DecodeProof(s: Bytes): Option<RawProof> {
    var (variant, s1) :- ReadNumber(s);
    if variant != 0 then None
    else
      var (root, s2) :- ReadLayer(s1, 0);
      var (option, s3) :- ReadBool(s2);
      if s3 == [] then Some(RawProof(root, option)) else None
  }

  // ---------- The decoder as it runs ----------

  method DecodeLayerProof(reader: Reader, depth: nat) returns (r: Option<RawLayer>)
    requires reader.Valid() && depth <= MAX_LAYER_DEPTH + 1
    modifies reader
    ensures reader.Valid() && Follows(ReadLayer(old(reader.Unread()), depth), r, reader.Unread())
    decreases MAX_LAYER_DEPTH + 1 - depth
  {
    hide ReadByteVec, ReadNumber;
    if depth > MAX_LAYER_DEPTH {
      return None;
    }
    var merkProof := reader.ByteVec();
    if merkProof.None? {
      return None;
    }
    var count := reader.Number();
    if count.None? {
      return None;
    }
    ghost var start := reader.Unread();
    var lower: map<Bytes, RawLayer> := map[];
    var i := 0;
    while i < count.value
      invariant reader.Valid() && 0 <= i <= count.value
      invariant ReadLower(start, count.value, depth, map[]) == ReadLower(reader.Unread(), count.value - i, depth, lower)
    {
      var key := reader.ByteVec();
      if key.None? {
        return None;
      }
      var layer := DecodeLayerProof(reader, depth + 1);
      if layer.None? {
        return None;
      }
      lower := lower[key.value := layer.value];
      i := i + 1;
    }
    return Some(RawLayer(merkProof.value, lower));
  }

  method DecodeGroveDBProof(bytes: Bytes) returns (r: Option<RawProof>)
    ensures r == DecodeProof(bytes)
  {
    hide ReadNumber, ReadLayer, ReadBool;
    var reader := new Reader(bytes);
    var variant := reader.Number();
    if variant.None? || variant.value != 0 {
      return None;
    }
    var root := DecodeLayerProof(reader, 0);
    if root.None? {
      return None;
    }
    var option := reader.Bool();
    if option.None? {
      return None;
    }
    var more := reader.HasMore();
    return if more then None else Some(RawProof(root.value, option.value));
  }

  // ---------- The proof the verifier runs on ----------

  /** A layer with its merk proof decoded, and so those below it; None when one does not decode. */
  function Interpret(raw: RawLayer, d: Digests): Option<LayerProof> {
    var ops :- ReadOps(raw.merkProof, d);
    if exists k <- raw.lower.Keys :: Interpret(raw.lower[k], d).None? then None
    else Some(LayerProof(ops, map k | k in raw.lower :: Interpret(raw.lower[k], d).value))
  }

  function ProofOf(bytes: Bytes, d: Digests): Option<GroveProof> {
    var raw :- DecodeProof(bytes);
    var root :- Interpret(raw.root, d);
    Some(GroveProof(0, root, raw.decreaseLimit))
  }

  // ---------- Writing ----------

  /** A layer to write: its operations, and keys and layers in the order they are written. */
  datatype Written = Written(ops: seq<MerkOp>, lower: seq<Below>)

  datatype Below = Below(key: Bytes, layer: Written)

  /** How many layers there are below this one, on the longest way down. */
  function Depth(w: Written): nat
    decreases w, 1
  {
    if w.lower == [] then 0 else 1 + Deepest(w.lower)
  }

  function Deepest(bs: seq<Below>): nat
    decreases bs, 0
  {
    if bs == [] then 0
    else
      var (first, rest) := (Depth(bs[0].layer), Deepest(bs[1..]));
      if first > rest then first else rest
  }

  ghost predicate ValidWritten(w: Written, d: Digests) {
    && (forall op <- w.ops :: ValidOp(op, d)) && |PutOps(w.ops, d)| <= MAX_SAFE_INTEGER
    && |w.lower| <= MAX_SAFE_INTEGER
    && forall b <- w.lower :: |b.key| <= MAX_SAFE_INTEGER && ValidWritten(b.layer, d)
  }

  ghost function PutLayer(w: Written, d: Digests, rest: Bytes): Bytes
    requires ValidWritten(w, d)
    decreases w, 1
  {
    PutByteVec(PutOps(w.ops, d), PutVarint(|w.lower|, PutLower(w.lower, d, rest)))
  }

  ghost function PutLower(bs: seq<Below>, d: Digests, rest: Bytes): Bytes
    requires forall b <- bs :: ValidWritten(b.layer, d)
    decreases bs, 0
  {
    if bs == [] then rest else PutByteVec(bs[0].key, PutLayer(bs[0].layer, d, PutLower(bs[1..], d, rest)))
  }

  ghost function PutProof(w: Written, decreaseLimit: bool, d: Digests): Bytes
    requires ValidWritten(w, d)
  {
    PutVarint(0, PutLayer(w, d, PutTag(if decreaseLimit then 1 else 0, [])))
  }

  /** What reading a written layer gives. */
  ghost function RawOf(w: Written, d: Digests): RawLayer
    requires ValidWritten(w, d)
    decreases w, 1
  {
    RawLayer(PutOps(w.ops, d), RawLower(w.lower, d, map[]))
  }

  ghost function RawLower(bs: seq<Below>, d: Digests, before: map<Bytes, RawLayer>): map<Bytes, RawLayer>
    requires forall b <- bs :: ValidWritten(b.layer, d)
    decreases bs, 0
  {
    if bs == [] then before else RawLower(bs[1..], d, before[bs[0].key := RawOf(bs[0].layer, d)])
  }

  /** The layer a written one stands for. */
  function LayerFor(w: Written): LayerProof
    decreases w, 1
  {
    LayerProof(w.ops, LowerFor(w.lower, map[]))
  }

  function LowerFor(bs: seq<Below>, before: map<Bytes, LayerProof>): map<Bytes, LayerProof>
    decreases bs, 0
  {
    if bs == [] then before else LowerFor(bs[1..], before[bs[0].key := LayerFor(bs[0].layer)])
  }

  /** A written layer reads back, unless it is nested too deep: then it is refused. */
  lemma {:induction false} LayerReads(w: Written, depth: nat, d: Digests, rest: Bytes)
    requires ValidWritten(w, d) && depth <= MAX_LAYER_DEPTH + 1
    ensures ReadLayer(PutLayer(w, d, rest), depth) ==
            if depth + Depth(w) <= MAX_LAYER_DEPTH then Some((RawOf(w, d), rest)) else None
    decreases w, 1
  {
    hide PutByteVec, ReadByteVec, PutVarint, ReadNumber, PutLower, ReadLower, RawLower, Deepest, PutOps, ValidOp;
    if depth <= MAX_LAYER_DEPTH {
      ByteVecReads(PutOps(w.ops, d));
      NumberReads(|w.lower|);
      LowerReads(w.lower, depth, map[], d, rest);
    }
  }

  lemma {:induction false} LowerReads(
    bs: seq<Below>, depth: nat, before: map<Bytes, RawLayer>, d: Digests, rest: Bytes)
    requires forall b <- bs :: |b.key| <= MAX_SAFE_INTEGER && ValidWritten(b.layer, d)
    requires depth <= MAX_LAYER_DEPTH
    ensures ReadLower(PutLower(bs, d, rest), |bs|, depth, before) ==
            if bs == [] || depth + 1 + Deepest(bs) <= MAX_LAYER_DEPTH then Some((RawLower(bs, d, before), rest)) else None
    decreases bs, 0
  {
    hide PutByteVec, ReadByteVec, PutLayer, ReadLayer, RawOf, Depth, ValidWritten;
    if bs != [] {
      assert bs[0] in bs;
      var more := PutLower(bs[1..], d, rest);
      ByteVecReads(bs[0].key);
      LayerReads(bs[0].layer, depth + 1, d, more);
      LowerReads(bs[1..], depth, before[bs[0].key := RawOf(bs[0].layer, d)], d, rest);
    }
  }

  lemma {:induction false} InterpretWritten(w: Written, d: Digests)
    requires ValidWritten(w, d)
    ensures Interpret(RawOf(w, d), d) == Some(LayerFor(w))
    decreases w, 1
  {
    hide ReadOps, PutOps, RawLower, LowerFor, ValidOp;
    OpsRoundTrip(w.ops, d);
    InterpretLower(w.lower, d, map[], map[]);
    var raw := RawOf(w, d);
    assert raw.lower == RawLower(w.lower, d, map[]);
    assert forall k <- raw.lower.Keys :: Interpret(raw.lower[k], d).Some?;
    var result := Interpret(raw, d);
    assert result.Some? && result.value.ops == w.ops;
    assert result.value.lowerLayers.Keys == raw.lower.Keys;
    assert result.value.lowerLayers == LowerFor(w.lower, map[]);
  }

  ghost predicate Interprets(raw: map<Bytes, RawLayer>, layers: map<Bytes, LayerProof>, d: Digests) {
    raw.Keys == layers.Keys && forall k <- raw.Keys :: Interpret(raw[k], d) == Some(layers[k])
  }

  lemma {:induction false} InterpretLower(
    bs: seq<Below>, d: Digests, raw: map<Bytes, RawLayer>, layers: map<Bytes, LayerProof>)
    requires (forall b <- bs :: ValidWritten(b.layer, d)) && Interprets(raw, layers, d)
    ensures Interprets(RawLower(bs, d, raw), LowerFor(bs, layers), d)
    decreases bs, 0
  {
    hide Interpret, RawOf, LayerFor, ValidWritten;
    if bs != [] {
      assert bs[0] in bs;
      InterpretWritten(bs[0].layer, d);
      InterpretLower(
        bs[1..], d, raw[bs[0].key := RawOf(bs[0].layer, d)], layers[bs[0].key := LayerFor(bs[0].layer)]);
    }
  }

  /** A written proof is read back as the proof the verifier runs on, exactly when it is nested at most 64 deep. */
  lemma ProofRoundTrip(w: Written, decreaseLimit: bool, d: Digests)
    requires ValidWritten(w, d)
    ensures ProofOf(PutProof(w, decreaseLimit, d), d) ==
            if Depth(w) <= MAX_LAYER_DEPTH then Some(GroveProof(0, LayerFor(w), decreaseLimit)) else None
  {
    hide PutVarint, ReadNumber, PutLayer, ReadLayer, PutTag, ReadU8, RawOf, LayerFor, Interpret, ValidWritten, Depth;
    var tag: byte := if decreaseLimit then 1 else 0;
    NumberReads(0);
    LayerReads(w, 0, d, PutTag(tag, []));
    TagReads(tag);
    InterpretWritten(w, d);
  }
}
