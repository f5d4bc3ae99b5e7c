/**
  The bincode of a RegisterSubgrove body. `PutX(x, rest)` is the encoding of `x` followed by
  `rest`; `ReadX` reads one back and gives what is left; None where the bytes are no encoding.
*/
module SubgroveBincode {
  import opened Bytes
  import opened Text
  import opened Powers
  import opened SubgroveWire
  import SortKeys
  import Utf8

  type Reading<T> = Option<(T, Bytes)>

  // ---------- Integers and bytes ----------

  function LittleEndian(v: nat, width: nat): (b: Bytes)
    ensures |b| == width
  {
    if width == 0 then [] else [(v % 256) as byte] + LittleEndian(v / 256, width - 1)
  }

  function ReadInt(s: Bytes, width: nat): Reading<nat> {
    if width == 0 then Some((0, s))
    else if s == [] then None
    else
      var (high, rest) :- ReadInt(s[1..], width - 1);
      Some((s[0] as nat + 256 * high, rest))
  }

  lemma {:induction false} IntReads(v: nat, width: nat, rest: Bytes)
    requires v < IntPow(256, width)
    ensures ReadInt(LittleEndian(v, width) + rest, width) == Some((v, rest))
  {
    var all := LittleEndian(v, width) + rest;
    if width == 0 {
      assert all == rest;
    } else {
      assert all[1..] == LittleEndian(v / 256, width - 1) + rest;
      IntReads(v / 256, width - 1, rest);
    }
  }

  lemma Widths()
    ensures IntPow(256, 1) == 0x100 && IntPow(256, 4) == 0x1_0000_0000
    ensures IntPow(256, 8) == 0x1_0000_0000_0000_0000
    ensures IntPow(256, 16) == 0x1_0000_0000_0000_0000_0000_0000_0000_0000
  {
    assert IntPow(256, 2) == 0x1_0000;
    IntPowAdd(256, 2, 2);
    IntPowAdd(256, 4, 4);
    IntPowAdd(256, 8, 8);
  }

  function PutU8(v: nat, rest: Bytes): Bytes {
    LittleEndian(v, 1) + rest
  }

  function PutU32(v: nat, rest: Bytes): Bytes {
    LittleEndian(v, 4) + rest
  }

  function PutU64(v: nat, rest: Bytes): Bytes {
    LittleEndian(v, 8) + rest
  }

  function PutU128(v: nat, rest: Bytes): Bytes {
    LittleEndian(v, 16) + rest
  }

  function ReadU8(s: Bytes): Reading<nat> {
    ReadInt(s, 1)
  }

  function ReadU32(s: Bytes): Reading<nat> {
    ReadInt(s, 4)
  }

  function ReadU64(s: Bytes): Reading<nat> {
    ReadInt(s, 8)
  }

  function ReadU128(s: Bytes): Reading<nat> {
    ReadInt(s, 16)
  }

  lemma U8Reads(v: nat)
    requires IsU8(v)
    ensures forall rest :: ReadU8(PutU8(v, rest)) == Some((v, rest))
  {
    forall rest
      ensures ReadU8(PutU8(v, rest)) == Some((v, rest))
    {
      Widths();
      IntReads(v, 1, rest);
    }
  }

  lemma U32Reads(v: nat)
    requires IsU32(v)
    ensures forall rest :: ReadU32(PutU32(v, rest)) == Some((v, rest))
  {
    hide IntPow;
    forall rest
      ensures ReadU32(PutU32(v, rest)) == Some((v, rest))
    {
      Widths();
      IntReads(v, 4, rest);
    }
  }

  lemma U64Reads(v: nat)
    requires IsU64(v)
    ensures forall rest :: ReadU64(PutU64(v, rest)) == Some((v, rest))
  {
    hide IntPow;
    forall rest
      ensures ReadU64(PutU64(v, rest)) == Some((v, rest))
    {
      Widths();
      IntReads(v, 8, rest);
    }
  }

  lemma U128Reads(v: nat)
    requires IsU128(v)
    ensures forall rest :: ReadU128(PutU128(v, rest)) == Some((v, rest))
  {
    hide IntPow;
    forall rest
      ensures ReadU128(PutU128(v, rest)) == Some((v, rest))
    {
      Widths();
      IntReads(v, 16, rest);
    }
  }

  function PutBool(b: bool, rest: Bytes): Bytes {
    PutU8(if b then 1 else 0, rest)
  }

  function ReadBool(s: Bytes): Reading<bool> {
    var (v, rest) :- ReadU8(s);
    if v > 1 then None else Some((v == 1, rest))
  }

  lemma BoolReads(b: bool)
    ensures forall rest :: ReadBool(PutBool(b, rest)) == Some((b, rest))
  {
    hide PutU8, ReadU8;
    U8Reads(if b then 1 else 0);
  }

  /** A fixed number of bytes, without their length. */
  function ReadRaw(s: Bytes, count: nat): Reading<Bytes> {
    if count <= |s| then Some((s[..count], s[count..])) else None
  }

  function PutRaw(b: Bytes, rest: Bytes): Bytes {
    b + rest
  }

  lemma RawReads(b: Bytes)
    ensures forall rest :: ReadRaw(PutRaw(b, rest), |b|) == Some((b, rest))
  {
    forall rest
      ensures ReadRaw(PutRaw(b, rest), |b|) == Some((b, rest))
    {
      assert (b + rest)[..|b|] == b && (b + rest)[|b|..] == rest;
    }
  }

  function PutBytes(b: Bytes, rest: Bytes): Bytes {
    PutU64(|b|, PutRaw(b, rest))
  }

  function ReadBytes(s: Bytes): Reading<Bytes> {
    var (n, rest) :- ReadU64(s);
    ReadRaw(rest, n)
  }

  lemma BytesRead(b: Bytes)
    requires IsBlob(b)
    ensures forall rest :: ReadBytes(PutBytes(b, rest)) == Some((b, rest))
  {
    hide PutU64, ReadU64, PutRaw, ReadRaw;
    U64Reads(|b|);
    RawReads(b);
  }

  // ---------- Strings, options, lists ----------

  lemma EncodingTellsTexts(a: Text, b: Text)
    requires Utf8.Encode(a) == Utf8.Encode(b)
    ensures a == b
  {
    SortKeys.StringsTotal(a, b);
    Utf8.PointOrderIsByteOrder(Utf8.Points(a), Utf8.Points(b));
    Utf8.PointOrderIsByteOrder(Utf8.Points(b), Utf8.Points(a));
    LessIrreflexive(Utf8.Encode(a));
  }

  ghost predicate Decodes(b: Bytes, t: Text) {
    Utf8.Encode(t) == b
  }

  /** The one text whose bytes these are. */
  ghost function DecodeText(b: Bytes): Option<Text> {
    if exists t :: Decodes(b, t) then
      var t :| Decodes(b, t);
      Some(t)
    else None
  }

  function PutString(t: Text, rest: Bytes): Bytes {
    PutBytes(Utf8.Encode(t), rest)
  }

  ghost function ReadString(s: Bytes): Reading<Text> {
    var (b, rest) :- ReadBytes(s);
    var t :- DecodeText(b);
    Some((t, rest))
  }

  lemma StringReads(t: Text)
    requires IsString(t)
    ensures forall rest :: ReadString(PutString(t, rest)) == Some((t, rest))
  {
    hide PutBytes, ReadBytes, Utf8.Encode;
    var b := Utf8.Encode(t);
    BytesRead(b);
    assert Decodes(b, t);
    EncodingTellsTexts(t, DecodeText(b).value);
  }

  function PutOption<T>(v: Option<T>, put: (T, Bytes) -> Bytes, rest: Bytes): Bytes {
    if v.None? then PutU8(0, rest) else PutU8(1, put(v.value, rest))
  }

  ghost function ReadOption<T>(s: Bytes, read: Bytes -> Reading<T>): Reading<Option<T>> {
    var (tag, s1) :- ReadU8(s);
    if tag == 0 then Some((None, s1))
    else if tag == 1 then
      var (v, s2) :- read(s1);
      Some((Some(v), s2))
    else None
  }

  lemma OptionReads<T>(v: Option<T>, put: (T, Bytes) -> Bytes, read: Bytes -> Reading<T>)
    requires v.Some? ==> forall rest :: read(put(v.value, rest)) == Some((v.value, rest))
    ensures forall rest :: ReadOption(PutOption(v, put, rest), read) == Some((v, rest))
  {
    hide PutU8, ReadU8;
    U8Reads(0);
    U8Reads(1);
  }

  function PutEach<T>(xs: seq<T>, put: (T, Bytes) -> Bytes, rest: Bytes): Bytes {
    if xs == [] then rest else put(xs[0], PutEach(xs[1..], put, rest))
  }

  ghost function ReadEach<T>(s: Bytes, count: nat, read: Bytes -> Reading<T>): Reading<seq<T>>
    decreases count
  {
    if count == 0 then Some(([], s))
    else
      var (x, s1) :- read(s);
      var (xs, s2) :- ReadEach(s1, count - 1, read);
      Some(([x] + xs, s2))
  }

  lemma {:induction false} EachReads<T>(xs: seq<T>, put: (T, Bytes) -> Bytes, read: Bytes -> Reading<T>, rest: Bytes)
    requires forall x, r | x in xs :: read(put(x, r)) == Some((x, r))
    ensures ReadEach(PutEach(xs, put, rest), |xs|, read) == Some((xs, rest))
  {
    if xs != [] {
      EachReads(xs[1..], put, read, rest);
      assert xs == [xs[0]] + xs[1..] && xs[0] in xs;
    }
  }

  function PutList<T>(xs: seq<T>, put: (T, Bytes) -> Bytes, rest: Bytes): Bytes {
    PutU64(|xs|, PutEach(xs, put, rest))
  }

  ghost function ReadList<T>(s: Bytes, read: Bytes -> Reading<T>): Reading<seq<T>> {
    var (n, s1) :- ReadU64(s);
    ReadEach(s1, n, read)
  }

  lemma ListReads<T>(xs: seq<T>, put: (T, Bytes) -> Bytes, read: Bytes -> Reading<T>)
    requires IsU64(|xs|) && forall x, rest | x in xs :: read(put(x, rest)) == Some((x, rest))
    ensures forall rest :: ReadList(PutList(xs, put, rest), read) == Some((xs, rest))
  {
    hide PutU64, ReadU64, PutEach, ReadEach;
    U64Reads(|xs|);
    forall rest
      ensures ReadEach(PutEach(xs, put, rest), |xs|, read) == Some((xs, rest))
    {
      EachReads(xs, put, read, rest);
    }
  }

  function PutStrings(ts: seq<Text>, rest: Bytes): Bytes {
    PutList(ts, PutString, rest)
  }

  ghost function ReadStrings(s: Bytes): Reading<seq<Text>> {
    ReadList(s, ReadString)
  }

  lemma StringsRead(ts: seq<Text>)
    requires AreStrings(ts)
    ensures forall rest :: ReadStrings(PutStrings(ts, rest)) == Some((ts, rest))
  {
    hide PutString, ReadString, PutList, ReadList;
    forall t, rest | t in ts
      ensures ReadString(PutString(t, rest)) == Some((t, rest))
    {
      StringReads(t);
    }
    ListReads(ts, PutString, ReadString);
  }

  // ---------- Enums ----------

  function TeeIndex(t: Tee): nat {
    match t
    case AwsNitro => 0
    case IntelSgx => 1
    case AmdSev => 2
  }

  function PutTee(t: Tee, rest: Bytes): Bytes {
    PutU32(TeeIndex(t), rest)
  }

  function ReadTee(s: Bytes): Reading<Tee> {
    var (i, rest) :- ReadU32(s);
    if i == 0 then Some((AwsNitro, rest))
    else if i == 1 then Some((IntelSgx, rest))
    else if i == 2 then Some((AmdSev, rest))
    else None
  }

  lemma TeeReads(t: Tee)
    ensures forall rest :: ReadTee(PutTee(t, rest)) == Some((t, rest))
  {
    hide PutU32, ReadU32;
    U32Reads(TeeIndex(t));
  }

  function PutFrequency(f: Frequency, rest: Bytes): Bytes {
    match f
    case EveryUpdate => PutU32(0, rest)
    case EveryNBlocks(n) => PutU32(1, PutU64(n, rest))
    case EveryNSeconds(n) => PutU32(2, PutU64(n, rest))
    case Never => PutU32(3, rest)
  }

  function ReadFrequency(s: Bytes): Reading<Frequency> {
    var (i, s1) :- ReadU32(s);
    if i == 0 then Some((EveryUpdate, s1))
    else if i == 1 then
      var (n, s2) :- ReadU64(s1);
      Some((EveryNBlocks(n), s2))
    else if i == 2 then
      var (n, s2) :- ReadU64(s1);
      Some((EveryNSeconds(n), s2))
    else if i == 3 then Some((Never, s1))
    else None
  }

  function PutRetention(w: Retention, rest: Bytes): Bytes {
    match w
    case Blocks(n) => PutU32(0, PutU64(n, rest))
    case Seconds(n) => PutU32(1, PutU64(n, rest))
    case Indefinite => PutU32(2, rest)
    case VerifyOnly => PutU32(3, rest)
  }

  function ReadRetention(s: Bytes): Reading<Retention> {
    var (i, s1) :- ReadU32(s);
    if i == 0 then
      var (n, s2) :- ReadU64(s1);
      Some((Blocks(n), s2))
    else if i == 1 then
      var (n, s2) :- ReadU64(s1);
      Some((Seconds(n), s2))
    else if i == 2 then Some((Indefinite, s1))
    else if i == 3 then Some((VerifyOnly, s1))
    else None
  }

  function PutExecution(e: Execution, rest: Bytes): Bytes {
    match e
    case ConsensusExecution => PutU32(0, rest)
    case IndexerExecution(rate) => PutU32(1, PutU8(rate, rest))
    case TeeExecution(tee) => PutU32(2, PutTee(tee, rest))
  }

  function ReadExecution(s: Bytes): Reading<Execution> {
    var (i, s1) :- ReadU32(s);
    if i == 0 then Some((ConsensusExecution, s1))
    else if i == 1 then
      var (rate, s2) :- ReadU8(s1);
      Some((IndexerExecution(rate), s2))
    else if i == 2 then
      var (tee, s2) :- ReadTee(s1);
      Some((TeeExecution(tee), s2))
    else None
  }

  function PutAuthMode(m: AuthMode, rest: Bytes): Bytes {
    PutU32(if m.BftEquivalent? then 0 else 1, rest)
  }

  function ReadAuthMode(s: Bytes): Reading<AuthMode> {
    var (i, rest) :- ReadU32(s);
    if i == 0 then Some((BftEquivalent, rest)) else if i == 1 then Some((CanonizedAccumulator, rest)) else None
  }

  lemma VariantsRead(f: Frequency, w: Retention, e: Execution, m: AuthMode)
    requires FitsFrequency(f) && FitsRetention(w) && FitsExecution(e)
    ensures forall rest :: ReadFrequency(PutFrequency(f, rest)) == Some((f, rest))
    ensures forall rest :: ReadRetention(PutRetention(w, rest)) == Some((w, rest))
    ensures forall rest :: ReadExecution(PutExecution(e, rest)) == Some((e, rest))
    ensures forall rest :: ReadAuthMode(PutAuthMode(m, rest)) == Some((m, rest))
  {
    hide PutU8, ReadU8, PutU32, ReadU32, PutU64, ReadU64, PutTee, ReadTee;
    U32Reads(0);
    U32Reads(1);
    U32Reads(2);
    U32Reads(3);
    U64Reads(if f.EveryNBlocks? then f.blocks else if f.EveryNSeconds? then f.seconds else 0);
    U64Reads(if w.Blocks? then w.blocks else if w.Seconds? then w.seconds else 0);
    U8Reads(if e.IndexerExecution? then e.samplingRatePercent else 0);
    TeeReads(if e.TeeExecution? then e.tee else AwsNitro);
  }

  // ---------- Structs ----------

  function PutPricing(p: ReadPricing, rest: Bytes): Bytes {
    PutBool(p.enabled, PutU128(p.pricePerQuery, PutU32(p.ownerRevenueShareBps, rest)))
  }

  function ReadPricingOf(s: Bytes): Reading<ReadPricing> {
    var (enabled, s1) :- ReadBool(s);
    var (price, s2) :- ReadU128(s1);
    var (share, s3) :- ReadU32(s2);
    Some((ReadPricing(enabled, price, share), s3))
  }

  lemma PricingReads(p: ReadPricing)
    requires FitsPricing(p)
    ensures forall rest :: ReadPricingOf(PutPricing(p, rest)) == Some((p, rest))
  {
    hide PutBool, ReadBool, PutU128, ReadU128, PutU32, ReadU32;
    BoolReads(p.enabled);
    U128Reads(p.pricePerQuery);
    U32Reads(p.ownerRevenueShareBps);
  }

  function PutGrant(g: KeyGrant, rest: Bytes): Bytes {
    PutString(g.granteeDid,
      PutU32(g.keyEpoch,
        PutString(g.granteePublicKeyId,
          PutBytes(g.ephemeralPublicKey,
            PutBytes(g.encryptedKey,
              PutString(g.grantedBy,
                PutU64(g.grantedAt, rest)))))))
  }

  ghost function ReadGrant(s: Bytes): Reading<KeyGrant> {
    var (grantee, s1) :- ReadString(s);
    var (epoch, s2) :- ReadU32(s1);
    var (key, s3) :- ReadString(s2);
    var (ephemeral, s4) :- ReadBytes(s3);
    var (encrypted, s5) :- ReadBytes(s4);
    var (granter, s6) :- ReadString(s5);
    var (at, s7) :- ReadU64(s6);
    Some((KeyGrant(grantee, epoch, key, ephemeral, encrypted, granter, at), s7))
  }

  lemma GrantReads(g: KeyGrant)
    requires ValidGrant(g)
    ensures forall rest :: ReadGrant(PutGrant(g, rest)) == Some((g, rest))
  {
    hide PutString, ReadString, PutU32, ReadU32, PutBytes, ReadBytes, PutU64, ReadU64;
    StringReads(g.granteeDid);
    U32Reads(g.keyEpoch);
    StringReads(g.granteePublicKeyId);
    BytesRead(g.ephemeralPublicKey);
    BytesRead(g.encryptedKey);
    StringReads(g.grantedBy);
    U64Reads(g.grantedAt);
  }

  function PutModule(m: WasmModule, rest: Bytes): Bytes {
    PutString(m.name, PutRaw(m.hash, PutBytes(m.content, rest)))
  }

  ghost function ReadModule(s: Bytes): Reading<WasmModule> {
    var (name, s1) :- ReadString(s);
    var (hash, s2) :- ReadRaw(s1, 32);
    var (content, s3) :- ReadBytes(s2);
    Some((WasmModule(name, hash, content), s3))
  }

  lemma ModuleReads(m: WasmModule)
    requires ValidModule(m)
    ensures forall rest :: ReadModule(PutModule(m, rest)) == Some((m, rest))
  {
    hide PutString, ReadString, PutRaw, ReadRaw, PutBytes, ReadBytes;
    StringReads(m.name);
    RawReads(m.hash);
    BytesRead(m.content);
  }

  function PutIndexer(c: IndexerConfig, rest: Bytes): Bytes {
    PutU8(c.minIndexers,
      PutU8(c.maxIndexers, PutU128(c.rewardPerEpoch, PutU64(c.epochLength, PutU128(c.minIndexerStake, rest)))))
  }

  function ReadIndexer(s: Bytes): Reading<IndexerConfig> {
    var (low, s1) :- ReadU8(s);
    var (high, s2) :- ReadU8(s1);
    var (reward, s3) :- ReadU128(s2);
    var (length, s4) :- ReadU64(s3);
    var (stake, s5) :- ReadU128(s4);
    Some((IndexerConfig(low, high, reward, length, stake), s5))
  }

  lemma IndexerReads(c: IndexerConfig)
    requires FitsIndexer(c)
    ensures forall rest :: ReadIndexer(PutIndexer(c, rest)) == Some((c, rest))
  {
    hide PutU8, ReadU8, PutU64, ReadU64, PutU128, ReadU128;
    U8Reads(c.minIndexers);
    U8Reads(c.maxIndexers);
    U128Reads(c.rewardPerEpoch);
    U64Reads(c.epochLength);
    U128Reads(c.minIndexerStake);
  }

  /** Four u32 values, without their number. */
  function PutConfigHash(h: seq<nat>, rest: Bytes): Bytes {
    PutEach(h, PutU32, rest)
  }

  ghost function ReadConfigHash(s: Bytes): Reading<seq<nat>> {
    ReadEach(s, 4, ReadU32)
  }

  lemma ConfigHashReads(h: seq<nat>)
    requires FitsConfigHash(h) && |h| == 4
    ensures forall rest :: ReadConfigHash(PutConfigHash(h, rest)) == Some((h, rest))
  {
    hide PutU32, ReadU32, PutEach, ReadEach;
    forall x, r | x in h
      ensures ReadU32(PutU32(x, r)) == Some((x, r))
    {
      U32Reads(x);
    }
    forall rest
      ensures ReadConfigHash(PutConfigHash(h, rest)) == Some((h, rest))
    {
      EachReads(h, PutU32, ReadU32, rest);
    }
  }

  function PutCompleteness(c: Completeness, rest: Bytes): Bytes {
    PutConfigHash(c.logConfigHash, PutConfigHash(c.txConfigHash, PutBool(c.deferred, PutU128(c.bondAmount, rest))))
  }

  ghost function ReadCompleteness(s: Bytes): Reading<Completeness> {
    var (log, s1) :- ReadConfigHash(s);
    var (tx, s2) :- ReadConfigHash(s1);
    var (deferred, s3) :- ReadBool(s2);
    var (bond, s4) :- ReadU128(s3);
    Some((Completeness(log, tx, deferred, bond), s4))
  }

  lemma CompletenessReads(c: Completeness)
    requires ValidCompleteness(c)
    ensures forall rest :: ReadCompleteness(PutCompleteness(c, rest)) == Some((c, rest))
  {
    hide PutConfigHash, ReadConfigHash, PutBool, ReadBool, PutU128, ReadU128;
    ConfigHashReads(c.logConfigHash);
    ConfigHashReads(c.txConfigHash);
    BoolReads(c.deferred);
    U128Reads(c.bondAmount);
  }

  // ---------- Modes ----------

  function PutDataStorage(m: Mode, rest: Bytes): Bytes
    requires m.DataStorage?
  {
    PutString(m.name,
      PutStrings(m.writers, PutStrings(m.freeReaders, PutOption(m.readPricing, PutPricing, rest))))
  }

  ghost function ReadDataStorage(s: Bytes): Reading<Mode> {
    var (name, s1) :- ReadString(s);
    var (writers, s2) :- ReadStrings(s1);
    var (readers, s3) :- ReadStrings(s2);
    var (pricing, s4) :- ReadOption(s3, ReadPricingOf);
    Some((DataStorage(name, writers, readers, pricing), s4))
  }

  function PutFileStorage(m: Mode, rest: Bytes): Bytes
    requires m.FileStorage?
  {
    PutString(m.name,
      PutU64(m.maxFileSize,
        PutU8(m.replicationFactor,
          PutStrings(m.writers,
            PutStrings(m.freeReaders,
              PutOption(m.readPricing, PutPricing,
                PutU64(m.retentionPeriod, rest)))))))
  }

  ghost function ReadFileStorage(s: Bytes): Reading<Mode> {
    var (name, s1) :- ReadString(s);
    var (size, s2) :- ReadU64(s1);
    var (factor, s3) :- ReadU8(s2);
    var (writers, s4) :- ReadStrings(s3);
    var (readers, s5) :- ReadStrings(s4);
    var (pricing, s6) :- ReadOption(s5, ReadPricingOf);
    var (period, s7) :- ReadU64(s6);
    Some((FileStorage(name, size, factor, writers, readers, pricing, period), s7))
  }

  function PutIndexing(m: Mode, rest: Bytes): Bytes
    requires m.BlockchainIndexing?
  {
    PutBytes(m.manifestContent,
      PutList(m.wasmModules, PutModule,
        PutExecution(m.executionMode,
          PutIndexer(m.indexerConfig,
            PutRetention(m.retentionWindow,
              PutOption(m.completeness, PutCompleteness,
                PutAuthMode(m.historicalAuthMode, rest)))))))
  }

  ghost function ReadIndexing(s: Bytes): Reading<Mode> {
    var (manifest, s1) :- ReadBytes(s);
    var (modules, s2) :- ReadList(s1, ReadModule);
    var (execution, s3) :- ReadExecution(s2);
    var (indexer, s4) :- ReadIndexer(s3);
    var (retention, s5) :- ReadRetention(s4);
    var (completeness, s6) :- ReadOption(s5, ReadCompleteness);
    var (auth, s7) :- ReadAuthMode(s6);
    Some((BlockchainIndexing(manifest, modules, execution, indexer, retention, completeness, auth), s7))
  }

  function PutMode(m: Mode, rest: Bytes): Bytes {
    match m
    case DataStorage(_, _, _, _) => PutU32(0, PutDataStorage(m, rest))
    case FileStorage(_, _, _, _, _, _, _) => PutU32(1, PutFileStorage(m, rest))
    case BlockchainIndexing(_, _, _, _, _, _, _) => PutU32(2, PutIndexing(m, rest))
  }

  ghost function ReadMode(s: Bytes): Reading<Mode> {
    var (i, s1) :- ReadU32(s);
    if i == 0 then ReadDataStorage(s1)
    else if i == 1 then ReadFileStorage(s1)
    else if i == 2 then ReadIndexing(s1)
    else None
  }

  lemma PricingOptionReads(p: Option<ReadPricing>)
    requires p.Some? ==> FitsPricing(p.value)
    ensures forall rest :: ReadOption(PutOption(p, PutPricing, rest), ReadPricingOf) == Some((p, rest))
  {
    hide PutPricing, ReadPricingOf, PutOption, ReadOption;
    if p.Some? {
      PricingReads(p.value);
    }
    OptionReads(p, PutPricing, ReadPricingOf);
  }

  lemma DataStorageReads(m: Mode)
    requires m.DataStorage? && ValidMode(m)
    ensures forall rest :: ReadDataStorage(PutDataStorage(m, rest)) == Some((m, rest))
  {
    hide PutString, ReadString, PutStrings, ReadStrings, PutOption, ReadOption;
    StringReads(m.name);
    StringsRead(m.writers);
    StringsRead(m.freeReaders);
    PricingOptionReads(m.readPricing);
  }

  lemma FileStorageReads(m: Mode)
    requires m.FileStorage? && ValidMode(m)
    ensures forall rest :: ReadFileStorage(PutFileStorage(m, rest)) == Some((m, rest))
  {
    hide PutString, ReadString, PutStrings, ReadStrings, PutOption, ReadOption, PutU64, ReadU64, PutU8, ReadU8;
    StringReads(m.name);
    U64Reads(m.maxFileSize);
    U8Reads(m.replicationFactor);
    StringsRead(m.writers);
    StringsRead(m.freeReaders);
    PricingOptionReads(m.readPricing);
    U64Reads(m.retentionPeriod);
  }

  lemma ModulesRead(ms: seq<WasmModule>)
    requires IsU64(|ms|) && forall m <- ms :: ValidModule(m)
    ensures forall rest :: ReadList(PutList(ms, PutModule, rest), ReadModule) == Some((ms, rest))
  {
    hide PutModule, ReadModule, PutList, ReadList;
    forall m, rest | m in ms
      ensures ReadModule(PutModule(m, rest)) == Some((m, rest))
    {
      ModuleReads(m);
    }
    ListReads(ms, PutModule, ReadModule);
  }

  lemma CompletenessOptionReads(c: Option<Completeness>)
    requires c.Some? ==> ValidCompleteness(c.value)
    ensures forall rest :: ReadOption(PutOption(c, PutCompleteness, rest), ReadCompleteness) == Some((c, rest))
  {
    hide PutCompleteness, ReadCompleteness, PutOption, ReadOption;
    if c.Some? {
      CompletenessReads(c.value);
    }
    OptionReads(c, PutCompleteness, ReadCompleteness);
  }

  lemma IndexingReads(m: Mode)
    requires m.BlockchainIndexing? && ValidMode(m)
    ensures forall rest :: ReadIndexing(PutIndexing(m, rest)) == Some((m, rest))
  {
    hide PutBytes, ReadBytes, PutList, ReadList, PutExecution, ReadExecution, PutIndexer, ReadIndexer, PutRetention,
         ReadRetention, PutOption, ReadOption, PutAuthMode, ReadAuthMode;
    BytesRead(m.manifestContent);
    ModulesRead(m.wasmModules);
    VariantsRead(Never, m.retentionWindow, m.executionMode, m.historicalAuthMode);
    IndexerReads(m.indexerConfig);
    CompletenessOptionReads(m.completeness);
  }

  lemma ModeReads(m: Mode)
    requires ValidMode(m)
    ensures forall rest :: ReadMode(PutMode(m, rest)) == Some((m, rest))
  {
    hide PutU32, ReadU32, PutDataStorage, ReadDataStorage, PutFileStorage, ReadFileStorage, PutIndexing, ReadIndexing,
         ValidMode;
    U32Reads(0);
    U32Reads(1);
    U32Reads(2);
    match m
    case DataStorage(_, _, _, _) => DataStorageReads(m);
    case FileStorage(_, _, _, _, _, _, _) => FileStorageReads(m);
    case BlockchainIndexing(_, _, _, _, _, _, _) => IndexingReads(m);
  }

  // ---------- The body ----------

  function PutPrivacy(p: Privacy, rest: Bytes): Bytes {
    PutOption(p.allowedIndexers, PutStrings, PutFrequency(p.commitmentFrequency, rest))
  }

  ghost function ReadPrivacy(s: Bytes): Reading<Privacy> {
    var (indexers, s1) :- ReadOption(s, ReadStrings);
    var (frequency, s2) :- ReadFrequency(s1);
    Some((Privacy(indexers, frequency), s2))
  }

  lemma PrivacyReads(p: Privacy)
    requires ValidPrivacy(p)
    ensures forall rest :: ReadPrivacy(PutPrivacy(p, rest)) == Some((p, rest))
  {
    hide PutStrings, ReadStrings, PutOption, ReadOption, PutFrequency, ReadFrequency, AreStrings;
    if p.allowedIndexers.Some? {
      StringsRead(p.allowedIndexers.value);
    }
    OptionReads(p.allowedIndexers, PutStrings, ReadStrings);
    VariantsRead(p.commitmentFrequency, Indefinite, ConsensusExecution, BftEquivalent);
  }

  function PutTemplate(c: TemplateConfig, rest: Bytes): Bytes {
    PutString(c.templateId,
      PutU32(c.templateVersion,
        PutString(c.variantId,
          PutBytes(c.parameters,
            PutStrings(c.contracts,
              PutStrings(c.eventSignatures,
                PutOption(c.chain, PutString, rest)))))))
  }

  ghost function ReadTemplate(s: Bytes): Reading<TemplateConfig> {
    var (id, s1) :- ReadString(s);
    var (version, s2) :- ReadU32(s1);
    var (variant, s3) :- ReadString(s2);
    var (parameters, s4) :- ReadBytes(s3);
    var (contracts, s5) :- ReadStrings(s4);
    var (signatures, s6) :- ReadStrings(s5);
    var (chain, s7) :- ReadOption(s6, ReadString);
    Some((TemplateConfig(id, version, variant, parameters, contracts, signatures, chain), s7))
  }

  lemma TemplateReads(c: TemplateConfig)
    requires ValidTemplate(c)
    ensures forall rest :: ReadTemplate(PutTemplate(c, rest)) == Some((c, rest))
  {
    hide PutString, ReadString, PutU32, ReadU32, PutBytes, ReadBytes, PutStrings, ReadStrings, PutOption, ReadOption;
    StringReads(c.templateId);
    U32Reads(c.templateVersion);
    StringReads(c.variantId);
    BytesRead(c.parameters);
    StringsRead(c.contracts);
    StringsRead(c.eventSignatures);
    if c.chain.Some? {
      StringReads(c.chain.value);
    }
    OptionReads(c.chain, PutString, ReadString);
  }

  /** From the confirmation depth on, the signature empty. */
  function PutTail(t: RegisterSubgrove, rest: Bytes): Bytes {
    PutU32(t.confirmationDepth,
      PutBytes([],
        PutString(t.publicKeyId, PutU64(t.nonce, PutBool(t.cryptographicCompleteness, rest)))))
  }

  /** From the privacy settings on. */
  function PutSettings(t: RegisterSubgrove, rest: Bytes): Bytes {
    PutOption(t.privacy, PutPrivacy,
      PutOption(t.initialOwnerKeyGrant, PutGrant, PutOption(t.templateConfig, PutTemplate, PutTail(t, rest))))
  }

  /** From the administrators on. */
  function PutDetails(t: RegisterSubgrove, rest: Bytes): Bytes {
    PutStrings(t.admins,
      PutOption(t.initialFunding, PutU128,
        PutOption(t.requiredTee, PutTee, PutMode(t.mode, PutSettings(t, rest)))))
  }

  function PutBody(t: RegisterSubgrove, rest: Bytes): Bytes {
    PutString(t.subgroveId,
      PutString(t.name,
        PutString(t.description, PutString(t.schema, PutString(t.ownerDid, PutDetails(t, rest))))))
  }

  /** The bytes a `Config` line hashes. */
  function Encode(t: RegisterSubgrove): Bytes {
    PutBody(t, [])
  }

  ghost function ReadTail(s: Bytes): Reading<(nat, Text, nat, bool)> {
    var (depth, s1) :- ReadU32(s);
    var (signature, s2) :- ReadBytes(s1);
    var (key, s3) :- ReadString(s2);
    var (nonce, s4) :- ReadU64(s3);
    var (complete, s5) :- ReadBool(s4);
    Some(((depth, key, nonce, complete), s5))
  }

  ghost function ReadSettings(s: Bytes)
    : Reading<(Option<Privacy>, Option<KeyGrant>, Option<TemplateConfig>, (nat, Text, nat, bool))>
  {
    var (privacy, s1) :- ReadOption(s, ReadPrivacy);
    var (grant, s2) :- ReadOption(s1, ReadGrant);
    var (template, s3) :- ReadOption(s2, ReadTemplate);
    var (tail, s4) :- ReadTail(s3);
    Some(((privacy, grant, template, tail), s4))
  }

  ghost function ReadBody(s: Bytes): Reading<RegisterSubgrove> {
    var (id, s1) :- ReadString(s);
    var (name, s2) :- ReadString(s1);
    var (description, s3) :- ReadString(s2);
    var (schema, s4) :- ReadString(s3);
    var (owner, s5) :- ReadString(s4);
    var (admins, s6) :- ReadStrings(s5);
    var (funding, s7) :- ReadOption(s6, ReadU128);
    var (tee, s8) :- ReadOption(s7, ReadTee);
    var (mode, s9) :- ReadMode(s8);
    var ((privacy, grant, template, tail), s10) :- ReadSettings(s9);
    Some((RegisterSubgrove(
            id, name, description, schema, owner, admins, funding, tee, mode, privacy, grant, template,
            tail.0, tail.1, tail.2, tail.3), s10))
  }

  lemma TailReads(t: RegisterSubgrove)
    requires ValidBody(t)
    ensures forall rest :: ReadTail(PutTail(t, rest)) ==
                           Some(((t.confirmationDepth, t.publicKeyId, t.nonce, t.cryptographicCompleteness), rest))
  {
    hide PutU32, ReadU32, PutBytes, ReadBytes, PutString, ReadString, PutU64, ReadU64, PutBool, ReadBool;
    U32Reads(t.confirmationDepth);
    BytesRead([]);
    StringReads(t.publicKeyId);
    U64Reads(t.nonce);
    BoolReads(t.cryptographicCompleteness);
  }

  lemma SettingsRead(t: RegisterSubgrove)
    requires ValidBody(t)
    ensures forall rest :: ReadSettings(PutSettings(t, rest)) ==
                           Some(((t.privacy, t.initialOwnerKeyGrant, t.templateConfig,
                                  (t.confirmationDepth, t.publicKeyId, t.nonce, t.cryptographicCompleteness)), rest))
  {
    hide PutTail, ReadTail, PutOption, ReadOption, PutPrivacy, ReadPrivacy, PutGrant, ReadGrant, PutTemplate, ReadTemplate,
         ValidPrivacy, ValidGrant, ValidTemplate, ValidMode;
    if t.privacy.Some? {
      PrivacyReads(t.privacy.value);
    }
    OptionReads(t.privacy, PutPrivacy, ReadPrivacy);
    if t.initialOwnerKeyGrant.Some? {
      GrantReads(t.initialOwnerKeyGrant.value);
    }
    OptionReads(t.initialOwnerKeyGrant, PutGrant, ReadGrant);
    if t.templateConfig.Some? {
      TemplateReads(t.templateConfig.value);
    }
    OptionReads(t.templateConfig, PutTemplate, ReadTemplate);
    TailReads(t);
  }

  lemma SmallOptionsRead(funding: Option<nat>, tee: Option<Tee>)
    requires funding.Some? ==> IsU128(funding.value)
    ensures forall rest :: ReadOption(PutOption(funding, PutU128, rest), ReadU128) == Some((funding, rest))
    ensures forall rest :: ReadOption(PutOption(tee, PutTee, rest), ReadTee) == Some((tee, rest))
  {
    hide PutU128, ReadU128, PutTee, ReadTee, PutOption, ReadOption;
    if funding.Some? {
      U128Reads(funding.value);
    }
    OptionReads(funding, PutU128, ReadU128);
    if tee.Some? {
      TeeReads(tee.value);
    }
    OptionReads(tee, PutTee, ReadTee);
  }

  /** Reading the encoding gives every field back, with what follows it left over. */
  lemma BodyReads(t: RegisterSubgrove)
    requires ValidBody(t)
    ensures forall rest :: ReadBody(PutBody(t, rest)) == Some((t, rest))
  {
    hide PutString, ReadString, PutStrings, ReadStrings, PutOption, ReadOption, PutMode, ReadMode, PutSettings, ReadSettings,
         ValidPrivacy, ValidGrant, ValidTemplate, ValidMode;
    StringReads(t.subgroveId);
    StringReads(t.name);
    StringReads(t.description);
    StringReads(t.schema);
    StringReads(t.ownerDid);
    StringsRead(t.admins);
    SmallOptionsRead(t.initialFunding, t.requiredTee);
    ModeReads(t.mode);
    SettingsRead(t);
  }

  /** Different bodies have different encodings, and none is the start of another's. */
  lemma EncodingsAreDistinct(a: RegisterSubgrove, b: RegisterSubgrove, more: Bytes)
    requires ValidBody(a) && ValidBody(b) && PutBody(a, []) == PutBody(b, more)
    ensures a == b && more == []
  {
    hide PutBody, ReadBody, ValidBody;
    BodyReads(a);
    BodyReads(b);
  }
}
