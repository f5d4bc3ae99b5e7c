/** The body of a RegisterSubgrove transaction, as the SDK sends it and the chain decodes it. */
module SubgroveWire {
  import opened Bytes
  import opened Text
  import Utf8

  datatype Tee = AwsNitro | IntelSgx | AmdSev

  datatype Frequency = EveryUpdate | EveryNBlocks(blocks: nat) | EveryNSeconds(seconds: nat) | Never

  datatype Retention = Blocks(blocks: nat) | Seconds(seconds: nat) | Indefinite | VerifyOnly

  datatype Execution = ConsensusExecution | IndexerExecution(samplingRatePercent: nat) | TeeExecution(tee: Tee)

  datatype AuthMode = BftEquivalent | CanonizedAccumulator

  datatype ReadPricing = ReadPricing(enabled: bool, pricePerQuery: nat, ownerRevenueShareBps: nat)

  datatype KeyGrant = KeyGrant(
    granteeDid: Text, keyEpoch: nat, granteePublicKeyId: Text, ephemeralPublicKey: Bytes, encryptedKey: Bytes,
    grantedBy: Text, grantedAt: nat)

  datatype WasmModule = WasmModule(name: Text, hash: Bytes, content: Bytes)

  datatype IndexerConfig = IndexerConfig(
    minIndexers: nat, maxIndexers: nat, rewardPerEpoch: nat, epochLength: nat, minIndexerStake: nat)

  /** Each hash is four u32 values. */
  datatype Completeness = Completeness(
    logConfigHash: seq<nat>, txConfigHash: seq<nat>, deferred: bool, bondAmount: nat)

  datatype Mode =
    | DataStorage(name: Text, writers: seq<Text>, freeReaders: seq<Text>, readPricing: Option<ReadPricing>)
    | FileStorage(
        name: Text, maxFileSize: nat, replicationFactor: nat, writers: seq<Text>, freeReaders: seq<Text>,
        readPricing: Option<ReadPricing>, retentionPeriod: nat)
    | BlockchainIndexing(
        manifestContent: Bytes, wasmModules: seq<WasmModule>, executionMode: Execution, indexerConfig: IndexerConfig,
        retentionWindow: Retention, completeness: Option<Completeness>, historicalAuthMode: AuthMode)

  datatype Privacy = Privacy(allowedIndexers: Option<seq<Text>>, commitmentFrequency: Frequency)

  datatype TemplateConfig = TemplateConfig(
    templateId: Text, templateVersion: nat, variantId: Text, parameters: Bytes, contracts: seq<Text>,
    eventSignatures: seq<Text>, chain: Option<Text>)

  /** Every field but the signature, which the encoding leaves empty. */
  datatype RegisterSubgrove = RegisterSubgrove(
    subgroveId: Text, name: Text, description: Text, schema: Text, ownerDid: Text, admins: seq<Text>,
    initialFunding: Option<nat>, requiredTee: Option<Tee>, mode: Mode, privacy: Option<Privacy>,
    initialOwnerKeyGrant: Option<KeyGrant>, templateConfig: Option<TemplateConfig>, confirmationDepth: nat,
    publicKeyId: Text, nonce: nat, cryptographicCompleteness: bool)

  // ---------- What the encoder takes ----------

  predicate IsU8(v: int) {
    0 <= v < 0x100
  }

  predicate IsU32(v: int) {
    0 <= v < 0x1_0000_0000
  }

  predicate IsU64(v: int) {
    0 <= v < 0x1_0000_0000_0000_0000
  }

  predicate IsU128(v: int) {
    0 <= v < 0x1_0000_0000_0000_0000_0000_0000_0000_0000
  }

  /** A byte count a u64 holds. */
  predicate IsBlob(b: Bytes) {
    IsU64(|b|)
  }

  predicate FitsText(t: Text) {
    IsBlob(Utf8.Encode(t))
  }

  predicate FitsTexts(ts: seq<Text>) {
    IsU64(|ts|) && forall i | 0 <= i < |ts| :: FitsText(ts[i])
  }

  predicate FitsOption<T>(v: Option<T>, fits: T -> bool) {
    v.Some? ==> fits(v.value)
  }

  predicate FitsPricing(p: ReadPricing) {
    IsU128(p.pricePerQuery) && IsU32(p.ownerRevenueShareBps)
  }

  predicate FitsGrant(g: KeyGrant) {
    && FitsText(g.granteeDid) && IsU32(g.keyEpoch) && FitsText(g.granteePublicKeyId)
    && IsBlob(g.ephemeralPublicKey) && IsBlob(g.encryptedKey) && FitsText(g.grantedBy) && IsU64(g.grantedAt)
  }

  predicate FitsModule(m: WasmModule) {
    FitsText(m.name) && IsBlob(m.content)
  }

  predicate FitsModules(ms: seq<WasmModule>) {
    IsU64(|ms|) && forall i | 0 <= i < |ms| :: FitsModule(ms[i])
  }

  predicate FitsExecution(e: Execution) {
    e.IndexerExecution? ==> IsU8(e.samplingRatePercent)
  }

  predicate FitsIndexer(c: IndexerConfig) {
    && IsU8(c.minIndexers) && IsU8(c.maxIndexers) && IsU128(c.rewardPerEpoch) && IsU64(c.epochLength)
    && IsU128(c.minIndexerStake)
  }

  predicate FitsRetention(w: Retention) {
    (w.Blocks? ==> IsU64(w.blocks)) && (w.Seconds? ==> IsU64(w.seconds))
  }

  predicate FitsConfigHash(h: seq<nat>) {
    forall i | 0 <= i < |h| :: IsU32(h[i])
  }

  predicate FitsCompleteness(c: Completeness) {
    FitsConfigHash(c.logConfigHash) && FitsConfigHash(c.txConfigHash) && IsU128(c.bondAmount)
  }

  predicate FitsMode(m: Mode) {
    match m
    case DataStorage(name, writers, freeReaders, pricing) =>
      FitsText(name) && FitsTexts(writers) && FitsTexts(freeReaders) && FitsOption(pricing, FitsPricing)
    case FileStorage(name, size, factor, writers, freeReaders, pricing, period) =>
      && FitsText(name) && IsU64(size) && IsU8(factor) && FitsTexts(writers) && FitsTexts(freeReaders)
      && FitsOption(pricing, FitsPricing) && IsU64(period)
    case BlockchainIndexing(manifest, modules, execution, indexer, retention, completeness, _) =>
      && IsBlob(manifest) && FitsModules(modules) && FitsExecution(execution) && FitsIndexer(indexer)
      && FitsRetention(retention) && FitsOption(completeness, FitsCompleteness)
  }

  predicate FitsFrequency(f: Frequency) {
    (f.EveryNBlocks? ==> IsU64(f.blocks)) && (f.EveryNSeconds? ==> IsU64(f.seconds))
  }

  predicate FitsPrivacy(p: Privacy) {
    FitsOption(p.allowedIndexers, FitsTexts) && FitsFrequency(p.commitmentFrequency)
  }

  predicate FitsTemplate(c: TemplateConfig) {
    && FitsText(c.templateId) && IsU32(c.templateVersion) && FitsText(c.variantId) && IsBlob(c.parameters)
    && FitsTexts(c.contracts) && FitsTexts(c.eventSignatures) && FitsOption(c.chain, FitsText)
  }

  predicate FitsTail(t: RegisterSubgrove) {
    IsU32(t.confirmationDepth) && FitsText(t.publicKeyId) && IsU64(t.nonce)
  }

  predicate FitsSettings(t: RegisterSubgrove) {
    && FitsOption(t.privacy, FitsPrivacy) && FitsOption(t.initialOwnerKeyGrant, FitsGrant)
    && FitsOption(t.templateConfig, FitsTemplate) && FitsTail(t)
  }

  predicate FitsDetails(t: RegisterSubgrove) {
    && FitsTexts(t.admins) && (t.initialFunding.Some? ==> IsU128(t.initialFunding.value))
    && FitsMode(t.mode) && FitsSettings(t)
  }

  /** Every integer is one its width holds. */
  predicate FitsBody(t: RegisterSubgrove) {
    && FitsText(t.subgroveId) && FitsText(t.name) && FitsText(t.description) && FitsText(t.schema)
    && FitsText(t.ownerDid) && FitsDetails(t)
  }

  // ---------- What the wire builder lets through ----------

  predicate IsString(t: Text) {
    FitsText(t) && Utf8.WellFormed(t)
  }

  predicate AreStrings(ts: seq<Text>) {
    IsU64(|ts|) && forall t <- ts :: IsString(t)
  }

  predicate ValidGrant(g: KeyGrant) {
    && FitsGrant(g)
    && Utf8.WellFormed(g.granteeDid) && Utf8.WellFormed(g.granteePublicKeyId) && Utf8.WellFormed(g.grantedBy)
  }

  predicate ValidModule(m: WasmModule) {
    IsString(m.name) && |m.hash| == 32 && IsBlob(m.content)
  }

  predicate ValidCompleteness(c: Completeness) {
    FitsCompleteness(c) && |c.logConfigHash| == |c.txConfigHash| == 4
  }

  predicate ValidMode(m: Mode) {
    && FitsMode(m)
    && match m
       case DataStorage(name, writers, freeReaders, _) =>
         IsString(name) && AreStrings(writers) && AreStrings(freeReaders)
       case FileStorage(name, _, _, writers, freeReaders, _, _) =>
         IsString(name) && AreStrings(writers) && AreStrings(freeReaders)
       case BlockchainIndexing(_, modules, _, _, _, completeness, _) =>
         (forall w <- modules :: ValidModule(w)) && FitsOption(completeness, ValidCompleteness)
  }

  predicate ValidPrivacy(p: Privacy) {
    FitsPrivacy(p) && FitsOption(p.allowedIndexers, AreStrings)
  }

  predicate ValidTemplate(c: TemplateConfig) {
    && FitsTemplate(c) && IsString(c.templateId) && IsString(c.variantId)
    && AreStrings(c.contracts) && AreStrings(c.eventSignatures) && FitsOption(c.chain, IsString)
  }

  /** Also every text is well formed, and every hash of its length. */
  predicate ValidBody(t: RegisterSubgrove) {
    && FitsBody(t)
    && IsString(t.subgroveId) && IsString(t.name) && IsString(t.description) && IsString(t.schema)
    && IsString(t.ownerDid) && AreStrings(t.admins) && ValidMode(t.mode)
    && FitsOption(t.privacy, ValidPrivacy) && FitsOption(t.initialOwnerKeyGrant, ValidGrant)
    && FitsOption(t.templateConfig, ValidTemplate) && IsString(t.publicKeyId)
  }
}
