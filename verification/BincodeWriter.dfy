/** The encoder as it runs: a growing buffer that every write appends to. */
module BincodeWriter {
  import opened Bytes
  import opened Text
  import opened SubgroveWire
  import opened SubgroveBincode
  import opened Powers
  import Utf8

  /** What a write of `x` does: whatever follows, the bytes are those before it and `x`'s own. */
  ghost predicate Wrote<T>(before: Bytes, after: Bytes, x: T, put: (T, Bytes) -> Bytes) {
    forall rest :: after + rest == before + put(x, rest)
  }

  /** A write is done, or refused: some integer is outside its width. */
  datatype Outcome = Fine | Refused {
    predicate IsFailure() {
      Refused?
    }

    function PropagateFailure(): Outcome {
      Refused
    }
  }

  class Writer {
    var buf: array<byte>
    var len: nat
    ghost var written: Bytes

    ghost predicate Valid()
      reads this, buf
    {
      buf.Length > 0 && len <= buf.Length && written == buf[..len]
    }

    constructor ()
      ensures Valid() && fresh(buf) && written == []
    {
      buf := new byte[256];
      len := 0;
      written := [];
    }

    /** Room for `n` more bytes, doubling the buffer until there is. */
    method Reserve(n: nat)
      requires Valid()
      modifies this, buf
      ensures Valid() && len + n <= buf.Length && written == old(written)
      ensures buf == old(buf) || fresh(buf)
    {
      if len + n <= buf.Length {
        return;
      }
      var size := buf.Length * 2;
      while size < len + n
        invariant size >= buf.Length * 2
        decreases len + n - size
      {
        size := size * 2;
      }
      var next := new byte[size](_ => 0);
      for i := 0 to len
        invariant Valid() && unchanged(this) && unchanged(buf) && fresh(next)
        invariant next.Length == size && next[..i] == buf[..i]
      {
        next[i] := buf[i];
      }
      buf := next;
    }

    method Append(b: byte)
      requires Valid() && len < buf.Length
      modifies this, buf
      ensures Valid() && buf == old(buf) && len == old(len) + 1 && written == old(written) + [b]
    {
      buf[len] := b;
      len := len + 1;
      written := written + [b];
    }

    /** An integer as `width` little-endian bytes; one the width does not hold is refused. */
    method Int(value: int, width: nat) returns (r: Outcome)
      requires Valid()
      modifies this, buf
      ensures Valid() && (buf == old(buf) || fresh(buf))
      ensures r.Fine? <==> 0 <= value < IntPow(256, width)
      ensures written == if r.Fine? then old(written) + LittleEndian(value, width) else old(written)
    {
      hide IntPow;
      if value < 0 || value >= IntPow(256, width) {
        return Refused;
      }
      var v := value;
      Reserve(width);
      for i := 0 to width
        invariant Valid() && (buf == old(buf) || fresh(buf)) && len + (width - i) <= buf.Length && v >= 0
        invariant written + LittleEndian(v, width - i) == old(written) + LittleEndian(value, width)
      {
        ghost var before := written;
        Append((v % 256) as byte);
        assert before + ([(v % 256) as byte] + LittleEndian(v / 256, width - i - 1))
            == written + LittleEndian(v / 256, width - i - 1);
        v := v / 256;
      }
      return Fine;
    }

    method U8(v: nat) returns (r: Outcome)
      requires Valid()
      modifies this, buf
      ensures Valid() && (buf == old(buf) || fresh(buf))
      ensures r.Fine? <==> IsU8(v)
      ensures r.Fine? ==> Wrote(old(written), written, v, PutU8)
    {
      Widths();
      :- Int(v, 1);
      return Fine;
    }

    method U32(v: nat) returns (r: Outcome)
      requires Valid()
      modifies this, buf
      ensures Valid() && (buf == old(buf) || fresh(buf))
      ensures r.Fine? <==> IsU32(v)
      ensures r.Fine? ==> Wrote(old(written), written, v, PutU32)
    {
      hide LittleEndian, IntPow;
      Widths();
      :- Int(v, 4);
      return Fine;
    }

    method U64(v: nat) returns (r: Outcome)
      requires Valid()
      modifies this, buf
      ensures Valid() && (buf == old(buf) || fresh(buf))
      ensures r.Fine? <==> IsU64(v)
      ensures r.Fine? ==> Wrote(old(written), written, v, PutU64)
    {
      hide LittleEndian, IntPow;
      Widths();
      :- Int(v, 8);
      return Fine;
    }

    method U128(v: nat) returns (r: Outcome)
      requires Valid()
      modifies this, buf
      ensures Valid() && (buf == old(buf) || fresh(buf))
      ensures r.Fine? <==> IsU128(v)
      ensures r.Fine? ==> Wrote(old(written), written, v, PutU128)
    {
      hide LittleEndian, IntPow;
      Widths();
      :- Int(v, 16);
      return Fine;
    }

    method Bool(b: bool) returns (r: Outcome)
      requires Valid()
      modifies this, buf
      ensures Valid() && (buf == old(buf) || fresh(buf))
      ensures r == Fine && Wrote(old(written), written, b, PutBool)
    {
      var tag := if b then 1 else 0;
      :- U8(tag);
      return Fine;
    }

    /** Bytes with no length. */
    method Raw(b: Bytes)
      requires Valid()
      modifies this, buf
      ensures Valid() && (buf == old(buf) || fresh(buf))
      ensures Wrote(old(written), written, b, PutRaw)
    {
      Reserve(|b|);
      for i := 0 to |b|
        invariant Valid() && (buf == old(buf) || fresh(buf)) && len + (|b| - i) <= buf.Length
        invariant written == old(written) + b[..i]
      {
        Append(b[i]);
      }
    }

    method Blob(b: Bytes) returns (r: Outcome)
      requires Valid()
      modifies this, buf
      ensures Valid() && (buf == old(buf) || fresh(buf))
      ensures r.Fine? <==> IsBlob(b)
      ensures r.Fine? ==> Wrote(old(written), written, b, PutBytes)
    {
      hide PutU64, PutRaw;
      :- U64(|b|);
      Raw(b);
      return Fine;
    }

    method Str(t: Text) returns (r: Outcome)
      requires Valid()
      modifies this, buf
      ensures Valid() && (buf == old(buf) || fresh(buf))
      ensures r.Fine? <==> FitsText(t)
      ensures r.Fine? ==> Wrote(old(written), written, t, PutString)
    {
      hide PutBytes;
      :- Blob(Utf8.Encode(t));
      return Fine;
    }

    method Strings(ts: seq<Text>) returns (r: Outcome)
      requires Valid()
      modifies this, buf
      ensures Valid() && (buf == old(buf) || fresh(buf))
      ensures r.Fine? <==> FitsTexts(ts)
      ensures r.Fine? ==> Wrote(old(written), written, ts, PutStrings)
    {
      hide PutU64, PutString, FitsText;
      :- U64(|ts|);
      assert ts[0..] == ts;
      for i := 0 to |ts|
        invariant Valid() && (buf == old(buf) || fresh(buf))
        invariant forall j | 0 <= j < i :: FitsText(ts[j])
        invariant forall rest :: written + PutEach(ts[i..], PutString, rest) == old(written) + PutStrings(ts, rest)
      {
        assert ts[i..][1..] == ts[i + 1..];
        :- Str(ts[i]);
      }
      return Fine;
    }

    /** The bytes written. */
    method Finish() returns (b: Bytes)
      requires Valid()
      ensures b == written
    {
      b := buf[..len];
    }

    method Grant(g: KeyGrant) returns (r: Outcome)
      requires Valid()
      modifies this, buf
      ensures Valid() && (buf == old(buf) || fresh(buf))
      ensures r.Fine? <==> FitsGrant(g)
      ensures r.Fine? ==> Wrote(old(written), written, g, PutGrant)
    {
      hide PutString, PutU32, PutBytes, PutU64, FitsText;
      :- Str(g.granteeDid);
      :- U32(g.keyEpoch);
      :- Str(g.granteePublicKeyId);
      :- Blob(g.ephemeralPublicKey);
      :- Blob(g.encryptedKey);
      :- Str(g.grantedBy);
      :- U64(g.grantedAt);
      return Fine;
    }

    method Pricing(p: Option<ReadPricing>) returns (r: Outcome)
      requires Valid()
      modifies this, buf
      ensures Valid() && (buf == old(buf) || fresh(buf))
      ensures r.Fine? <==> FitsOption(p, FitsPricing)
      ensures r.Fine? ==> forall rest :: written + rest == old(written) + PutOption(p, PutPricing, rest)
    {
      hide PutU8, PutBool, PutU128, PutU32;
      if p.None? {
        :- U8(0);
      } else {
        :- U8(1);
        :- Bool(p.value.enabled);
        :- U128(p.value.pricePerQuery);
        :- U32(p.value.ownerRevenueShareBps);
      }
      return Fine;
    }

    method Module(m: WasmModule) returns (r: Outcome)
      requires Valid()
      modifies this, buf
      ensures Valid() && (buf == old(buf) || fresh(buf))
      ensures r.Fine? <==> FitsModule(m)
      ensures r.Fine? ==> Wrote(old(written), written, m, PutModule)
    {
      hide PutString, PutRaw, PutBytes;
      :- Str(m.name);
      Raw(m.hash);
      :- Blob(m.content);
      return Fine;
    }

    method Modules(ms: seq<WasmModule>) returns (r: Outcome)
      requires Valid()
      modifies this, buf
      ensures Valid() && (buf == old(buf) || fresh(buf))
      ensures r.Fine? <==> FitsModules(ms)
      ensures r.Fine? ==> forall rest :: written + rest == old(written) + PutList(ms, PutModule, rest)
    {
      hide PutU64, PutModule, FitsModule;
      :- U64(|ms|);
      assert ms[0..] == ms;
      for i := 0 to |ms|
        invariant Valid() && (buf == old(buf) || fresh(buf))
        invariant forall j | 0 <= j < i :: FitsModule(ms[j])
        invariant forall rest ::
          written + PutEach(ms[i..], PutModule, rest) == old(written) + PutList(ms, PutModule, rest)
      {
        assert ms[i..][1..] == ms[i + 1..];
        :- Module(ms[i]);
      }
      return Fine;
    }

    method Indexer(c: IndexerConfig) returns (r: Outcome)
      requires Valid()
      modifies this, buf
      ensures Valid() && (buf == old(buf) || fresh(buf))
      ensures r.Fine? <==> FitsIndexer(c)
      ensures r.Fine? ==> Wrote(old(written), written, c, PutIndexer)
    {
      hide PutU8, PutU64, PutU128;
      :- U8(c.minIndexers);
      :- U8(c.maxIndexers);
      :- U128(c.rewardPerEpoch);
      :- U64(c.epochLength);
      :- U128(c.minIndexerStake);
      return Fine;
    }

    method Variant(e: Execution) returns (r: Outcome)
      requires Valid()
      modifies this, buf
      ensures Valid() && (buf == old(buf) || fresh(buf))
      ensures r.Fine? <==> FitsExecution(e)
      ensures r.Fine? ==> Wrote(old(written), written, e, PutExecution)
    {
      hide PutU8, PutU32;
      match e {
        case ConsensusExecution =>
          :- U32(0);
        case IndexerExecution(rate) =>
          :- U32(1);
          :- U8(rate);
        case TeeExecution(tee) =>
          :- U32(2);
          :- U32(TeeIndex(tee));
      }
      return Fine;
    }

    method Window(w: Retention) returns (r: Outcome)
      requires Valid()
      modifies this, buf
      ensures Valid() && (buf == old(buf) || fresh(buf))
      ensures r.Fine? <==> FitsRetention(w)
      ensures r.Fine? ==> Wrote(old(written), written, w, PutRetention)
    {
      hide PutU32, PutU64;
      match w {
        case Blocks(n) =>
          :- U32(0);
          :- U64(n);
        case Seconds(n) =>
          :- U32(1);
          :- U64(n);
        case Indefinite =>
          :- U32(2);
        case VerifyOnly =>
          :- U32(3);
      }
      return Fine;
    }

    method CommitmentFrequency(f: Frequency) returns (r: Outcome)
      requires Valid()
      modifies this, buf
      ensures Valid() && (buf == old(buf) || fresh(buf))
      ensures r.Fine? <==> FitsFrequency(f)
      ensures r.Fine? ==> Wrote(old(written), written, f, PutFrequency)
    {
      hide PutU32, PutU64;
      match f {
        case EveryUpdate =>
          :- U32(0);
        case EveryNBlocks(n) =>
          :- U32(1);
          :- U64(n);
        case EveryNSeconds(n) =>
          :- U32(2);
          :- U64(n);
        case Never =>
          :- U32(3);
      }
      return Fine;
    }

    method ConfigHash(h: seq<nat>) returns (r: Outcome)
      requires Valid()
      modifies this, buf
      ensures Valid() && (buf == old(buf) || fresh(buf))
      ensures r.Fine? <==> FitsConfigHash(h)
      ensures r.Fine? ==> Wrote(old(written), written, h, PutConfigHash)
    {
      hide PutU32;
      assert h[0..] == h;
      for i := 0 to |h|
        invariant Valid() && (buf == old(buf) || fresh(buf))
        invariant forall j | 0 <= j < i :: IsU32(h[j])
        invariant forall rest :: written + PutEach(h[i..], PutU32, rest) == old(written) + PutConfigHash(h, rest)
      {
        assert h[i..][1..] == h[i + 1..];
        :- U32(h[i]);
      }
      return Fine;
    }

    method CompletenessOption(c: Option<Completeness>) returns (r: Outcome)
      requires Valid()
      modifies this, buf
      ensures Valid() && (buf == old(buf) || fresh(buf))
      ensures r.Fine? <==> FitsOption(c, FitsCompleteness)
      ensures r.Fine? ==> forall rest :: written + rest == old(written) + PutOption(c, PutCompleteness, rest)
    {
      hide PutU8, PutConfigHash, PutBool, PutU128;
      if c.None? {
        :- U8(0);
      } else {
        :- U8(1);
        :- ConfigHash(c.value.logConfigHash);
        :- ConfigHash(c.value.txConfigHash);
        :- Bool(c.value.deferred);
        :- U128(c.value.bondAmount);
      }
      return Fine;
    }

    method PrivacyOption(p: Option<Privacy>) returns (r: Outcome)
      requires Valid()
      modifies this, buf
      ensures Valid() && (buf == old(buf) || fresh(buf))
      ensures r.Fine? <==> FitsOption(p, FitsPrivacy)
      ensures r.Fine? ==> forall rest :: written + rest == old(written) + PutOption(p, PutPrivacy, rest)
    {
      hide PutU8, PutStrings, PutFrequency;
      if p.None? {
        :- U8(0);
      } else {
        :- U8(1);
        if p.value.allowedIndexers.None? {
          :- U8(0);
        } else {
          :- U8(1);
          :- Strings(p.value.allowedIndexers.value);
        }
        :- CommitmentFrequency(p.value.commitmentFrequency);
      }
      return Fine;
    }

    method GrantOption(g: Option<KeyGrant>) returns (r: Outcome)
      requires Valid()
      modifies this, buf
      ensures Valid() && (buf == old(buf) || fresh(buf))
      ensures r.Fine? <==> FitsOption(g, FitsGrant)
      ensures r.Fine? ==> forall rest :: written + rest == old(written) + PutOption(g, PutGrant, rest)
    {
      hide PutU8, PutGrant;
      if g.None? {
        :- U8(0);
      } else {
        :- U8(1);
        :- Grant(g.value);
      }
      return Fine;
    }

    method TemplateOption(c: Option<TemplateConfig>) returns (r: Outcome)
      requires Valid()
      modifies this, buf
      ensures Valid() && (buf == old(buf) || fresh(buf))
      ensures r.Fine? <==> FitsOption(c, FitsTemplate)
      ensures r.Fine? ==> forall rest :: written + rest == old(written) + PutOption(c, PutTemplate, rest)
    {
      hide PutU8, PutString, PutU32, PutBytes, PutStrings;
      if c.None? {
        :- U8(0);
      } else {
        :- U8(1);
        :- Str(c.value.templateId);
        :- U32(c.value.templateVersion);
        :- Str(c.value.variantId);
        :- Blob(c.value.parameters);
        :- Strings(c.value.contracts);
        :- Strings(c.value.eventSignatures);
        if c.value.chain.None? {
          :- U8(0);
        } else {
          :- U8(1);
          :- Str(c.value.chain.value);
        }
      }
      return Fine;
    }

    method FundingOption(v: Option<nat>) returns (r: Outcome)
      requires Valid()
      modifies this, buf
      ensures Valid() && (buf == old(buf) || fresh(buf))
      ensures r.Fine? <==> (v.Some? ==> IsU128(v.value))
      ensures r.Fine? ==> forall rest :: written + rest == old(written) + PutOption(v, PutU128, rest)
    {
      hide PutU8, PutU128;
      if v.None? {
        :- U8(0);
      } else {
        :- U8(1);
        :- U128(v.value);
      }
      return Fine;
    }

    method TeeOption(t: Option<Tee>) returns (r: Outcome)
      requires Valid()
      modifies this, buf
      ensures Valid() && (buf == old(buf) || fresh(buf))
      ensures r == Fine && (forall rest :: written + rest == old(written) + PutOption(t, PutTee, rest))
    {
      hide PutU8, PutU32;
      if t.None? {
        :- U8(0);
      } else {
        :- U8(1);
        :- U32(TeeIndex(t.value));
      }
      return Fine;
    }

    method StorageMode(m: Mode) returns (r: Outcome)
      requires Valid() && !m.BlockchainIndexing?
      modifies this, buf
      ensures Valid() && (buf == old(buf) || fresh(buf))
      ensures r.Fine? <==> FitsMode(m)
      ensures r.Fine? ==> Wrote(old(written), written, m, PutMode)
    {
      hide PutU32, PutU64, PutU8, PutString, PutStrings, PutOption, FitsText, FitsTexts, FitsPricing;
      match m {
        case DataStorage(name, writers, freeReaders, pricing) =>
          :- U32(0);
          :- Str(name);
          :- Strings(writers);
          :- Strings(freeReaders);
          :- Pricing(pricing);
        case FileStorage(name, size, factor, writers, freeReaders, pricing, period) =>
          :- U32(1);
          :- Str(name);
          :- U64(size);
          :- U8(factor);
          :- Strings(writers);
          :- Strings(freeReaders);
          :- Pricing(pricing);
          :- U64(period);
      }
      return Fine;
    }

    method SubgroveMode(m: Mode) returns (r: Outcome)
      requires Valid()
      modifies this, buf
      ensures Valid() && (buf == old(buf) || fresh(buf))
      ensures r.Fine? <==> FitsMode(m)
      ensures r.Fine? ==> Wrote(old(written), written, m, PutMode)
    {
      hide PutU32, PutBytes, PutOption, PutList, PutExecution, PutIndexer, PutRetention, FitsModules, FitsExecution,
           FitsIndexer, FitsRetention, FitsCompleteness, IsBlob;
      if !m.BlockchainIndexing? {
        r := StorageMode(m);
        return;
      }
      :- U32(2);
      :- Blob(m.manifestContent);
      :- Modules(m.wasmModules);
      :- Variant(m.executionMode);
      :- Indexer(m.indexerConfig);
      :- Window(m.retentionWindow);
      :- CompletenessOption(m.completeness);
      :- U32(if m.historicalAuthMode.BftEquivalent? then 0 else 1);
      return Fine;
    }

    /** From the confirmation depth on, the signature empty. */
    method Tail(t: RegisterSubgrove) returns (r: Outcome)
      requires Valid()
      modifies this, buf
      ensures Valid() && (buf == old(buf) || fresh(buf))
      ensures r.Fine? <==> FitsTail(t)
      ensures r.Fine? ==> Wrote(old(written), written, t, PutTail)
    {
      hide PutU32, PutBytes, PutString, PutU64, PutBool;
      :- U32(t.confirmationDepth);
      :- Blob([]);
      :- Str(t.publicKeyId);
      :- U64(t.nonce);
      :- Bool(t.cryptographicCompleteness);
      return Fine;
    }

    method Settings(t: RegisterSubgrove) returns (r: Outcome)
      requires Valid()
      modifies this, buf
      ensures Valid() && (buf == old(buf) || fresh(buf))
      ensures r.Fine? <==> FitsSettings(t)
      ensures r.Fine? ==> Wrote(old(written), written, t, PutSettings)
    {
      hide PutOption, PutTail;
      :- PrivacyOption(t.privacy);
      :- GrantOption(t.initialOwnerKeyGrant);
      :- TemplateOption(t.templateConfig);
      :- Tail(t);
      return Fine;
    }

    method Details(t: RegisterSubgrove) returns (r: Outcome)
      requires Valid()
      modifies this, buf
      ensures Valid() && (buf == old(buf) || fresh(buf))
      ensures r.Fine? <==> FitsDetails(t)
      ensures r.Fine? ==> Wrote(old(written), written, t, PutDetails)
    {
      hide PutStrings, PutOption, PutMode, PutSettings, FitsTexts, FitsMode, FitsSettings;
      :- Strings(t.admins);
      :- FundingOption(t.initialFunding);
      :- TeeOption(t.requiredTee);
      :- SubgroveMode(t.mode);
      :- Settings(t);
      return Fine;
    }

    method Body(t: RegisterSubgrove) returns (r: Outcome)
      requires Valid()
      modifies this, buf
      ensures Valid() && (buf == old(buf) || fresh(buf))
      ensures r.Fine? <==> FitsBody(t)
      ensures r.Fine? ==> Wrote(old(written), written, t, PutBody)
    {
      hide PutString, PutDetails, FitsText, FitsDetails;
      :- Str(t.subgroveId);
      :- Str(t.name);
      :- Str(t.description);
      :- Str(t.schema);
      :- Str(t.ownerDid);
      :- Details(t);
      return Fine;
    }
  }

  /** The bincode of a body with an empty signature, refused when an integer is outside its width. */
  method RegisterSubgroveBincode(t: RegisterSubgrove) returns (b: Option<Bytes>)
    ensures b.Some? <==> FitsBody(t)
    ensures b.Some? ==> b.value == Encode(t)
  {
    hide PutBody, FitsBody;
    var w := new Writer();
    var r := w.Body(t);
    if r.Refused? {
      return None;
    }
    var bytes := w.Finish();
    assert bytes + [] == bytes && [] + Encode(t) == Encode(t);
    return Some(bytes);
  }
}
