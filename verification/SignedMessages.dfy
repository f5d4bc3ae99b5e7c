/** The messages transactions are signed over, and that each is the message of one transaction only. */
module SignedMessages {
  import opened Bytes
  import opened Text
  import opened CanonicalNumber
  import opened JsonValue
  import opened SubgroveWire
  import BincodeReading
  import SubgroveBincode
  import Utf8

  const LINE_FEED: unit := 0x0A
  const SPACE: unit := 0x20
  const HYPHEN: unit := 0x2D
  const UNDERSCORE: unit := 0x5F

  // ---------- Field checks ----------

  method IsWellFormed(s: Text) returns (ok: bool)
    ensures ok == Utf8.WellFormed(s)
  {
    var i := 0;
    assert s[0..] == s;
    while i < |s|
      invariant i <= |s| && Utf8.WellFormed(s) == Utf8.WellFormed(s[i..])
    {
      var c := s[i];
      if IsLead(c) {
        if i + 1 == |s| || !IsTrail(s[i + 1]) {
          return false;
        }
        assert s[i..][2..] == s[i + 2..];
        i := i + 1;
      } else if IsTrail(c) {
        return false;
      } else {
        assert s[i..][1..] == s[i + 1..];
      }
      i := i + 1;
    }
    return true;
  }

  predicate IsLineText(t: Text) {
    Utf8.WellFormed(t) && LINE_FEED !in t
  }

  predicate IsNameCharacter(c: unit) {
    IsDigit(c) || 0x41 <= c <= 0x5A || 0x61 <= c <= 0x7A || c == UNDERSCORE || c == HYPHEN
  }

  /** `did:willow:` and a name of letters, digits, `_` and `-`, at most 128 in all. */
  predicate IsWillowDid(t: Text) {
    var prefix := Ascii("did:willow:");
    && prefix < t && |t| <= 128 && forall i | |prefix| <= i < |t| :: IsNameCharacter(t[i])
  }

  /** Not empty, and without a colon. */
  predicate IsKeySubgroveId(t: Text) {
    Utf8.WellFormed(t) && t != [] && COLON !in t
  }

  predicate IsNonce(n: nat) {
    n <= BincodeReading.MAX_SAFE_INTEGER
  }

  // ---------- The transactions ----------

  datatype Tx =
    | StoreData(subgrove: Text, key: Text, owner: Text, data: Text, nonce: nat)
    | StoreFileManifest(
        subgrove: Text, key: Text, owner: Text, filename: Text, contentType: Text, totalSize: nat, contentHash: Bytes,
        chunkCount: nat, chunkSize: nat, chunkMerkleRoot: Bytes, nonce: nat)
    | DeleteFileManifest(subgrove: Text, key: Text, owner: Text, nonce: nat)
    | RegisterSubgroveTx(body: RegisterSubgrove)
    | GrantSubgroveKey(subgrove: Text, sender: Text, grant: KeyGrant, nonce: nat)
    | RotateSubgroveKey(subgrove: Text, sender: Text, newEpoch: nat, grants: seq<KeyGrant>, nonce: nat)
    | UnregisterStorageNode(node: Text, nonce: nat)
    | RevokeSubgroveKey(subgrove: Text, revokee: Text, sender: Text, nonce: nat)

  predicate SignableGrant(g: KeyGrant) {
    && IsLineText(g.granteeDid) && IsLineText(g.granteePublicKeyId) && IsLineText(g.grantedBy)
    && IsU32(g.keyEpoch) && IsU64(g.grantedAt) && IsWillowDid(g.granteeDid)
  }

  /** What the SDK signs; it throws on anything else. */
  predicate Signable(tx: Tx) {
    match tx
    case StoreData(subgrove, key, owner, data, nonce) =>
      && IsLineText(subgrove) && IsLineText(key) && IsLineText(owner) && IsNonce(nonce)
      && ReadText(data).Got? && ReadText(data).value.JObj?
    case StoreFileManifest(subgrove, key, owner, filename, contentType, size, hash, count, chunk, root, nonce) =>
      && IsLineText(subgrove) && IsLineText(key) && IsLineText(owner) && IsLineText(filename) && IsLineText(contentType)
      && IsNonce(size) && |hash| == 32 && IsU32(count) && IsU32(chunk) && |root| == 32 && IsNonce(nonce)
    case DeleteFileManifest(subgrove, key, owner, nonce) =>
      IsLineText(subgrove) && IsLineText(key) && IsLineText(owner) && IsNonce(nonce)
    case RegisterSubgroveTx(body) =>
      IsLineText(body.subgroveId) && IsLineText(body.ownerDid) && ValidBody(body) && IsNonce(body.nonce)
    case GrantSubgroveKey(subgrove, sender, grant, nonce) =>
      IsLineText(subgrove) && IsKeySubgroveId(subgrove) && IsLineText(sender) && SignableGrant(grant) && IsNonce(nonce)
    case RotateSubgroveKey(subgrove, sender, epoch, grants, nonce) =>
      && IsLineText(subgrove) && IsKeySubgroveId(subgrove) && IsLineText(sender) && IsU32(epoch)
      && (forall g <- grants :: SignableGrant(g)) && IsNonce(nonce)
    case UnregisterStorageNode(node, nonce) => IsLineText(node) && IsNonce(nonce)
    case RevokeSubgroveKey(subgrove, revokee, sender, nonce) =>
      IsKeySubgroveId(subgrove) && IsWillowDid(revokee) && IsWillowDid(sender) && IsNonce(nonce)
  }

  // ---------- The messages ----------

  /** ASCII text. */
  function Word(s: string): (t: Text)
    ensures |t| == |s|
  {
    seq(|s|, i requires 0 <= i < |s| => if (s[i] as int) < 0x80 then s[i] as int as unit else 0x3F)
  }

  function HexText(b: Bytes): Text {
    if b == [] then [] else [HexUnit(b[0] as nat / 16), HexUnit(b[0] as nat % 16)] + HexText(b[1..])
  }

  function HexUnit(n: nat): unit
    requires n < 16
  {
    if n < 10 then ZERO + n as unit else 0x61 + (n - 10) as unit
  }

  /** `Label: value`. */
  function Line(name: Text, value: Text): Text {
    name + [COLON, SPACE] + value
  }

  function Join(parts: seq<Text>, separator: unit): Text
    requires parts != []
  {
    if |parts| == 1 then parts[0] else parts[0] + [separator] + Join(parts[1..], separator)
  }

  /** One key grant's seven lines. */
  function GrantLines(g: KeyGrant): seq<Text> {
    [Line(Word("Grantee"), g.granteeDid), Line(Word("GranteeKey"), g.granteePublicKeyId),
     Line(Word("KeyEpoch"), NatText(g.keyEpoch)), Line(Word("EphemeralKey"), HexText(g.ephemeralPublicKey)),
     Line(Word("EncryptedKey"), HexText(g.encryptedKey)), Line(Word("GrantedBy"), g.grantedBy),
     Line(Word("GrantedAt"), NatText(g.grantedAt))]
  }

  function AllGrantLines(grants: seq<KeyGrant>): seq<Text> {
    if grants == [] then [] else GrantLines(grants[0]) + AllGrantLines(grants[1..])
  }

  function StoreDataLines(tx: Tx, sha: Bytes -> Bytes): seq<Text>
    requires tx.StoreData?
  {
    [Word("StoreData"), Line(Word("Subgrove"), tx.subgrove), Line(Word("Key"), tx.key), Line(Word("Owner"), tx.owner),
     Line(Word("DataHash"), HexText(sha(Utf8.Encode(tx.data)))), Line(Word("Nonce"), NatText(tx.nonce))]
  }

  function ManifestLines(tx: Tx): seq<Text>
    requires tx.StoreFileManifest?
  {
    [Word("StoreFileManifest"), Line(Word("Subgrove"), tx.subgrove), Line(Word("Key"), tx.key),
     Line(Word("Owner"), tx.owner), Line(Word("Filename"), tx.filename), Line(Word("ContentType"), tx.contentType),
     Line(Word("TotalSize"), NatText(tx.totalSize)), Line(Word("ContentHash"), HexText(tx.contentHash)),
     Line(Word("ChunkCount"), NatText(tx.chunkCount)), Line(Word("ChunkSize"), NatText(tx.chunkSize)),
     Line(Word("ChunkMerkleRoot"), HexText(tx.chunkMerkleRoot)), Line(Word("Encryption"), Word("none")),
     Line(Word("Nonce"), NatText(tx.nonce))]
  }

  function DeleteLines(tx: Tx): seq<Text>
    requires tx.DeleteFileManifest?
  {
    [Word("DeleteFileManifest"), Line(Word("Subgrove"), tx.subgrove), Line(Word("Key"), tx.key),
     Line(Word("Owner"), tx.owner), Line(Word("Nonce"), NatText(tx.nonce))]
  }

  function RegisterLines(body: RegisterSubgrove, sha: Bytes -> Bytes): seq<Text> {
    [Word("RegisterSubgrove"), Line(Word("Subgrove"), body.subgroveId), Line(Word("Owner"), body.ownerDid),
     Line(Word("Config"), HexText(sha(SubgroveBincode.Encode(body)))), Line(Word("Nonce"), NatText(body.nonce))]
  }

  function GrantTxLines(tx: Tx): seq<Text>
    requires tx.GrantSubgroveKey?
  {
    [Word("GrantSubgroveKey"), Line(Word("Subgrove"), tx.subgrove), Line(Word("Sender"), tx.sender)]
    + GrantLines(tx.grant) + [Line(Word("Nonce"), NatText(tx.nonce))]
  }

  function RotateLines(tx: Tx): seq<Text>
    requires tx.RotateSubgroveKey?
  {
    [Word("RotateSubgroveKey"), Line(Word("Subgrove"), tx.subgrove), Line(Word("Sender"), tx.sender),
     Line(Word("NewEpoch"), NatText(tx.newEpoch)), Line(Word("Grants"), NatText(|tx.grants|))]
    + AllGrantLines(tx.grants) + [Line(Word("Nonce"), NatText(tx.nonce))]
  }

  function UnregisterLines(tx: Tx): seq<Text>
    requires tx.UnregisterStorageNode?
  {
    [Word("UnregisterStorageNode"), Line(Word("Node"), tx.node), Line(Word("Nonce"), NatText(tx.nonce))]
  }

  /** The labelled lines; `sha` is SHA-256. */
  function Lines(tx: Tx, sha: Bytes -> Bytes): (lines: seq<Text>)
    requires !tx.RevokeSubgroveKey?
    ensures |lines| > 1
  {
    match tx
    case StoreData(_, _, _, _, _) => StoreDataLines(tx, sha)
    case StoreFileManifest(_, _, _, _, _, _, _, _, _, _, _) => ManifestLines(tx)
    case DeleteFileManifest(_, _, _, _) => DeleteLines(tx)
    case RegisterSubgroveTx(body) => RegisterLines(body, sha)
    case GrantSubgroveKey(_, _, _, _) => GrantTxLines(tx)
    case RotateSubgroveKey(_, _, _, _, _) => RotateLines(tx)
    case UnregisterStorageNode(_, _) => UnregisterLines(tx)
  }

  function SignMessage(tx: Tx, sha: Bytes -> Bytes): Text {
    if tx.RevokeSubgroveKey? then
      Word("RevokeSubgroveKey") + [COLON]
      + (tx.subgrove + [COLON] + (tx.revokee + [COLON] + (tx.sender + [COLON] + NatText(tx.nonce))))
    else Join(Lines(tx, sha), LINE_FEED)
  }

  /** The same fields; data and a registration's body through their hashes. */
  predicate SameSigned(a: Tx, b: Tx, sha: Bytes -> Bytes) {
    if a.StoreData? && b.StoreData? then
      && a == b.(data := a.data)
      && sha(Utf8.Encode(a.data)) == sha(Utf8.Encode(b.data))
    else if a.RegisterSubgroveTx? && b.RegisterSubgroveTx? then
      && a.body.subgroveId == b.body.subgroveId && a.body.ownerDid == b.body.ownerDid && a.body.nonce == b.body.nonce
      && sha(SubgroveBincode.Encode(a.body)) == sha(SubgroveBincode.Encode(b.body))
    else a == b
  }

  // ---------- Cutting a joined text apart ----------

  /** Text before the first separator, and after it. */
  lemma FirstPart(x: Text, s: unit, r: Text, y: Text, t: unit, q: Text)
    requires x + [s] + r == y + [t] + q && s !in x && t !in x && s !in y && t !in y
    ensures x == y && s == t && r == q
  {
    var m := x + [s] + r;
    assert forall i | 0 <= i < |x| :: m[i] == x[i] && x[i] in x;
    assert forall i | 0 <= i < |y| :: m[i] == y[i] && y[i] in y;
    assert m[|x|] == s && m[|y|] == t;
    assert m[..|x|] == x && m[..|y|] == y;
    assert m[|x| + 1..] == r && m[|y| + 1..] == q;
  }

  lemma OneOrMore(xs: seq<Text>, s: unit)
    requires xs != [] && forall x <- xs :: s !in x
    ensures s in Join(xs, s) <==> |xs| > 1
  {
    assert xs[0] in xs;
    if |xs| > 1 {
      assert Join(xs, s)[|xs[0]|] == s;
    }
  }

  lemma {:induction false} JoinTells(xs: seq<Text>, ys: seq<Text>, s: unit)
    requires xs != [] && ys != [] && (forall x <- xs :: s !in x) && (forall y <- ys :: s !in y)
    requires Join(xs, s) == Join(ys, s)
    ensures xs == ys
  {
    assert xs[0] in xs && ys[0] in ys;
    OneOrMore(xs, s);
    OneOrMore(ys, s);
    if |xs| > 1 {
      FirstPart(xs[0], s, Join(xs[1..], s), ys[0], s, Join(ys[1..], s));
      JoinTells(xs[1..], ys[1..], s);
      assert xs == [xs[0]] + xs[1..] && ys == [ys[0]] + ys[1..];
    }
  }

  // ---------- What a line says ----------

  lemma LineTells(name: Text, a: Text, b: Text)
    requires Line(name, a) == Line(name, b)
    ensures a == b
  {
    var n := |name| + 2;
    assert Line(name, a)[n..] == a && Line(name, b)[n..] == b;
  }

  lemma NumberTells(a: nat, b: nat)
    requires NatText(a) == NatText(b)
    ensures a == b
  {
    NatTextReads(a);
    NatTextReads(b);
  }

  lemma NumberLineTells(name: Text, a: nat, b: nat)
    requires Line(name, NatText(a)) == Line(name, NatText(b))
    ensures a == b
  {
    LineTells(name, NatText(a), NatText(b));
    NumberTells(a, b);
  }

  lemma {:induction false} HexTells(a: Bytes, b: Bytes)
    requires HexText(a) == HexText(b)
    ensures a == b
  {
    if a != [] && b != [] {
      var (s, t) := (HexText(a), HexText(b));
      assert s[2..] == HexText(a[1..]) && t[2..] == HexText(b[1..]);
      assert s[0] == t[0] && s[1] == t[1];
      assert a[0] as nat / 16 == b[0] as nat / 16 && a[0] as nat % 16 == b[0] as nat % 16;
      HexTells(a[1..], b[1..]);
      assert a == [a[0]] + a[1..] && b == [b[0]] + b[1..];
    }
  }

  lemma HexLineTells(name: Text, a: Bytes, b: Bytes)
    requires Line(name, HexText(a)) == Line(name, HexText(b))
    ensures a == b
  {
    LineTells(name, HexText(a), HexText(b));
    HexTells(a, b);
  }

  lemma GrantTells(g: KeyGrant, h: KeyGrant)
    requires GrantLines(g) == GrantLines(h)
    ensures g == h
  {
    hide Line, NatText, HexText, Word;
    var (x, y) := (GrantLines(g), GrantLines(h));
    assert x[0] == y[0] && x[1] == y[1] && x[2] == y[2] && x[3] == y[3] && x[4] == y[4] && x[5] == y[5] && x[6] == y[6];
    LineTells(Word("Grantee"), g.granteeDid, h.granteeDid);
    LineTells(Word("GranteeKey"), g.granteePublicKeyId, h.granteePublicKeyId);
    NumberLineTells(Word("KeyEpoch"), g.keyEpoch, h.keyEpoch);
    HexLineTells(Word("EphemeralKey"), g.ephemeralPublicKey, h.ephemeralPublicKey);
    HexLineTells(Word("EncryptedKey"), g.encryptedKey, h.encryptedKey);
    LineTells(Word("GrantedBy"), g.grantedBy, h.grantedBy);
    NumberLineTells(Word("GrantedAt"), g.grantedAt, h.grantedAt);
  }

  lemma {:induction false} GrantsTell(gs: seq<KeyGrant>, hs: seq<KeyGrant>)
    requires AllGrantLines(gs) == AllGrantLines(hs)
    ensures gs == hs
  {
    hide GrantLines;
    if gs != [] && hs != [] {
      var (x, y) := (AllGrantLines(gs), AllGrantLines(hs));
      GrantLinesAre(gs[0]);
      GrantLinesAre(hs[0]);
      assert x[..7] == GrantLines(gs[0]) && y[..7] == GrantLines(hs[0]);
      assert x[7..] == AllGrantLines(gs[1..]) && y[7..] == AllGrantLines(hs[1..]);
      GrantTells(gs[0], hs[0]);
      GrantsTell(gs[1..], hs[1..]);
      assert gs == [gs[0]] + gs[1..] && hs == [hs[0]] + hs[1..];
    } else if gs != [] {
      GrantLinesAre(gs[0]);
    } else if hs != [] {
      GrantLinesAre(hs[0]);
    }
  }

  lemma GrantLinesAre(g: KeyGrant)
    ensures |GrantLines(g)| == 7
  {
  }

  // ---------- No line holds a line feed ----------

  ghost predicate Flat(lines: seq<Text>) {
    forall l <- lines :: LINE_FEED !in l
  }

  lemma FlatLine(name: Text, value: Text)
    requires LINE_FEED !in name && LINE_FEED !in value
    ensures LINE_FEED !in Line(name, value)
  {
  }

  lemma FlatNumbers(n: nat)
    ensures LINE_FEED !in NatText(n)
  {
    assert AllDigits(NatText(n));
  }

  lemma {:induction false} FlatHex(b: Bytes)
    ensures LINE_FEED !in HexText(b)
  {
    if b != [] {
      FlatHex(b[1..]);
    }
  }

  predicate OneLine(s: string) {
    forall i | 0 <= i < |s| :: (s[i] as int) != 10
  }

  lemma FlatWord(s: string)
    requires OneLine(s)
    ensures LINE_FEED !in Word(s)
  {
  }

  lemma FlatTextLine(name: string, value: Text)
    requires OneLine(name) && LINE_FEED !in value
    ensures LINE_FEED !in Line(Word(name), value)
  {
    hide Word;
    FlatWord(name);
    FlatLine(Word(name), value);
  }

  lemma FlatNumberLine(name: string, n: nat)
    requires OneLine(name)
    ensures LINE_FEED !in Line(Word(name), NatText(n))
  {
    hide Word, Line, NatText;
    FlatNumbers(n);
    FlatTextLine(name, NatText(n));
  }

  lemma FlatHexLine(name: string, b: Bytes)
    requires OneLine(name)
    ensures LINE_FEED !in Line(Word(name), HexText(b))
  {
    hide Word, Line, HexText;
    FlatHex(b);
    FlatTextLine(name, HexText(b));
  }

  lemma FlatGrant(g: KeyGrant)
    requires SignableGrant(g)
    ensures Flat(GrantLines(g))
  {
    hide Word, Line, NatText, HexText, Utf8.WellFormed, IsWillowDid;
    FlatTextLine("Grantee", g.granteeDid);
    FlatTextLine("GranteeKey", g.granteePublicKeyId);
    FlatNumberLine("KeyEpoch", g.keyEpoch);
    FlatHexLine("EphemeralKey", g.ephemeralPublicKey);
    FlatHexLine("EncryptedKey", g.encryptedKey);
    FlatTextLine("GrantedBy", g.grantedBy);
    FlatNumberLine("GrantedAt", g.grantedAt);
  }

  lemma {:induction false} FlatGrants(gs: seq<KeyGrant>)
    requires forall g <- gs :: SignableGrant(g)
    ensures Flat(AllGrantLines(gs))
  {
    hide SignableGrant, GrantLines;
    if gs != [] {
      assert gs[0] in gs;
      FlatGrant(gs[0]);
      FlatGrants(gs[1..]);
    }
  }

  lemma FlatStoreData(tx: Tx, sha: Bytes -> Bytes)
    requires Signable(tx) && tx.StoreData?
    ensures Flat(StoreDataLines(tx, sha))
  {
    hide Word, Line, NatText, HexText, Utf8.WellFormed, ReadText, Utf8.Encode;
    FlatWord("StoreData");
    FlatTextLine("Subgrove", tx.subgrove);
    FlatTextLine("Key", tx.key);
    FlatTextLine("Owner", tx.owner);
    FlatHexLine("DataHash", sha(Utf8.Encode(tx.data)));
    FlatNumberLine("Nonce", tx.nonce);
  }

  lemma FlatManifest(tx: Tx)
    requires Signable(tx) && tx.StoreFileManifest?
    ensures Flat(ManifestLines(tx))
  {
    hide Word, Line, NatText, HexText, Utf8.WellFormed;
    FlatWord("StoreFileManifest");
    FlatTextLine("Subgrove", tx.subgrove);
    FlatTextLine("Key", tx.key);
    FlatTextLine("Owner", tx.owner);
    FlatTextLine("Filename", tx.filename);
    FlatTextLine("ContentType", tx.contentType);
    FlatNumberLine("TotalSize", tx.totalSize);
    FlatHexLine("ContentHash", tx.contentHash);
    FlatNumberLine("ChunkCount", tx.chunkCount);
    FlatNumberLine("ChunkSize", tx.chunkSize);
    FlatHexLine("ChunkMerkleRoot", tx.chunkMerkleRoot);
    FlatWord("none");
    FlatTextLine("Encryption", Word("none"));
    FlatNumberLine("Nonce", tx.nonce);
  }

  lemma FlatDelete(tx: Tx)
    requires Signable(tx) && tx.DeleteFileManifest?
    ensures Flat(DeleteLines(tx))
  {
    hide Word, Line, NatText, Utf8.WellFormed;
    FlatWord("DeleteFileManifest");
    FlatTextLine("Subgrove", tx.subgrove);
    FlatTextLine("Key", tx.key);
    FlatTextLine("Owner", tx.owner);
    FlatNumberLine("Nonce", tx.nonce);
  }

  lemma FlatRegister(body: RegisterSubgrove, sha: Bytes -> Bytes)
    requires IsLineText(body.subgroveId) && IsLineText(body.ownerDid)
    ensures Flat(RegisterLines(body, sha))
  {
    hide Word, Line, NatText, HexText, Utf8.WellFormed, SubgroveBincode.Encode;
    FlatWord("RegisterSubgrove");
    FlatTextLine("Subgrove", body.subgroveId);
    FlatTextLine("Owner", body.ownerDid);
    FlatHexLine("Config", sha(SubgroveBincode.Encode(body)));
    FlatNumberLine("Nonce", body.nonce);
  }

  lemma FlatGrantTx(tx: Tx)
    requires Signable(tx) && tx.GrantSubgroveKey?
    ensures Flat(GrantTxLines(tx))
  {
    hide Word, Line, NatText, Utf8.WellFormed, IsWillowDid, SignableGrant, GrantLines;
    FlatWord("GrantSubgroveKey");
    FlatTextLine("Subgrove", tx.subgrove);
    FlatTextLine("Sender", tx.sender);
    FlatGrant(tx.grant);
    FlatNumberLine("Nonce", tx.nonce);
  }

  lemma FlatRotate(tx: Tx)
    requires Signable(tx) && tx.RotateSubgroveKey?
    ensures Flat(RotateLines(tx))
  {
    hide Word, Line, NatText, Utf8.WellFormed, IsWillowDid, SignableGrant, AllGrantLines;
    FlatWord("RotateSubgroveKey");
    FlatTextLine("Subgrove", tx.subgrove);
    FlatTextLine("Sender", tx.sender);
    FlatNumberLine("NewEpoch", tx.newEpoch);
    FlatNumberLine("Grants", |tx.grants|);
    FlatGrants(tx.grants);
    FlatNumberLine("Nonce", tx.nonce);
  }

  lemma FlatUnregister(tx: Tx)
    requires Signable(tx) && tx.UnregisterStorageNode?
    ensures Flat(UnregisterLines(tx))
  {
    hide Word, Line, NatText, Utf8.WellFormed;
    FlatWord("UnregisterStorageNode");
    FlatTextLine("Node", tx.node);
    FlatNumberLine("Nonce", tx.nonce);
  }

  /** No field breaks a line, so the lines are the message's. */
  lemma FlatLines(tx: Tx, sha: Bytes -> Bytes)
    requires Signable(tx) && !tx.RevokeSubgroveKey?
    ensures Flat(Lines(tx, sha))
  {
    hide StoreDataLines, ManifestLines, DeleteLines, RegisterLines, GrantTxLines, RotateLines, UnregisterLines, Flat,
         Utf8.WellFormed, ValidBody, ReadText;
    match tx
    case StoreData(_, _, _, _, _) => FlatStoreData(tx, sha);
    case StoreFileManifest(_, _, _, _, _, _, _, _, _, _, _) => FlatManifest(tx);
    case DeleteFileManifest(_, _, _, _) => FlatDelete(tx);
    case RegisterSubgroveTx(body) => FlatRegister(body, sha);
    case GrantSubgroveKey(_, _, _, _) => FlatGrantTx(tx);
    case RotateSubgroveKey(_, _, _, _, _) => FlatRotate(tx);
    case UnregisterStorageNode(_, _) => FlatUnregister(tx);
  }

  // ---------- The lines say which transaction it is ----------

  /** The kind's name, the first line. */
  function Kind(tx: Tx): string {
    match tx
    case StoreData(_, _, _, _, _) => "StoreData"
    case StoreFileManifest(_, _, _, _, _, _, _, _, _, _, _) => "StoreFileManifest"
    case DeleteFileManifest(_, _, _, _) => "DeleteFileManifest"
    case RegisterSubgroveTx(_) => "RegisterSubgrove"
    case GrantSubgroveKey(_, _, _, _) => "GrantSubgroveKey"
    case RotateSubgroveKey(_, _, _, _, _) => "RotateSubgroveKey"
    case UnregisterStorageNode(_, _) => "UnregisterStorageNode"
    case RevokeSubgroveKey(_, _, _, _) => "RevokeSubgroveKey"
  }

  /** Which kind a transaction is. */
  function KindNumber(tx: Tx): nat {
    match tx
    case StoreData(_, _, _, _, _) => 0
    case StoreFileManifest(_, _, _, _, _, _, _, _, _, _, _) => 1
    case DeleteFileManifest(_, _, _, _) => 2
    case RegisterSubgroveTx(_) => 3
    case GrantSubgroveKey(_, _, _, _) => 4
    case RotateSubgroveKey(_, _, _, _, _) => 5
    case UnregisterStorageNode(_, _) => 6
    case RevokeSubgroveKey(_, _, _, _) => 7
  }

  lemma KindTells(a: Tx, b: Tx)
    requires Word(Kind(a)) == Word(Kind(b))
    ensures KindNumber(a) == KindNumber(b)
  {
    var (x, y) := (Word(Kind(a)), Word(Kind(b)));
    assert x[0] == y[0] && x[2] == y[2];
  }

  lemma KindIsFirst(tx: Tx, sha: Bytes -> Bytes)
    requires !tx.RevokeSubgroveKey?
    ensures Lines(tx, sha)[0] == Word(Kind(tx))
  {
    hide Word, Line, NatText, HexText, GrantLines, AllGrantLines, Utf8.Encode, SubgroveBincode.Encode;
  }

  lemma ManifestTells(a: Tx, b: Tx)
    requires a.StoreFileManifest? && b.StoreFileManifest? && ManifestLines(a) == ManifestLines(b)
    ensures a == b
  {
    hide Word, Line, NatText, HexText;
    var (x, y) := (ManifestLines(a), ManifestLines(b));
    assert x[1] == y[1] && x[2] == y[2] && x[3] == y[3] && x[4] == y[4] && x[5] == y[5] && x[6] == y[6];
    assert x[7] == y[7] && x[8] == y[8] && x[9] == y[9] && x[10] == y[10] && x[12] == y[12];
    LineTells(Word("Subgrove"), a.subgrove, b.subgrove);
    LineTells(Word("Key"), a.key, b.key);
    LineTells(Word("Owner"), a.owner, b.owner);
    LineTells(Word("Filename"), a.filename, b.filename);
    LineTells(Word("ContentType"), a.contentType, b.contentType);
    NumberLineTells(Word("TotalSize"), a.totalSize, b.totalSize);
    HexLineTells(Word("ContentHash"), a.contentHash, b.contentHash);
    NumberLineTells(Word("ChunkCount"), a.chunkCount, b.chunkCount);
    NumberLineTells(Word("ChunkSize"), a.chunkSize, b.chunkSize);
    HexLineTells(Word("ChunkMerkleRoot"), a.chunkMerkleRoot, b.chunkMerkleRoot);
    NumberLineTells(Word("Nonce"), a.nonce, b.nonce);
  }

  lemma StoreDataTells(a: Tx, b: Tx, sha: Bytes -> Bytes)
    requires a.StoreData? && b.StoreData? && StoreDataLines(a, sha) == StoreDataLines(b, sha)
    ensures SameSigned(a, b, sha)
  {
    hide Word, Line, NatText, HexText, Utf8.Encode;
    var (x, y) := (StoreDataLines(a, sha), StoreDataLines(b, sha));
    assert x[1] == y[1] && x[2] == y[2] && x[3] == y[3] && x[4] == y[4] && x[5] == y[5];
    LineTells(Word("Subgrove"), a.subgrove, b.subgrove);
    LineTells(Word("Key"), a.key, b.key);
    LineTells(Word("Owner"), a.owner, b.owner);
    HexLineTells(Word("DataHash"), sha(Utf8.Encode(a.data)), sha(Utf8.Encode(b.data)));
    NumberLineTells(Word("Nonce"), a.nonce, b.nonce);
  }

  lemma DeleteTells(a: Tx, b: Tx)
    requires a.DeleteFileManifest? && b.DeleteFileManifest? && DeleteLines(a) == DeleteLines(b)
    ensures a == b
  {
    hide Word, Line, NatText;
    var (x, y) := (DeleteLines(a), DeleteLines(b));
    assert x[1] == y[1] && x[2] == y[2] && x[3] == y[3] && x[4] == y[4];
    LineTells(Word("Subgrove"), a.subgrove, b.subgrove);
    LineTells(Word("Key"), a.key, b.key);
    LineTells(Word("Owner"), a.owner, b.owner);
    NumberLineTells(Word("Nonce"), a.nonce, b.nonce);
  }

  lemma RegisterTells(a: RegisterSubgrove, b: RegisterSubgrove, sha: Bytes -> Bytes)
    requires RegisterLines(a, sha) == RegisterLines(b, sha)
    ensures a.subgroveId == b.subgroveId && a.ownerDid == b.ownerDid && a.nonce == b.nonce
    ensures sha(SubgroveBincode.Encode(a)) == sha(SubgroveBincode.Encode(b))
  {
    hide Word, Line, NatText, HexText, SubgroveBincode.Encode;
    var (x, y) := (RegisterLines(a, sha), RegisterLines(b, sha));
    assert x[1] == y[1] && x[2] == y[2] && x[3] == y[3] && x[4] == y[4];
    LineTells(Word("Subgrove"), a.subgroveId, b.subgroveId);
    LineTells(Word("Owner"), a.ownerDid, b.ownerDid);
    HexLineTells(Word("Config"), sha(SubgroveBincode.Encode(a)), sha(SubgroveBincode.Encode(b)));
    NumberLineTells(Word("Nonce"), a.nonce, b.nonce);
  }

  lemma GrantTxTells(a: Tx, b: Tx)
    requires a.GrantSubgroveKey? && b.GrantSubgroveKey? && GrantTxLines(a) == GrantTxLines(b)
    ensures a == b
  {
    hide Word, Line, NatText, GrantLines;
    var (x, y) := (GrantTxLines(a), GrantTxLines(b));
    GrantLinesAre(a.grant);
    GrantLinesAre(b.grant);
    assert x[1] == y[1] && x[2] == y[2] && x[10] == y[10];
    assert x[3..10] == GrantLines(a.grant) && y[3..10] == GrantLines(b.grant);
    LineTells(Word("Subgrove"), a.subgrove, b.subgrove);
    LineTells(Word("Sender"), a.sender, b.sender);
    GrantTells(a.grant, b.grant);
    NumberLineTells(Word("Nonce"), a.nonce, b.nonce);
  }

  lemma RotateTells(a: Tx, b: Tx)
    requires a.RotateSubgroveKey? && b.RotateSubgroveKey? && RotateLines(a) == RotateLines(b)
    ensures a == b
  {
    hide Word, Line, NatText, AllGrantLines;
    var (x, y) := (RotateLines(a), RotateLines(b));
    var n := |x| - 1;
    assert x[1] == y[1] && x[2] == y[2] && x[3] == y[3] && x[n] == y[n];
    assert x[5..n] == AllGrantLines(a.grants) && y[5..n] == AllGrantLines(b.grants);
    LineTells(Word("Subgrove"), a.subgrove, b.subgrove);
    LineTells(Word("Sender"), a.sender, b.sender);
    NumberLineTells(Word("NewEpoch"), a.newEpoch, b.newEpoch);
    GrantsTell(a.grants, b.grants);
    NumberLineTells(Word("Nonce"), a.nonce, b.nonce);
  }

  lemma UnregisterTells(a: Tx, b: Tx)
    requires a.UnregisterStorageNode? && b.UnregisterStorageNode? && UnregisterLines(a) == UnregisterLines(b)
    ensures a == b
  {
    hide Word, Line, NatText;
    var (x, y) := (UnregisterLines(a), UnregisterLines(b));
    assert x[1] == y[1] && x[2] == y[2];
    LineTells(Word("Node"), a.node, b.node);
    NumberLineTells(Word("Nonce"), a.nonce, b.nonce);
  }

  /** Equal lines are of one transaction. */
  lemma LinesTell(a: Tx, b: Tx, sha: Bytes -> Bytes)
    requires !a.RevokeSubgroveKey? && !b.RevokeSubgroveKey? && Lines(a, sha) == Lines(b, sha)
    ensures SameSigned(a, b, sha)
  {
    hide StoreDataLines, ManifestLines, DeleteLines, RegisterLines, GrantTxLines, RotateLines, UnregisterLines,
         Word, SubgroveBincode.Encode, Utf8.Encode;
    KindIsFirst(a, sha);
    KindIsFirst(b, sha);
    KindTells(a, b);
    SameIsSigned(a, b, sha);
    match a
    case StoreData(_, _, _, _, _) => StoreDataTells(a, b, sha);
    case StoreFileManifest(_, _, _, _, _, _, _, _, _, _, _) => ManifestTells(a, b);
    case DeleteFileManifest(_, _, _, _) => DeleteTells(a, b);
    case RegisterSubgroveTx(body) => RegisterTells(body, b.body, sha);
    case GrantSubgroveKey(_, _, _, _) => GrantTxTells(a, b);
    case RotateSubgroveKey(_, _, _, _, _) => RotateTells(a, b);
    case UnregisterStorageNode(_, _) => UnregisterTells(a, b);
  }

  lemma SameIsSigned(a: Tx, b: Tx, sha: Bytes -> Bytes)
    ensures a == b ==> SameSigned(a, b, sha)
  {
  }

  // ---------- Revokes ----------

  /** After its prefix a DID holds no colon. */
  lemma DidTells(a: Text, r: Text, b: Text, q: Text)
    requires IsWillowDid(a) && IsWillowDid(b) && a + [COLON] + r == b + [COLON] + q
    ensures a == b && r == q
  {
    var n := |Ascii("did:willow:")|;
    var x, y := a[n..], b[n..];
    assert (a + [COLON] + r)[n..] == x + [COLON] + r && (b + [COLON] + q)[n..] == y + [COLON] + q;
    assert forall i | 0 <= i < |x| :: IsNameCharacter(x[i]);
    assert forall i | 0 <= i < |y| :: IsNameCharacter(y[i]);
    FirstPart(x, COLON, r, y, COLON, q);
    assert a == a[..n] + x && b == b[..n] + y && a[..n] == b[..n];
  }

  lemma RevokeTells(a: Tx, b: Tx, sha: Bytes -> Bytes)
    requires a.RevokeSubgroveKey? && b.RevokeSubgroveKey? && Signable(a) && Signable(b)
    requires SignMessage(a, sha) == SignMessage(b, sha)
    ensures a == b
  {
    hide IsWillowDid, Utf8.WellFormed, NatText, Word;
    var (ra, rb) := (a.sender + [COLON] + NatText(a.nonce), b.sender + [COLON] + NatText(b.nonce));
    var (qa, qb) := (a.revokee + [COLON] + ra, b.revokee + [COLON] + rb);
    var head := Word("RevokeSubgroveKey") + [COLON];
    assert (head + (a.subgrove + [COLON] + qa))[|head|..] == a.subgrove + [COLON] + qa;
    assert (head + (b.subgrove + [COLON] + qb))[|head|..] == b.subgrove + [COLON] + qb;
    FirstPart(a.subgrove, COLON, qa, b.subgrove, COLON, qb);
    DidTells(a.revokee, ra, b.revokee, rb);
    DidTells(a.sender, NatText(a.nonce), b.sender, NatText(b.nonce));
    NumberTells(a.nonce, b.nonce);
  }

  predicate Plain(s: string) {
    forall i | 0 <= i < |s| :: (s[i] as int) != 10 && (s[i] as int) != 0x3A
  }

  lemma PlainWord(s: string)
    requires Plain(s)
    ensures LINE_FEED !in Word(s) && COLON !in Word(s)
  {
  }

  lemma PlainShortKinds()
    ensures Plain("StoreData") && Plain("RegisterSubgrove") && Plain("GrantSubgroveKey")
  {
  }

  lemma PlainFileKinds()
    ensures Plain("StoreFileManifest") && Plain("DeleteFileManifest")
  {
  }

  lemma PlainLongKinds()
    ensures Plain("RotateSubgroveKey") && Plain("RevokeSubgroveKey") && Plain("UnregisterStorageNode")
  {
  }

  lemma KindIsPlain(tx: Tx)
    ensures Plain(Kind(tx))
  {
    hide Plain;
    PlainShortKinds();
    PlainFileKinds();
    PlainLongKinds();
  }

  /** A revoke's message is no labelled transaction's. */
  lemma RevokeIsApart(a: Tx, b: Tx, sha: Bytes -> Bytes)
    requires a.RevokeSubgroveKey? && !b.RevokeSubgroveKey?
    ensures SignMessage(a, sha) != SignMessage(b, sha)
  {
    hide Lines, NatText, Word, Plain;
    KindIsPlain(a);
    KindIsPlain(b);
    PlainWord(Kind(a));
    PlainWord(Kind(b));
    KindIsFirst(b, sha);
    var (x, y) := (Word("RevokeSubgroveKey"), Word(Kind(b)));
    var q := a.subgrove + [COLON] + (a.revokee + [COLON] + (a.sender + [COLON] + NatText(a.nonce)));
    var r := Join(Lines(b, sha)[1..], LINE_FEED);
    if x + [COLON] + q == y + [LINE_FEED] + r {
      FirstPart(x, COLON, q, y, LINE_FEED, r);
    }
  }

  /** Each signed message is of one transaction only: one kind, with the same fields. */
  lemma MessagesAreUnambiguous(a: Tx, b: Tx, sha: Bytes -> Bytes)
    requires Signable(a) && Signable(b) && SignMessage(a, sha) == SignMessage(b, sha)
    ensures SameSigned(a, b, sha)
  {
    hide Signable, Lines, Join, SameSigned, Word, NatText;
    if a.RevokeSubgroveKey? && b.RevokeSubgroveKey? {
      RevokeTells(a, b, sha);
      SameIsSigned(a, b, sha);
    } else if a.RevokeSubgroveKey? {
      RevokeIsApart(a, b, sha);
    } else if b.RevokeSubgroveKey? {
      RevokeIsApart(b, a, sha);
    } else {
      FlatLines(a, sha);
      FlatLines(b, sha);
      JoinTells(Lines(a, sha), Lines(b, sha), LINE_FEED);
      LinesTell(a, b, sha);
    }
  }

  /** Where SHA-256 tells the two registrations' encodings apart, their messages are apart in every field. */
  lemma RegistrationsAreTold(a: RegisterSubgrove, b: RegisterSubgrove, sha: Bytes -> Bytes)
    requires Signable(RegisterSubgroveTx(a)) && Signable(RegisterSubgroveTx(b))
    requires SignMessage(RegisterSubgroveTx(a), sha) == SignMessage(RegisterSubgroveTx(b), sha)
    requires sha(SubgroveBincode.Encode(a)) == sha(SubgroveBincode.Encode(b)) ==>
               SubgroveBincode.Encode(a) == SubgroveBincode.Encode(b)
    ensures a == b
  {
    hide SubgroveBincode.PutBody, ValidBody, SignMessage;
    MessagesAreUnambiguous(RegisterSubgroveTx(a), RegisterSubgroveTx(b), sha);
    SubgroveBincode.EncodingsAreDistinct(a, b, []);
  }
}
