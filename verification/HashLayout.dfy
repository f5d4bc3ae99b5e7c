/** The bytes each merk hash is computed over, and that each layout tells its parts apart. */
module HashLayout {
  import opened Bytes
  import opened BincodeReading
  import opened MerkFormat

  // ---------- The layouts ----------

  function ValueLayout(value: Bytes): Bytes {
    PutLeb(|value|, value)
  }

  function KvLayout(key: Bytes, valueHash: Bytes): Bytes {
    PutLeb(|key|, key + valueHash)
  }

  function NodeLayout(kv: Bytes, left: Bytes, right: Bytes): Bytes {
    kv + left + right
  }

  function CombineLayout(a: Bytes, b: Bytes): Bytes {
    a + b
  }

  // ---------- The layouts as they are filled in ----------

  method EncodeVarint(value: nat) returns (b: Bytes)
    requires value <= MAX_SAFE_INTEGER
    ensures b == PutLeb(value, [])
  {
    var v := value;
    b := [];
    while v > 0x7F
      invariant v >= 0 && b + PutLeb(v, []) == PutLeb(value, [])
    {
      ghost var before := b;
      b := b + [(v % 0x80 + 0x80) as byte];
      assert before + PutLeb(v, []) == b + PutLeb(v / 0x80, []);
      v := v / 0x80;
    }
    b := b + [v as byte];
    assert [v as byte] + [] == [v as byte];
  }

  lemma {:induction false} PutLebAppends(v: nat, rest: Bytes)
    ensures PutLeb(v, rest) == PutLeb(v, []) + rest
  {
    if v >= 0x80 {
      PutLebAppends(v / 0x80, rest);
    } else {
      assert [v as byte] + [] == [v as byte];
    }
  }

  /** Copy `part` into the buffer from `offset` on. */
  method Fill(buffer: array<byte>, part: Bytes, offset: nat)
    requires offset + |part| <= buffer.Length
    modifies buffer
    ensures buffer[..offset + |part|] == old(buffer[..offset]) + part
  {
    for i := 0 to |part|
      invariant buffer[..offset + i] == old(buffer[..offset]) + part[..i]
    {
      buffer[offset + i] := part[i];
    }
  }

  method ValuePreimage(value: Bytes) returns (b: Bytes)
    requires |value| <= MAX_SAFE_INTEGER
    ensures b == ValueLayout(value)
  {
    var prefix := EncodeVarint(|value|);
    var combined := new byte[|prefix| + |value|](_ => 0);
    Fill(combined, prefix, 0);
    Fill(combined, value, |prefix|);
    b := combined[..];
    PutLebAppends(|value|, value);
  }

  method KvPreimage(key: Bytes, valueHash: Bytes) returns (b: Bytes)
    requires |key| <= MAX_SAFE_INTEGER && |valueHash| == HASH_LENGTH
    ensures b == KvLayout(key, valueHash)
  {
    var prefix := EncodeVarint(|key|);
    var combined := new byte[|prefix| + |key| + HASH_LENGTH](_ => 0);
    var offset := 0;
    Fill(combined, prefix, offset);
    offset := offset + |prefix|;
    Fill(combined, key, offset);
    offset := offset + |key|;
    Fill(combined, valueHash, offset);
    b := combined[..];
    PutLebAppends(|key|, key + valueHash);
    assert (prefix + key) + valueHash == prefix + (key + valueHash);
  }

  method NodePreimage(kv: Bytes, left: Bytes, right: Bytes) returns (b: Bytes)
    requires |kv| == |left| == |right| == HASH_LENGTH
    ensures b == NodeLayout(kv, left, right)
  {
    var combined := new byte[HASH_LENGTH * 3](_ => 0);
    Fill(combined, kv, 0);
    Fill(combined, left, HASH_LENGTH);
    Fill(combined, right, HASH_LENGTH * 2);
    b := combined[..];
  }

  method CombinePreimage(a: Bytes, b: Bytes) returns (p: Bytes)
    requires |a| == |b| == HASH_LENGTH
    ensures p == CombineLayout(a, b)
  {
    var combined := new byte[HASH_LENGTH * 2](_ => 0);
    Fill(combined, a, 0);
    Fill(combined, b, HASH_LENGTH);
    p := combined[..];
  }

  // ---------- Each layout is of one set of parts ----------

  lemma ValueLayoutTells(v: Bytes, w: Bytes)
    requires |v| <= MAX_SAFE_INTEGER && |w| <= MAX_SAFE_INTEGER && ValueLayout(v) == ValueLayout(w)
    ensures v == w
  {
    hide PutLeb, ReadLeb;
    LebReads(|v|);
    LebReads(|w|);
  }

  lemma KvLayoutTells(key: Bytes, valueHash: Bytes, key': Bytes, valueHash': Bytes)
    requires |key| <= MAX_SAFE_INTEGER && |key'| <= MAX_SAFE_INTEGER
    requires KvLayout(key, valueHash) == KvLayout(key', valueHash')
    ensures key == key' && valueHash == valueHash'
  {
    hide PutLeb, ReadLeb;
    LebReads(|key|);
    LebReads(|key'|);
    assert (key + valueHash)[..|key|] == key && (key' + valueHash')[..|key'|] == key';
    assert (key + valueHash)[|key|..] == valueHash && (key' + valueHash')[|key'|..] == valueHash';
  }

  lemma NodeLayoutTells(kv: Bytes, left: Bytes, right: Bytes, kv': Bytes, left': Bytes, right': Bytes)
    requires |kv| == |kv'| && |left| == |left'|
    requires NodeLayout(kv, left, right) == NodeLayout(kv', left', right')
    ensures kv == kv' && left == left' && right == right'
  {
    var (b, b') := (NodeLayout(kv, left, right), NodeLayout(kv', left', right'));
    var (i, j) := (|kv|, |kv| + |left|);
    assert b[..i] == kv && b'[..i] == kv' && b[i..j] == left && b'[i..j] == left' && b[j..] == right && b'[j..] == right';
  }

  lemma CombineLayoutTells(a: Bytes, b: Bytes, a': Bytes, b': Bytes)
    requires |a| == |a'| && CombineLayout(a, b) == CombineLayout(a', b')
    ensures a == a' && b == b'
  {
    assert CombineLayout(a, b)[..|a|] == a && CombineLayout(a', b')[..|a|] == a';
    assert CombineLayout(a, b)[|a|..] == b && CombineLayout(a', b')[|a|..] == b';
  }

  // ---------- When layouts of different kinds coincide ----------

  lemma ShortLeb(v: nat, rest: Bytes)
    ensures v < 0x80 ==> PutLeb(v, rest) == [v as byte] + rest
    ensures v >= 0x80 ==> |PutLeb(v, rest)| > |rest| + 1
  {
    PutLebAppends(v, rest);
  }

  /** No tag tells the layouts' kinds apart, but a value's is never a key's, nor a node's two combined hashes'. */
  lemma KindsThatNeverMeet(value: Bytes, key: Bytes, h: Bytes, kv: Bytes, left: Bytes, right: Bytes, a: Bytes, b: Bytes)
    requires |value| <= MAX_SAFE_INTEGER && |key| <= MAX_SAFE_INTEGER
    requires |h| == |kv| == |left| == |right| == |a| == |b| == HASH_LENGTH
    ensures ValueLayout(value) != KvLayout(key, h)
    ensures NodeLayout(kv, left, right) != CombineLayout(a, b)
  {
    hide PutLeb, ReadLeb;
    LebReads(|value|);
    LebReads(|key|);
  }

  /**
    A value is hashed over the bytes of two combined hashes exactly when it is 63 bytes, all
    but the first of the two, which is 63; over those of a node when it is 95 of its bytes.
  */
  lemma WhenValueMeets(value: Bytes, kv: Bytes, left: Bytes, right: Bytes, a: Bytes, b: Bytes)
    requires |kv| == |left| == |right| == |a| == |b| == HASH_LENGTH
    ensures ValueLayout(value) == CombineLayout(a, b) <==> a[0] == 63 && value == a[1..] + b
    ensures ValueLayout(value) == NodeLayout(kv, left, right) <==> kv[0] == 95 && value == kv[1..] + left + right
  {
    ShortLeb(|value|, value);
    FirstAndRest(a, b);
    FirstAndRest(kv, left + right);
    assert kv[1..] + left + right == kv[1..] + (left + right) && kv + left + right == kv + (left + right);
    if |value| < 0x80 {
      PrefixedIs(|value| as byte, value, a + b);
      PrefixedIs(|value| as byte, value, kv + (left + right));
    }
  }

  /** Likewise for a key and its value hash: a key of 31 bytes, or of 63. */
  lemma WhenKvMeets(key: Bytes, h: Bytes, kv: Bytes, left: Bytes, right: Bytes, a: Bytes, b: Bytes)
    requires |h| == |kv| == |left| == |right| == |a| == |b| == HASH_LENGTH
    ensures KvLayout(key, h) == CombineLayout(a, b) <==> a[0] == 31 && key == a[1..] && h == b
    ensures KvLayout(key, h) == NodeLayout(kv, left, right) <==> kv[0] == 63 && key == kv[1..] + left && h == right
  {
    ShortLeb(|key|, key + h);
    FirstAndRest(a, b);
    FirstAndRest(kv + left, right);
    assert (kv + left)[1..] == kv[1..] + left;
    if |key| < 0x80 {
      PrefixedIs(|key| as byte, key + h, a + b);
      PrefixedIs(|key| as byte, key + h, (kv + left) + right);
      SplitIs(key, h, a[1..], b);
      SplitIs(key, h, kv[1..] + left, right);
    }
  }

  lemma FirstAndRest(a: Bytes, b: Bytes)
    requires a != []
    ensures a + b == [a[0]] + (a[1..] + b)
  {
  }

  lemma PrefixedIs(x: byte, value: Bytes, all: Bytes)
    requires all != []
    ensures [x] + value == all <==> x == all[0] && value == all[1..]
  {
    assert ([x] + value)[0] == x && ([x] + value)[1..] == value;
    assert all == [all[0]] + all[1..];
  }

  lemma SplitIs(a: Bytes, b: Bytes, a': Bytes, b': Bytes)
    requires |b| == |b'|
    ensures a + b == a' + b' <==> a == a' && b == b'
  {
    if a + b == a' + b' {
      assert |a| == |a'|;
      CombineLayoutTells(a, b, a', b');
    }
  }
}
