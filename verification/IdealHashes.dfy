/**
  How far ideal hashes stand for the bytes they are: computed over the merk layouts by a hash
  function without collisions, two of them are the same bytes only when they are the same
  ideal hash, except exactly where two layouts of different kinds coincide.
*/
module IdealHashes {
  import opened Bytes
  import opened Hash
  import opened BincodeReading
  import opened MerkFormat
  import opened HashLayout

  /** The hash function, and the bytes of a hash that is none of the merk hashes. */
  datatype Bits = Bits(digest: Bytes -> Bytes, other: nat -> Bytes)

  ghost predicate Sized(b: Bits) {
    (forall x :: |b.digest(x)| == HASH_LENGTH) && (forall id :: |b.other(id)| == HASH_LENGTH)
  }

  const ZEROS: Bytes := seq(HASH_LENGTH, _ => 0)

  /** What the hash is computed over, where it is computed. */
  function Preimage(h: Hash, b: Bits): Option<Bytes>
    decreases h, 0
  {
    match h
    case Null => None
    case ValueHash(value) => Some(ValueLayout(value))
    case KvHash(key, valueHash) => Some(KvLayout(key, BytesOf(valueHash, b)))
    case NodeHash(kv, left, right) => Some(NodeLayout(BytesOf(kv, b), BytesOf(left, b), BytesOf(right, b)))
    case Combined(first, second) => Some(CombineLayout(BytesOf(first, b), BytesOf(second, b)))
    case Other(_) => None
  }

  function BytesOf(h: Hash, b: Bits): Bytes
    decreases h, 1
  {
    match h
    case Null => ZEROS
    case Other(id) => b.other(id)
    case _ => b.digest(Preimage(h, b).value)
  }

  lemma BytesOfSize(h: Hash, b: Bits)
    requires Sized(b)
    ensures |BytesOf(h, b)| == HASH_LENGTH
  {
  }

  // ---------- A family of hashes ----------

  /** With each hash its parts, and no text longer than a length can be. */
  ghost predicate Closed(s: iset<Hash>) {
    forall h <- s ::
      match h
      case Null => true
      case ValueHash(value) => |value| <= MAX_SAFE_INTEGER
      case KvHash(key, valueHash) => |key| <= MAX_SAFE_INTEGER && valueHash in s
      case NodeHash(kv, left, right) => kv in s && left in s && right in s
      case Combined(first, second) => first in s && second in s
      case Other(_) => true
  }

  /** Two of the hashes are the same bytes only when they are one hash or computed over the same bytes. */
  ghost predicate NoCollision(s: iset<Hash>, b: Bits) {
    forall h <- s, h' <- s | BytesOf(h, b) == BytesOf(h', b) && h != h' ::
      Preimage(h, b).Some? && Preimage(h, b) == Preimage(h', b)
  }

  /** Two of the hashes are the same bytes only when they are one hash. */
  ghost predicate ToldApart(s: iset<Hash>, b: Bits) {
    forall h <- s, h' <- s | BytesOf(h, b) == BytesOf(h', b) :: h == h'
  }

  /**
    The first hash is of a value or of a key, the second a combined one or a node's, and the
    value or the key is the second's bytes after the first, which is its length.
  */
  predicate Meets(h: Hash, h': Hash, b: Bits)
    requires Sized(b)
  {
    match (h, h')
    case (ValueHash(value), Combined(first, second)) =>
      BytesOfSize(first, b);
      BytesOf(first, b)[0] == 63 && value == BytesOf(first, b)[1..] + BytesOf(second, b)
    case (ValueHash(value), NodeHash(kv, left, right)) =>
      BytesOfSize(kv, b);
      BytesOf(kv, b)[0] == 95 && value == BytesOf(kv, b)[1..] + BytesOf(left, b) + BytesOf(right, b)
    case (KvHash(key, valueHash), Combined(first, second)) =>
      BytesOfSize(first, b);
      && BytesOf(first, b)[0] == 31 && key == BytesOf(first, b)[1..]
      && BytesOf(valueHash, b) == BytesOf(second, b)
    case (KvHash(key, valueHash), NodeHash(kv, left, right)) =>
      BytesOfSize(kv, b);
      && BytesOf(kv, b)[0] == 63 && key == BytesOf(kv, b)[1..] + BytesOf(left, b)
      && BytesOf(valueHash, b) == BytesOf(right, b)
    case _ => false
  }

  ghost predicate SomeMeet(s: iset<Hash>, b: Bits)
    requires Sized(b)
  {
    exists h <- s, h' <- s :: Meets(h, h', b)
  }

  lemma MeetIsSamePreimage(h: Hash, h': Hash, b: Bits)
    requires Sized(b) && (h.ValueHash? || h.KvHash?) && (h'.Combined? || h'.NodeHash?)
    ensures Meets(h, h', b) <==> Preimage(h, b) == Preimage(h', b)
  {
    hide ValueLayout, KvLayout, NodeLayout, CombineLayout;
    var valueHash := if h.KvHash? then BytesOf(h.valueHash, b) else ZEROS;
    var (x, y) := if h'.Combined? then (BytesOf(h'.first, b), BytesOf(h'.second, b)) else (ZEROS, ZEROS);
    var (kv, left, right) :=
      if h'.NodeHash? then (BytesOf(h'.kv, b), BytesOf(h'.left, b), BytesOf(h'.right, b)) else (ZEROS, ZEROS, ZEROS);
    PartsSized(h, b);
    PartsSized(h', b);
    if h.ValueHash? {
      WhenValueMeets(h.value, kv, left, right, x, y);
    } else {
      WhenKvMeets(h.key, valueHash, kv, left, right, x, y);
    }
  }

  lemma PartsSized(h: Hash, b: Bits)
    requires Sized(b)
    ensures h.KvHash? ==> |BytesOf(h.valueHash, b)| == HASH_LENGTH
    ensures h.Combined? ==> |BytesOf(h.first, b)| == |BytesOf(h.second, b)| == HASH_LENGTH
    ensures h.NodeHash? ==> |BytesOf(h.kv, b)| == |BytesOf(h.left, b)| == |BytesOf(h.right, b)| == HASH_LENGTH
  {
  }

  /** Computed over the same bytes: of one kind, with parts that are the same bytes, or meeting. */
  lemma SamePreimage(h: Hash, h': Hash, s: iset<Hash>, b: Bits)
    requires Sized(b) && Closed(s) && h in s && h' in s
    requires Preimage(h, b).Some? && Preimage(h, b) == Preimage(h', b)
    ensures
      || Meets(h, h', b) || Meets(h', h, b)
      || (h.ValueHash? && h'.ValueHash? && h.value == h'.value)
      || (h.KvHash? && h'.KvHash? && h.key == h'.key && BytesOf(h.valueHash, b) == BytesOf(h'.valueHash, b))
      || (h.NodeHash? && h'.NodeHash? && BytesOf(h.kv, b) == BytesOf(h'.kv, b)
          && BytesOf(h.left, b) == BytesOf(h'.left, b) && BytesOf(h.right, b) == BytesOf(h'.right, b))
      || (h.Combined? && h'.Combined? && BytesOf(h.first, b) == BytesOf(h'.first, b)
          && BytesOf(h.second, b) == BytesOf(h'.second, b))
  {
    hide ValueLayout, KvLayout, NodeLayout, CombineLayout, Meets;
    PartsSized(h, b);
    PartsSized(h', b);
    match h {
      case ValueHash(value) =>
        match h' {
          case ValueHash(value') => ValueLayoutTells(value, value');
          case KvHash(key, x) => KindsThatNeverMeet(value, key, BytesOf(x, b), ZEROS, ZEROS, ZEROS, ZEROS, ZEROS);
          case _ => MeetIsSamePreimage(h, h', b);
        }
      case KvHash(key, x) =>
        match h' {
          case ValueHash(value) => KindsThatNeverMeet(value, key, BytesOf(x, b), ZEROS, ZEROS, ZEROS, ZEROS, ZEROS);
          case KvHash(key', x') => KvLayoutTells(key, BytesOf(x, b), key', BytesOf(x', b));
          case _ => MeetIsSamePreimage(h, h', b);
        }
      case NodeHash(kv, l, r) =>
        match h' {
          case NodeHash(kv', l', r') =>
            NodeLayoutTells(BytesOf(kv, b), BytesOf(l, b), BytesOf(r, b), BytesOf(kv', b), BytesOf(l', b), BytesOf(r', b));
          case Combined(x, y) =>
            KindsThatNeverMeet([], [], ZEROS, BytesOf(kv, b), BytesOf(l, b), BytesOf(r, b), BytesOf(x, b), BytesOf(y, b));
          case _ => MeetIsSamePreimage(h', h, b);
        }
      case Combined(x, y) =>
        match h' {
          case Combined(x', y') => CombineLayoutTells(BytesOf(x, b), BytesOf(y, b), BytesOf(x', b), BytesOf(y', b));
          case NodeHash(kv, l, r) =>
            KindsThatNeverMeet([], [], ZEROS, BytesOf(kv, b), BytesOf(l, b), BytesOf(r, b), BytesOf(x, b), BytesOf(y, b));
          case _ => MeetIsSamePreimage(h', h, b);
        }
    }
  }

  lemma {:induction false} SameBytesSameHash(h: Hash, h': Hash, s: iset<Hash>, b: Bits)
    requires Sized(b) && Closed(s) && NoCollision(s, b) && !SomeMeet(s, b)
    requires h in s && h' in s && BytesOf(h, b) == BytesOf(h', b)
    ensures h == h'
  {
    hide Meets, BytesOf, Preimage;
    if h != h' {
      SamePreimage(h, h', s, b);
      match h {
        case ValueHash(_) =>
        case KvHash(_, x) => SameBytesSameHash(x, h'.valueHash, s, b);
        case NodeHash(kv, l, r) =>
          SameBytesSameHash(kv, h'.kv, s, b);
          SameBytesSameHash(l, h'.left, s, b);
          SameBytesSameHash(r, h'.right, s, b);
        case Combined(x, y) =>
          SameBytesSameHash(x, h'.first, s, b);
          SameBytesSameHash(y, h'.second, s, b);
      }
    }
  }

  /**
    Of any family of hashes with their parts, free of collisions: comparing bytes is
    comparing ideal hashes throughout, if and only if no two of them meet.
  */
  lemma ToldApartIffNoneMeet(s: iset<Hash>, b: Bits)
    requires Sized(b) && Closed(s) && NoCollision(s, b)
    ensures ToldApart(s, b) <==> !SomeMeet(s, b)
  {
    hide Meets, Preimage, Closed, NoCollision;
    if SomeMeet(s, b) {
      var h, h' :| h in s && h' in s && Meets(h, h', b);
      MeetersDiffer(h, h', b);
    } else {
      forall h, h' | h in s && h' in s && BytesOf(h, b) == BytesOf(h', b)
        ensures h == h'
      {
        SameBytesSameHash(h, h', s, b);
      }
    }
  }

  lemma MeetersDiffer(h: Hash, h': Hash, b: Bits)
    requires Sized(b) && Meets(h, h', b)
    ensures h != h' && BytesOf(h, b) == BytesOf(h', b)
  {
    hide ValueLayout, KvLayout, NodeLayout, CombineLayout;
    MeetIsSamePreimage(h, h', b);
  }
}
