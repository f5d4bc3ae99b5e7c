/**
  What a proof is about: a grove of merk trees. Each tree is a binary search tree of keys;
  a stored element is a value, a reference (hashed with the bytes it refers to), or a
  subtree, whose own tree's root hash is hashed into it.
*/
module Grove {
  import opened Bytes
  import opened Hash
  import Element

  datatype Stored =
    | Value(bytes: Bytes)
    | Reference(bytes: Bytes, target: Bytes)
    | Subtree(bytes: Bytes, tree: Merk)

  datatype Merk = Empty | Branch(key: Bytes, stored: Stored, left: Merk, right: Merk)

  datatype Entry = Entry(key: Bytes, stored: Stored)

  function StoredHash(s: Stored): Hash {
    match s
    case Value(bytes) => ValueHash(bytes)
    case Reference(bytes, target) => Combined(ValueHash(bytes), ValueHash(target))
    case Subtree(bytes, tree) => Combined(ValueHash(bytes), MerkHash(tree))
  }

  function MerkHash(m: Merk): Hash {
    match m
    case Empty => Null
    case Branch(key, stored, left, right) =>
      NodeHash(KvHash(key, StoredHash(stored)), MerkHash(left), MerkHash(right))
  }

  /** The tree's entries, left to right. */
  function Entries(m: Merk): seq<Entry> {
    match m
    case Empty => []
    case Branch(key, stored, left, right) => Entries(left) + [Entry(key, stored)] + Entries(right)
  }

  ghost predicate Ordered(es: seq<Entry>) {
    forall i, j | 0 <= i < j < |es| :: Less(es[i].key, es[j].key)
  }

  /** The element bytes are of the kind stored: only a subtree's read as a subtree. */
  ghost predicate WellFormedStored(s: Stored)
    decreases s, 0
  {
    match s
    case Value(bytes) => !Element.TreeBytes(bytes)
    case Reference(bytes, _) => !Element.TreeBytes(bytes)
    case Subtree(bytes, tree) =>
      && Element.TreeBytes(bytes) && (Element.RootedTreeBytes(bytes) <==> tree != Empty)
      && WellFormed(tree)
  }

  ghost predicate WellFormedAll(m: Merk)
    decreases m, 0
  {
    match m
    case Empty => true
    case Branch(_, stored, left, right) =>
      WellFormedStored(stored) && WellFormedAll(left) && WellFormedAll(right)
  }

  /** A real grove's tree: a search tree of well-formed elements, through every subtree. */
  ghost predicate WellFormed(m: Merk)
    decreases m, 1
  {
    Ordered(Entries(m)) && WellFormedAll(m)
  }

  /** What is stored under `key`, found as in any search tree. */
  function Get(m: Merk, key: Bytes): Option<Stored> {
    match m
    case Empty => None
    case Branch(k, stored, left, right) =>
      if key == k then Some(stored) else if Less(key, k) then Get(left, key) else Get(right, key)
  }

  /** The subtree at a path of keys, if there is one. */
  function SubtreeAt(m: Merk, path: seq<Bytes>): Option<Merk>
    decreases |path|
  {
    if path == [] then Some(m)
    else
      match Get(m, path[0])
      case Some(Subtree(_, tree)) => SubtreeAt(tree, path[1..])
      case _ => None
  }

  lemma OrderedParts(m: Merk)
    requires m.Branch? && Ordered(Entries(m))
    ensures Ordered(Entries(m.left)) && Ordered(Entries(m.right))
    ensures forall e <- Entries(m.left) :: Less(e.key, m.key)
    ensures forall e <- Entries(m.right) :: Less(m.key, e.key)
  {
    var l, r, es := Entries(m.left), Entries(m.right), Entries(m);
    assert es[|l|].key == m.key;
    forall i | 0 <= i < |l|
      ensures es[i] == l[i]
    {
    }
    forall i | 0 <= i < |r|
      ensures es[|l| + 1 + i] == r[i]
    {
    }
  }

  /** In an ordered tree, the search finds exactly the entries. */
  lemma {:induction false} GetFindsEntries(m: Merk, key: Bytes, s: Stored)
    requires Ordered(Entries(m))
    ensures Get(m, key) == Some(s) <==> Entry(key, s) in Entries(m)
  {
    if m.Branch? {
      OrderedParts(m);
      GetFindsEntries(m.left, key, s);
      GetFindsEntries(m.right, key, s);
      LessTotal(key, m.key);
      LessIrreflexive(key);
      if Less(key, m.key) {
        LessAsymmetric(key, m.key);
      }
      if Less(m.key, key) {
        LessAsymmetric(m.key, key);
      }
    }
  }

  lemma {:induction false} AllEntriesWellFormed(m: Merk, e: Entry)
    requires WellFormedAll(m) && e in Entries(m)
    ensures WellFormedStored(e.stored)
  {
    if e in Entries(m.left) {
      AllEntriesWellFormed(m.left, e);
    } else if e in Entries(m.right) {
      AllEntriesWellFormed(m.right, e);
    }
  }

  /** A path walked in two parts. */
  lemma {:induction false} SubtreeAtSplit(m: Merk, p: seq<Bytes>, q: seq<Bytes>)
    requires SubtreeAt(m, p).Some?
    ensures SubtreeAt(m, p + q) == SubtreeAt(SubtreeAt(m, p).value, q)
    decreases |p|
  {
    if p == [] {
      assert p + q == q;
    } else {
      assert (p + q)[1..] == p[1..] + q;
      SubtreeAtSplit(Get(m, p[0]).value.tree, p[1..], q);
    }
  }
}
