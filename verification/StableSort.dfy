/** The API's stable sort: the one permutation in order, ties in their first order. */
module StableSort {
  import opened Bytes
  import opened Text
  import opened JsonValue
  import opened JsonEquality
  import opened SortKeys

  const FULL_STOP: unit := 0x2E

  /** A field path cut at its dots. */
  function SplitDots(field: Text): (parts: seq<Text>)
    ensures parts != []
  {
    if field == [] then [[]]
    else
      var rest := SplitDots(field[1..]);
      if field[0] == FULL_STOP then [[]] + rest else [[field[0]] + rest[0]] + rest[1..]
  }

  ghost function JoinDots(parts: seq<Text>): Text
    requires parts != []
  {
    if |parts| == 1 then parts[0] else parts[0] + [FULL_STOP] + JoinDots(parts[1..])
  }

  /** The parts, joined by dots, are the path again, and no part holds a dot. */
  lemma {:induction false} PartsAreThePath(field: Text)
    ensures JoinDots(SplitDots(field)) == field && forall part <- SplitDots(field) :: FULL_STOP !in part
  {
    if field != [] {
      var rest := SplitDots(field[1..]);
      PartsAreThePath(field[1..]);
      if field[0] == FULL_STOP {
        assert ([[]] + rest)[1..] == rest;
        assert [] + [FULL_STOP] + JoinDots(rest) == field;
      } else {
        var first, more := [field[0]] + rest[0], rest[1..];
        assert ([first] + more)[1..] == more;
        if more != [] {
          assert first + [FULL_STOP] + JoinDots(more) == [field[0]] + (rest[0] + [FULL_STOP] + JoinDots(more));
        }
        assert [field[0]] + field[1..] == field;
      }
    }
  }

  function ValueAt(doc: NodeJson, path: seq<Text>): Option<NodeJson>
    decreases |path|
  {
    if path == [] then Some(doc)
    else if !doc.JObj? then None
    else
      var next :- Lookup(doc.fields, path[0]);
      ValueAt(next, path[1..])
  }

  /** A document's value at a dotted field path. */
  function FieldValue(doc: NodeJson, field: Text): Option<NodeJson> {
    ValueAt(doc, SplitDots(field))
  }

  datatype Keyed = Keyed(doc: NodeJson, index: nat, key: SortKey)

  /** Which of two documents comes first: by key in the direction, then by where they were. */
  predicate Before(a: Keyed, b: Keyed, descending: bool) {
    var c := if descending then -Compare(a.key, b.key) else Compare(a.key, b.key);
    c < 0 || (c == 0 && a.index < b.index)
  }

  ghost predicate Sorted(xs: seq<Keyed>, descending: bool) {
    forall i, j | 0 <= i < j < |xs| :: Before(xs[i], xs[j], descending)
  }

  ghost predicate DistinctIndices(xs: seq<Keyed>) {
    forall i, j | 0 <= i < j < |xs| :: xs[i].index != xs[j].index
  }

  function Insert(x: Keyed, xs: seq<Keyed>, descending: bool): seq<Keyed> {
    if xs == [] || Before(x, xs[0], descending) then [x] + xs else [xs[0]] + Insert(x, xs[1..], descending)
  }

  /** JavaScript's own sort by that comparison. */
  function SortKeyed(xs: seq<Keyed>, descending: bool): seq<Keyed> {
    if xs == [] then [] else Insert(xs[0], SortKeyed(xs[1..], descending), descending)
  }

  ghost function KeyDocs(docs: seq<NodeJson>, field: Text): (ks: seq<Keyed>)
    ensures |ks| == |docs|
    ensures forall i | 0 <= i < |ks| :: ks[i] == Keyed(docs[i], i, KeyOf(FieldValue(docs[i], field)))
  {
    seq(|docs|, i requires 0 <= i < |docs| => Keyed(docs[i], i, KeyOf(FieldValue(docs[i], field))))
  }

  function DocsOf(ks: seq<Keyed>): (docs: seq<NodeJson>)
    ensures |docs| == |ks| && forall i | 0 <= i < |ks| :: docs[i] == ks[i].doc
  {
    seq(|ks|, i requires 0 <= i < |ks| => ks[i].doc)
  }

  ghost function SortDocuments(docs: seq<NodeJson>, field: Text, descending: bool): seq<NodeJson> {
    DocsOf(SortKeyed(KeyDocs(docs, field), descending))
  }

  // ---------- The comparison is a strict total order ----------

  lemma BeforeTransitive(a: Keyed, b: Keyed, c: Keyed, descending: bool)
    requires Before(a, b, descending) && Before(b, c, descending)
    ensures Before(a, c, descending)
  {
    hide Compare;
    CompareIsTotalPreorder(a.key, b.key, c.key);
    CompareIsTotalPreorder(c.key, b.key, a.key);
    CompareIsTotalPreorder(a.key, c.key, b.key);
    CompareIsTotalPreorder(b.key, c.key, a.key);
  }

  lemma BeforeTotal(a: Keyed, b: Keyed, descending: bool)
    ensures !(Before(a, b, descending) && Before(b, a, descending))
    ensures a.index != b.index ==> Before(a, b, descending) || Before(b, a, descending)
  {
    hide Compare;
    CompareIsTotalPreorder(a.key, b.key, b.key);
  }

  // ---------- Sorting sorts, and nothing else is the sorted permutation ----------

  lemma {:induction false} InsertKeeps(x: Keyed, xs: seq<Keyed>, descending: bool)
    ensures multiset(Insert(x, xs, descending)) == multiset([x] + xs)
  {
    hide Before;
    if xs != [] && !Before(x, xs[0], descending) {
      InsertKeeps(x, xs[1..], descending);
      assert xs == [xs[0]] + xs[1..];
    }
  }

  lemma FirstBefore(x: Keyed, xs: seq<Keyed>, descending: bool)
    requires Sorted(xs, descending) && forall y <- xs :: Before(x, y, descending)
    ensures Sorted([x] + xs, descending)
  {
    hide Before;
  }

  lemma {:induction false} InsertSorts(x: Keyed, xs: seq<Keyed>, descending: bool)
    requires Sorted(xs, descending) && forall y <- xs :: y.index != x.index
    ensures Sorted(Insert(x, xs, descending), descending)
  {
    hide Before;
    if xs == [] {
    } else if Before(x, xs[0], descending) {
      forall y | y in xs
        ensures Before(x, y, descending)
      {
        var i :| 0 <= i < |xs| && xs[i] == y;
        if i > 0 {
          BeforeTransitive(x, xs[0], y, descending);
        }
      }
      FirstBefore(x, xs, descending);
    } else {
      InsertSorts(x, xs[1..], descending);
      InsertKeeps(x, xs[1..], descending);
      BeforeTotal(x, xs[0], descending);
      forall y | y in Insert(x, xs[1..], descending)
        ensures Before(xs[0], y, descending)
      {
        assert y in multiset(Insert(x, xs[1..], descending));
      }
      FirstBefore(xs[0], Insert(x, xs[1..], descending), descending);
    }
  }

  lemma {:induction false} SortedPermutation(xs: seq<Keyed>, descending: bool)
    requires DistinctIndices(xs)
    ensures multiset(SortKeyed(xs, descending)) == multiset(xs)
    ensures Sorted(SortKeyed(xs, descending), descending)
  {
    if xs != [] {
      assert DistinctIndices(xs[1..]) by {
        assert forall i | 0 <= i < |xs| - 1 :: xs[1..][i] == xs[i + 1];
      }
      SortedPermutation(xs[1..], descending);
      var rest := SortKeyed(xs[1..], descending);
      forall y | y in rest
        ensures y.index != xs[0].index
      {
        assert y in multiset(rest) && y in xs[1..];
        var i :| 0 <= i < |xs| - 1 && xs[1..][i] == y;
        assert xs[i + 1] == y;
      }
      InsertKeeps(xs[0], rest, descending);
      InsertSorts(xs[0], rest, descending);
      assert xs == [xs[0]] + xs[1..];
    }
  }

  lemma {:induction false} SortedUnique(xs: seq<Keyed>, ys: seq<Keyed>, descending: bool)
    requires Sorted(xs, descending) && Sorted(ys, descending) && multiset(xs) == multiset(ys)
    ensures xs == ys
  {
    hide Before, Sorted;
    if xs == [] {
      assert |multiset(ys)| == 0;
    } else {
      assert |multiset(xs)| == |xs| && |multiset(ys)| == |ys|;
      SameFirst(xs, ys, descending);
      TailMultiset(xs);
      TailMultiset(ys);
      TailSorted(xs, descending);
      TailSorted(ys, descending);
      SortedUnique(xs[1..], ys[1..], descending);
      assert xs == [xs[0]] + xs[1..] && ys == [ys[0]] + ys[1..];
    }
  }

  lemma TailMultiset(xs: seq<Keyed>)
    requires xs != []
    ensures multiset(xs[1..]) == multiset(xs) - multiset{xs[0]}
  {
    assert xs == [xs[0]] + xs[1..];
  }

  lemma TailSorted(xs: seq<Keyed>, descending: bool)
    requires xs != [] && Sorted(xs, descending)
    ensures Sorted(xs[1..], descending)
  {
    hide Before;
    forall i, j | 0 <= i < j < |xs[1..]|
      ensures Before(xs[1..][i], xs[1..][j], descending)
    {
      assert Before(xs[i + 1], xs[j + 1], descending);
    }
  }

  lemma SameFirst(xs: seq<Keyed>, ys: seq<Keyed>, descending: bool)
    requires xs != [] && ys != []
    requires Sorted(xs, descending) && Sorted(ys, descending) && multiset(xs) == multiset(ys)
    ensures xs[0] == ys[0]
  {
    hide Before;
    assert xs[0] in multiset(ys) && ys[0] in multiset(xs);
    var i :| 0 <= i < |ys| && ys[i] == xs[0];
    var j :| 0 <= j < |xs| && xs[j] == ys[0];
    if i > 0 && j > 0 {
      assert Before(ys[0], xs[0], descending) && Before(xs[0], ys[0], descending);
      BeforeTotal(xs[0], ys[0], descending);
    }
  }

  /** Sorting gives the one stable sorted permutation: whatever is one is it. */
  lemma OnlyStableSort(docs: seq<NodeJson>, field: Text, descending: bool, ys: seq<Keyed>)
    ensures
      var ks := SortKeyed(KeyDocs(docs, field), descending);
      multiset(ks) == multiset(KeyDocs(docs, field)) && Sorted(ks, descending)
    ensures Sorted(ys, descending) && multiset(ys) == multiset(KeyDocs(docs, field)) ==>
              DocsOf(ys) == SortDocuments(docs, field, descending)
  {
    hide Before;
    SortedPermutation(KeyDocs(docs, field), descending);
    if Sorted(ys, descending) && multiset(ys) == multiset(KeyDocs(docs, field)) {
      SortedUnique(ys, SortKeyed(KeyDocs(docs, field), descending), descending);
    }
  }

  // ---------- Pages ----------

  /** The items from `offset`, at most `limit` of them. */
  function Page<T>(s: seq<T>, offset: nat, limit: nat): seq<T> {
    if offset >= |s| then []
    else if offset + limit >= |s| then s[offset..]
    else s[offset..offset + limit]
  }

  /** Consecutive pages of one size. */
  function Pages<T>(s: seq<T>, size: nat, count: nat): seq<T> {
    if count == 0 then [] else Pages(s, size, count - 1) + Page(s, (count - 1) * size, size)
  }

  /** Enough consecutive pages are the whole selection, none of it twice. */
  lemma {:induction false} PagesAreWhole<T>(s: seq<T>, size: nat, count: nat)
    ensures Pages(s, size, count) == if count * size >= |s| then s else s[..count * size]
  {
    if count > 0 {
      PagesAreWhole(s, size, count - 1);
      NextPage(count, size);
    }
  }

  lemma NextPage(count: nat, size: nat)
    requires count > 0
    ensures count * size == (count - 1) * size + size
  {
  }
}
