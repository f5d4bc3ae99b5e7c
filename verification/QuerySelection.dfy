/** The selection a query makes from proven entries, and the check of a response against it. */
module QuerySelection {
  import opened Bytes
  import opened Text
  import opened Double
  import opened JsonValue
  import opened ExactDecimal
  import opened JsonParser
  import opened JsonEquality
  import opened JsonBounds
  import opened SortKeys
  import opened StableSort
  import opened JsBinding
  import opened LayerVerifier

  datatype FieldFilter = FieldFilter(field: Text, value: NodeJson)

  datatype SortOrder = SortOrder(field: Text, descending: bool)

  datatype Selection = Selection(filters: seq<FieldFilter>, sort: Option<SortOrder>, offset: nat, limit: nat)

  datatype Selected = Selected(documents: seq<NodeJson>, total: nat)

  /** What one entry gives the selection. */
  datatype Outcome = Holds(doc: NodeJson) | Skipped | Irreproducible

  /** Every filter's field is there and equals its value. */
  predicate Matches(doc: NodeJson, filters: seq<FieldFilter>) {
    forall f <- filters ::
      FieldValue(doc, f.field).Some? && NodeEqual(FieldValue(doc, f.field).value, f.value)
  }

  /** An item's bytes, UTF-8 decoded and read as the node reads them. */
  function ReadItem(bytes: Bytes, decode: Bytes -> Option<Text>): Outcome {
    match decode(bytes)
    case None => Skipped
    case Some(t) =>
      match ReadText(t)
      case Got(v, _) => Holds(v)
      case Refused => Skipped
      case NotReproducible => Irreproducible
  }

  function EntryOutcome(e: CompleteEntry, decode: Bytes -> Option<Text>): Outcome {
    if e.element.None? then Irreproducible
    else if e.reference || !e.element.value.Item? then Skipped
    else ReadItem(e.element.value.value, decode)
  }

  /** The matching documents in key order; None where the selection can't be reproduced. */
  function SelectMatching(entries: seq<CompleteEntry>, filters: seq<FieldFilter>, decode: Bytes -> Option<Text>)
    : Option<seq<NodeJson>>
  {
    if entries == [] then Some([])
    else
      var before :- SelectMatching(entries[..|entries| - 1], filters, decode);
      match EntryOutcome(entries[|entries| - 1], decode)
      case Irreproducible => None
      case Skipped => Some(before)
      case Holds(doc) => Some(if Matches(doc, filters) then before + [doc] else before)
  }

  /** The whole selection in order. */
  ghost function InOrder(docs: seq<NodeJson>, sort: Option<SortOrder>): seq<NodeJson> {
    if sort.Some? then SortDocuments(docs, sort.value.field, sort.value.descending) else docs
  }

  ghost function Selects(entries: seq<CompleteEntry>, selection: Selection, decode: Bytes -> Option<Text>)
    : Option<Selected>
  {
    var docs :- SelectMatching(entries, selection.filters, decode);
    Some(Selected(Page(InOrder(docs, selection.sort), selection.offset, selection.limit), |docs|))
  }

  // ---------- The selection as it runs ----------

  /** JavaScript strings are shorter than 2^29 characters. */
  ghost predicate ShortTexts(decode: Bytes -> Option<Text>) {
    forall b | decode(b).Some? :: |decode(b).value| < 0x2000_0000
  }

  ghost predicate Sortable(doc: NodeJson, field: Text) {
    var v := FieldValue(doc, field);
    v.Some? && v.value.JNum? ==> IsNumber(v.value.n) && |v.value.n| < 0x4000_0000
  }

  method KeyOfDocument(doc: NodeJson, field: Text, number: Text -> F64) returns (key: SortKey)
    requires Sortable(doc, field) && RoundsShortNumbers(number)
    ensures key == KeyOf(FieldValue(doc, field))
  {
    hide RoundsShortNumbers, SortNumberOf;
    var value := FieldValue(doc, field);
    match value {
      case None => key := Missing;
      case Some(JNull) => key := NullKey;
      case Some(JBool(b)) => key := BoolKey(b);
      case Some(JNum(n)) =>
        var f := SortNumber(n, number);
        key := NumberKey(f);
      case Some(JStr(s)) => key := StringKey(s);
      case Some(JArr(_)) => key := ArrayKey;
      case Some(JObj(_)) => key := ObjectKey;
    }
  }

  /** Each document with its place and key, then sorted. */
  method SortByField(docs: seq<NodeJson>, field: Text, descending: bool, number: Text -> F64)
    returns (sorted: seq<NodeJson>)
    requires RoundsShortNumbers(number) && forall doc <- docs :: Sortable(doc, field)
    ensures sorted == SortDocuments(docs, field, descending)
  {
    hide RoundsShortNumbers, Sortable, KeyOf, SortKeyed;
    var keyed: seq<StableSort.Keyed> := [];
    for i := 0 to |docs|
      invariant |keyed| == i
      invariant forall j | 0 <= j < i :: keyed[j] == StableSort.Keyed(docs[j], j, KeyOf(FieldValue(docs[j], field)))
    {
      assert docs[i] in docs;
      var key := KeyOfDocument(docs[i], field, number);
      keyed := keyed + [StableSort.Keyed(docs[i], i, key)];
    }
    assert keyed == KeyDocs(docs, field);
    sorted := DocsOf(SortKeyed(keyed, descending));
  }

  method SelectDocuments(
    entries: seq<CompleteEntry>, selection: Selection, decode: Bytes -> Option<Text>, number: Text -> F64)
    returns (r: Option<Selected>)
    requires RoundsShortNumbers(number) && ShortTexts(decode)
    ensures r == Selects(entries, selection, decode)
  {
    hide RoundsShortNumbers, ReadText, Matches, Sortable, SortDocuments, NumbersKept;
    var selected: seq<NodeJson> := [];
    assert entries[..|entries|] == entries;
    for i := 0 to |entries|
      invariant SelectMatching(entries[..i], selection.filters, decode) == Some(selected)
      invariant forall doc <- selected :: NumbersKept(doc, 0x3FFF_FFFF)
    {
      assert entries[..i + 1][..i] == entries[..i];
      var entry := entries[i];
      if entry.element.None? {
        RestIrreproducible(entries, i + 1, selection.filters, decode);
        return None;
      }
      if entry.reference || !entry.element.value.Item? {
        continue;
      }
      var text := decode(entry.element.value.value);
      if text.None? {
        continue;
      }
      var doc := ParseText(text.value);
      if doc == Thrown(false) {
        RestIrreproducible(entries, i + 1, selection.filters, decode);
        return None;
      }
      if doc.Thrown? {
        continue;
      }
      NumbersReadAreKept(text.value, 0x3FFF_FFFF);
      if Matches(doc.value, selection.filters) {
        selected := selected + [doc.value];
      }
    }
    var ordered := selected;
    if selection.sort.Some? {
      forall doc | doc in selected
        ensures Sortable(doc, selection.sort.value.field)
      {
        KeptIsSortable(doc, selection.sort.value.field);
      }
      ordered := SortByField(selected, selection.sort.value.field, selection.sort.value.descending, number);
    }
    SortKeepsCount(selected, selection.sort);
    return Some(Selected(Page(ordered, selection.offset, selection.limit), |ordered|));
  }

  lemma {:induction false} RestIrreproducible(
    entries: seq<CompleteEntry>, i: nat, filters: seq<FieldFilter>, decode: Bytes -> Option<Text>)
    requires i <= |entries| && SelectMatching(entries[..i], filters, decode).None?
    ensures SelectMatching(entries, filters, decode).None?
    decreases |entries|
  {
    hide EntryOutcome, Matches;
    if i == |entries| {
      assert entries[..i] == entries;
    } else {
      assert entries[..|entries| - 1][..i] == entries[..i];
      RestIrreproducible(entries[..|entries| - 1], i, filters, decode);
    }
  }

  lemma KeptIsSortable(doc: NodeJson, field: Text)
    requires NumbersKept(doc, 0x3FFF_FFFF)
    ensures Sortable(doc, field)
  {
    hide IsNumber;
    KeptAt(doc, SplitDots(field), 0x3FFF_FFFF);
  }

  lemma {:induction false} KeptAt(doc: NodeJson, path: seq<Text>, bound: nat)
    requires NumbersKept(doc, bound)
    ensures ValueAt(doc, path).Some? ==> NumbersKept(ValueAt(doc, path).value, bound)
    decreases |path|
  {
    if path != [] && doc.JObj? && Lookup(doc.fields, path[0]).Some? {
      LookupGives(doc.fields, path[0]);
      KeptAt(Lookup(doc.fields, path[0]).value, path[1..], bound);
    }
  }

  lemma {:induction false} SortedCount(xs: seq<StableSort.Keyed>, descending: bool)
    ensures |SortKeyed(xs, descending)| == |xs|
  {
    if xs != [] {
      SortedCount(xs[1..], descending);
      InsertKeeps(xs[0], SortKeyed(xs[1..], descending), descending);
      assert |multiset(SortKeyed(xs, descending))| == |multiset([xs[0]] + SortKeyed(xs[1..], descending))|;
    }
  }

  lemma SortKeepsCount(docs: seq<NodeJson>, sort: Option<SortOrder>)
    ensures |InOrder(docs, sort)| == |docs|
  {
    if sort.Some? {
      SortedCount(KeyDocs(docs, sort.value.field), sort.value.descending);
    }
  }

  // ---------- The check of a response ----------

  /** A query response; None for a count that is not an integer, or documents that are no array. */
  datatype Response<D> = Response(
    documents: Option<seq<Js<D>>>, total: Option<int>, offset: Option<int>, limit: Option<int>)

  datatype Verdict = Accepted | Mismatch | NotVerifiable

  /** The response is exactly the selection: its documents in order, its counts. */
  predicate Answers<D(==)>(selected: Selected, selection: Selection, response: Response<D>, n: Numbers<D>) {
    && response.total == Some(selected.total)
    && response.offset == Some(selection.offset) && response.limit == Some(selection.limit)
    && response.documents.Some? && |response.documents.value| == |selected.documents|
    && forall i | 0 <= i < |selected.documents| :: Binds(selected.documents[i], response.documents.value[i], n)
  }

  ghost function Check<D>(
    entries: seq<CompleteEntry>, selection: Selection, response: Response<D>, decode: Bytes -> Option<Text>, n: Numbers<D>)
    : Verdict
  {
    var selected := Selects(entries, selection, decode);
    if selected.None? then NotVerifiable
    else if Answers(selected.value, selection, response, n) then Accepted
    else Mismatch
  }

  method CheckQueryResult<D(==)>(
    entries: seq<CompleteEntry>, selection: Selection, response: Response<D>,
    decode: Bytes -> Option<Text>, number: Text -> F64, n: Numbers<D>)
    returns (verdict: Verdict)
    requires RoundsShortNumbers(number) && ShortTexts(decode)
    ensures verdict == Check(entries, selection, response, decode, n)
  {
    hide RoundsShortNumbers, ShortTexts, Selects, AllExact, DeepEqual;
    var expected := SelectDocuments(entries, selection, decode, number);
    if expected.None? {
      return NotVerifiable;
    }
    if response.total != Some(expected.value.total) {
      return Mismatch;
    }
    if response.offset != Some(selection.offset) || response.limit != Some(selection.limit) {
      return Mismatch;
    }
    if response.documents.None? || |response.documents.value| != |expected.value.documents| {
      return Mismatch;
    }
    var documents := response.documents.value;
    for i := 0 to |documents|
      invariant forall j | 0 <= j < i :: Binds(expected.value.documents[j], documents[j], n)
    {
      var proven := expected.value.documents[i];
      if !AllExact(proven, n) {
        assert !Binds(proven, documents[i], n);
        return Mismatch;
      }
      if !DeepEqual(ToJs(proven, n.read), documents[i], n.safe) {
        assert !Binds(proven, documents[i], n);
        return Mismatch;
      }
    }
    return Accepted;
  }
}
