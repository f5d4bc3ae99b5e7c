/** An accepted query response is exactly the selection from the real grove's own items. */
module QuerySoundness {
  import opened Bytes
  import opened Text
  import opened JsonValue
  import opened JsonRoundTrip
  import opened JsonEquality
  import opened StableSort
  import opened JsBinding
  import opened LayerVerifier
  import opened Soundness
  import opened AbsenceSoundness
  import opened QuerySelection
  import Element
  import Grove

  /** The subtree's entries; none where there is no such subtree. */
  function EntriesAt(g: Grove.Merk, path: seq<Bytes>): seq<Grove.Entry> {
    match Grove.SubtreeAt(g, path)
    case Some(tree) => Grove.Entries(tree)
    case None => []
  }

  /** What a stored item's own bytes give a selection. */
  function StoredOutcome(s: Grove.Stored, decode: Bytes -> Option<Text>): Outcome {
    if s.Value? && Element.Deserialize(s.bytes).Some? && Element.Deserialize(s.bytes).value.Item? then
      ReadItem(Element.Deserialize(s.bytes).value.value, decode)
    else Skipped
  }

  /** The documents the entries' items hold, in key order. */
  function Documents(es: seq<Grove.Entry>, decode: Bytes -> Option<Text>): seq<NodeJson> {
    if es == [] then []
    else
      var before := Documents(es[..|es| - 1], decode);
      match StoredOutcome(es[|es| - 1].stored, decode)
      case Holds(doc) => before + [doc]
      case _ => before
  }

  function Filtered(docs: seq<NodeJson>, filters: seq<FieldFilter>): seq<NodeJson> {
    if docs == [] then []
    else
      var before := Filtered(docs[..|docs| - 1], filters);
      if Matches(docs[|docs| - 1], filters) then before + [docs[|docs| - 1]] else before
  }

  /** Every item is one whose reading the selection reproduces. */
  ghost predicate AllReproducible(es: seq<Grove.Entry>, decode: Bytes -> Option<Text>) {
    forall e <- es :: !StoredOutcome(e.stored, decode).Irreproducible?
  }

  lemma SameOutcome(c: CompleteEntry, e: Grove.Entry, decode: Bytes -> Option<Text>)
    requires CompleteEntryHolds(c, e) && Grove.WellFormedStored(e.stored)
    ensures !EntryOutcome(c, decode).Irreproducible? ==> EntryOutcome(c, decode) == StoredOutcome(e.stored, decode)
    ensures StoredOutcome(e.stored, decode).Irreproducible? ==> EntryOutcome(c, decode).Irreproducible?
  {
    hide ReadItem;
  }

  lemma FilteredGrows(docs: seq<NodeJson>, doc: NodeJson, filters: seq<FieldFilter>)
    ensures Filtered(docs + [doc], filters) == Filtered(docs, filters) + if Matches(doc, filters) then [doc] else []
  {
    hide Matches;
    assert (docs + [doc])[..|docs|] == docs;
  }

  /** Selecting entry by entry is filtering the grove's own documents. */
  lemma {:induction false} SelectionIsFiltering(
    cs: seq<CompleteEntry>, es: seq<Grove.Entry>, filters: seq<FieldFilter>, decode: Bytes -> Option<Text>)
    requires CompleteEntriesHold(cs, es) && (forall e <- es :: Grove.WellFormedStored(e.stored))
    requires SelectMatching(cs, filters, decode).Some?
    ensures SelectMatching(cs, filters, decode) == Some(Filtered(Documents(es, decode), filters))
    ensures AllReproducible(es, decode)
  {
    hide EntryOutcome, StoredOutcome, Matches, CompleteEntryHolds, Grove.WellFormedStored;
    if cs != [] {
      var n := |cs| - 1;
      assert es[n] in es && CompleteEntryHolds(cs[n], es[n]);
      SelectionIsFiltering(cs[..n], es[..n], filters, decode);
      SameOutcome(cs[n], es[n], decode);
      var outcome := StoredOutcome(es[n].stored, decode);
      if outcome.Holds? {
        FilteredGrows(Documents(es[..n], decode), outcome.doc, filters);
      }
      assert es == es[..n] + [es[n]];
    }
  }

  /** The layer's entries are those of the subtree at the path, however early the proof stopped. */
  lemma LayerIsSubtree(proof: GroveProof, path: seq<Bytes>, g: Grove.Merk)
    requires Grove.WellFormed(g) && VerifyCompleteLayer(proof, path).Some?
    requires VerifyCompleteLayer(proof, path).value.root == Grove.MerkHash(g)
    ensures CompleteEntriesHold(VerifyCompleteLayer(proof, path).value.entries, EntriesAt(g, path))
  {
    hide VerifyCompleteLayer, VerifyProof, CompleteEntryHolds, Grove.WellFormed;
    CompleteLayerSound(proof, path, g);
    var depth := VerifyProof(proof, path).value.depth;
    if depth < |path| {
      NothingBelowEmpty(g, path, depth);
    }
  }

  lemma {:induction false} SubtreeWellFormed(g: Grove.Merk, path: seq<Bytes>)
    requires Grove.WellFormed(g) && Grove.SubtreeAt(g, path).Some?
    ensures Grove.WellFormed(Grove.SubtreeAt(g, path).value)
    decreases |path|
  {
    if path != [] {
      var s := Grove.Get(g, path[0]).value;
      Grove.GetFindsEntries(g, path[0], s);
      Grove.AllEntriesWellFormed(g, Grove.Entry(path[0], s));
      SubtreeWellFormed(s.tree, path[1..]);
    }
  }

  lemma EntriesWellFormed(g: Grove.Merk, path: seq<Bytes>)
    requires Grove.WellFormed(g)
    ensures forall e <- EntriesAt(g, path) :: Grove.WellFormedStored(e.stored)
  {
    hide Grove.Entries, Grove.WellFormedAll, Grove.WellFormedStored;
    if Grove.SubtreeAt(g, path).Some? {
      SubtreeWellFormed(g, path);
      forall e | e in EntriesAt(g, path)
        ensures Grove.WellFormedStored(e.stored)
      {
        Grove.AllEntriesWellFormed(Grove.SubtreeAt(g, path).value, e);
      }
    }
  }

  /** The whole selection a query makes from a grove: its matching documents, in its order. */
  ghost function Selection(g: Grove.Merk, path: seq<Bytes>, q: QuerySelection.Selection, decode: Bytes -> Option<Text>)
    : seq<NodeJson>
  {
    QuerySelection.InOrder(Filtered(Documents(EntriesAt(g, path), decode), q.filters), q.sort)
  }

  /**
    A response accepted over a proof with a real grove's root: its total is the size of the
    selection from the grove's own items at the path, and its documents are bound, one for
    one and in order, to the page of it the query asks for.
  */
  lemma QueryResultSound<D>(
    proof: GroveProof, path: seq<Bytes>, g: Grove.Merk, q: QuerySelection.Selection, response: Response<D>,
    decode: Bytes -> Option<Text>, n: Numbers<D>)
    requires Grove.WellFormed(g) && VerifyCompleteLayer(proof, path).Some?
    requires VerifyCompleteLayer(proof, path).value.root == Grove.MerkHash(g)
    requires Check(VerifyCompleteLayer(proof, path).value.entries, q, response, decode, n) == Accepted
    ensures AllReproducible(EntriesAt(g, path), decode)
    ensures response.total == Some(|Selection(g, path, q, decode)|)
    ensures
      var page := Page(Selection(g, path, q, decode), q.offset, q.limit);
      && response.documents.Some? && |response.documents.value| == |page|
      && forall i | 0 <= i < |page| :: Binds(page[i], response.documents.value[i], n)
  {
    hide VerifyCompleteLayer, SelectMatching, Grove.WellFormed, Grove.WellFormedStored, CompleteEntriesHold,
         Binds, Filtered, Documents, AllReproducible, QuerySelection.InOrder;
    var entries, es := VerifyCompleteLayer(proof, path).value.entries, EntriesAt(g, path);
    LayerIsSubtree(proof, path, g);
    EntriesWellFormed(g, path);
    SelectionIsFiltering(entries, es, q.filters, decode);
    SortKeepsCount(Filtered(Documents(es, decode), q.filters), q.sort);
  }

  lemma {:induction false} FilteredIsSelected(docs: seq<NodeJson>, filters: seq<FieldFilter>)
    ensures forall doc :: doc in Filtered(docs, filters) <==> doc in docs && Matches(doc, filters)
  {
    hide Matches;
    if docs != [] {
      var n := |docs| - 1;
      FilteredIsSelected(docs[..n], filters);
      assert docs == docs[..n] + [docs[n]];
    }
  }

  lemma {:induction false} DocumentsAreKeyed(es: seq<Grove.Entry>, decode: Bytes -> Option<Text>)
    ensures forall doc <- Documents(es, decode) :: JsonEquality.Keyed(doc)
  {
    hide ReadText, JsonEquality.Keyed;
    if es != [] {
      DocumentsAreKeyed(es[..|es| - 1], decode);
      var s := es[|es| - 1].stored;
      if StoredOutcome(s, decode).Holds? {
        var t := decode(Element.Deserialize(s.bytes).value.value).value;
        ReadWrittenAgain(t);
        ReadableIsKeyed(StoredOutcome(s, decode).doc, MAX_NESTING);
      }
    }
  }

  lemma {:induction false} SortedFrom(docs: seq<NodeJson>, sort: Option<SortOrder>, doc: NodeJson)
    requires doc in QuerySelection.InOrder(docs, sort)
    ensures doc in docs
  {
    hide SortKeyed, Sorted;
    if sort.Some? {
      var ks := KeyDocs(docs, sort.value.field);
      OnlyStableSort(docs, sort.value.field, sort.value.descending, []);
      var i :| 0 <= i < |InOrder(docs, sort)| && InOrder(docs, sort)[i] == doc;
      var k := SortKeyed(ks, sort.value.descending)[i];
      assert k in multiset(SortKeyed(ks, sort.value.descending)) && k in ks;
    }
  }

  /** A page's documents are ones the selection holds. */
  lemma SelectedIsKeyed(
    g: Grove.Merk, path: seq<Bytes>, q: QuerySelection.Selection, decode: Bytes -> Option<Text>, doc: NodeJson)
    requires doc in Selection(g, path, q, decode)
    ensures JsonEquality.Keyed(doc)
  {
    hide Documents, Filtered, JsonEquality.Keyed, QuerySelection.InOrder, Matches;
    var docs := Documents(EntriesAt(g, path), decode);
    SortedFrom(Filtered(docs, q.filters), q.sort, doc);
    FilteredIsSelected(docs, q.filters);
    DocumentsAreKeyed(EntriesAt(g, path), decode);
  }

  ghost predicate AcceptedFor<D>(
    proof: GroveProof, path: seq<Bytes>, g: Grove.Merk, q: QuerySelection.Selection, response: Response<D>,
    decode: Bytes -> Option<Text>, n: Numbers<D>)
  {
    var layer := VerifyCompleteLayer(proof, path);
    && Grove.WellFormed(g) && layer.Some? && layer.value.root == Grove.MerkHash(g)
    && Check(layer.value.entries, q, response, decode, n) == Accepted
  }

  /**
    One response can answer for only one page: two groves it is accepted for, whatever the
    queries, select the same documents there, number for number.
  */
  lemma ResponseTellsPages<D>(
    proof1: GroveProof, path1: seq<Bytes>, g1: Grove.Merk, q1: QuerySelection.Selection,
    proof2: GroveProof, path2: seq<Bytes>, g2: Grove.Merk, q2: QuerySelection.Selection,
    response: Response<D>, decode: Bytes -> Option<Text>, n: Numbers<D>)
    requires AcceptedFor(proof1, path1, g1, q1, response, decode, n)
    requires AcceptedFor(proof2, path2, g2, q2, response, decode, n)
    requires response.documents.Some? && forall d <- response.documents.value :: JsKeyed(d)
    ensures
      var page1 := Page(Selection(g1, path1, q1, decode), q1.offset, q1.limit);
      var page2 := Page(Selection(g2, path2, q2, decode), q2.offset, q2.limit);
      |page1| == |page2| && forall i | 0 <= i < |page1| :: SameDocument(page1[i], page2[i])
  {
    hide Selection, JsonEquality.Keyed, JsKeyed, Binds, SameDocument, Check, VerifyCompleteLayer, Grove.WellFormed;
    QueryResultSound(proof1, path1, g1, q1, response, decode, n);
    QueryResultSound(proof2, path2, g2, q2, response, decode, n);
    var page1 := Page(Selection(g1, path1, q1, decode), q1.offset, q1.limit);
    var page2 := Page(Selection(g2, path2, q2, decode), q2.offset, q2.limit);
    forall i | 0 <= i < |page1|
      ensures SameDocument(page1[i], page2[i])
    {
      var returned := response.documents.value[i];
      assert returned in response.documents.value;
      SelectedIsKeyed(g1, path1, q1, decode, page1[i]);
      SelectedIsKeyed(g2, path2, q2, decode, page2[i]);
      BindingTellsDocuments(page1[i], page2[i], returned, n);
    }
  }
}
