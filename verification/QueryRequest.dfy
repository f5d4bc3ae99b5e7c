/** A query request's text, read and refused as the API does, and a whole query verified. */
module QueryRequest {
  import opened Bytes
  import opened Text
  import opened JsonNumber
  import opened JsonValue
  import opened CanonicalNumber
  import opened JsonParser
  import opened JsonPrint
  import opened JsonRoundTrip
  import opened JsonEquality
  import opened SortKeys
  import opened JsBinding
  import opened LayerVerifier
  import opened GroveVerifier
  import opened Hash
  import opened QuerySelection
  import JsonLength
  import Utf8
  import Double

  const DEFAULT_QUERY_LIMIT: nat := 100
  const U32_MAX: nat := 0xFFFF_FFFF
  const MAX_FILTER_FIELDS: nat := 32
  const MAX_FILTER_VALUE_BYTES: nat := 4096
  const MAX_FIELD_BYTES: nat := 256

  const FILTERS: Text := Ascii("filters")
  const SEARCH: Text := Ascii("search")
  const SORT: Text := Ascii("sort")
  const LIMIT: Text := Ascii("limit")
  const OFFSET: Text := Ascii("offset")
  const INCLUDE_PROOF: Text := Ascii("include_proof")
  const INCLUDES: Text := Ascii("includes")
  const FIELD: Text := Ascii("field")
  const ORDER: Text := Ascii("order")
  const ASC: Text := Ascii("asc")
  const DESC: Text := Ascii("desc")

  const QUERY_KEYS: set<Text> := {FILTERS, SEARCH, SORT, LIMIT, OFFSET, INCLUDE_PROOF, INCLUDES}
  const LOGICAL_OPERATORS: set<Text> := {Ascii("$and"), Ascii("$or"), Ascii("$not"), Ascii("$nor")}

  /** What becomes of a request before anything is sent. */
  datatype Request = Asks(selection: Selection) | RefusedRequest | NotVerifiableRequest

  // ---------- What the API takes ----------

  /** A number of digits alone, up to 2^32 - 1; `null` and nothing count as not given. */
  predicate IsU32(v: Option<NodeJson>) {
    match v
    case None => true
    case Some(JNull) => true
    case Some(JNum(n)) => n != [] && AllDigits(n) && Decimal(n) <= U32_MAX
    case _ => false
  }

  /** A filter asks for an exact value, no operator and no object, of bounded UTF-8 length. */
  ghost predicate FilterTaken(f: Field) {
    && f.key !in LOGICAL_OPERATORS && |Utf8.Encode(f.key)| <= MAX_FIELD_BYTES
    && |Utf8.Encode(Print(f.value))| <= MAX_FILTER_VALUE_BYTES && !f.value.JObj?
  }

  ghost predicate FiltersTaken(v: Option<NodeJson>) {
    match v
    case None => true
    case Some(JNull) => true
    case Some(JObj(fields)) => |fields| <= MAX_FILTER_FIELDS && forall f <- fields :: FilterTaken(f)
    case _ => false
  }

  /** `{ field, order }` and nothing else. */
  ghost predicate SortTaken(v: Option<NodeJson>) {
    match v
    case None => true
    case Some(JNull) => true
    case Some(JObj(fields)) =>
      var field, order := Lookup(fields, FIELD), Lookup(fields, ORDER);
      && |fields| == 2 && field.Some? && field.value.JStr? && order.Some? && order.value.JStr?
      && |Utf8.Encode(field.value.s)| <= MAX_FIELD_BYTES && order.value.s in {ASC, DESC}
    case _ => false
  }

  /** The API takes the body. */
  ghost predicate Taken(fields: seq<Field>) {
    && (forall f <- fields :: f.key in QUERY_KEYS)
    && FiltersTaken(Lookup(fields, FILTERS))
    && Lookup(fields, SEARCH) in {None, Some(JNull)}
    && Lookup(fields, INCLUDES) in {None, Some(JArr([]))}
    && SortTaken(Lookup(fields, SORT))
    && IsU32(Lookup(fields, LIMIT)) && IsU32(Lookup(fields, OFFSET))
    && (Lookup(fields, INCLUDE_PROOF).Some? ==>
          Lookup(fields, INCLUDE_PROOF).value.JNull? || Lookup(fields, INCLUDE_PROOF).value.JBool?)
  }

  // ---------- The selection asked for ----------

  function U32Or(v: Option<NodeJson>, fallback: nat): nat
    requires IsU32(v)
  {
    if v.Some? && v.value.JNum? then Decimal(v.value.n) else fallback
  }

  function FiltersOf(v: Option<NodeJson>): seq<FieldFilter> {
    if v.Some? && v.value.JObj? then
      seq(|v.value.fields|, i requires 0 <= i < |v.value.fields| =>
        FieldFilter(v.value.fields[i].key, v.value.fields[i].value))
    else []
  }

  ghost function SortOf(v: Option<NodeJson>): Option<SortOrder>
    requires SortTaken(v)
  {
    if v.Some? && v.value.JObj? then
      Some(SortOrder(Lookup(v.value.fields, FIELD).value.s, Lookup(v.value.fields, ORDER).value.s == DESC))
    else None
  }

  ghost function SelectionOf(fields: seq<Field>): Selection
    requires Taken(fields)
  {
    Selection(
      FiltersOf(Lookup(fields, FILTERS)), SortOf(Lookup(fields, SORT)),
      U32Or(Lookup(fields, OFFSET), 0), U32Or(Lookup(fields, LIMIT), DEFAULT_QUERY_LIMIT))
  }

  /** The request a body's text makes. */
  ghost function ReadRequest(text: Text): Request {
    match ReadText(text)
    case NotReproducible => NotVerifiableRequest
    case Refused => RefusedRequest
    case Got(v, _) => if v.JObj? && Taken(v.fields) then Asks(SelectionOf(v.fields)) else RefusedRequest
  }

  // ---------- Reading a request as it runs ----------

  method FilterRefused(f: Field, ghost room: int) returns (refused: bool)
    requires Readable(f.value, room)
    ensures refused <==> !FilterTaken(f)
  {
    hide Readable, Print, Utf8.Encode, Utf8.Length;
    Utf8.LengthIsByteCount(f.key);
    JsonLength.TextLengthIsByteCount(f.value, room);
    if f.key in LOGICAL_OPERATORS {
      return true;
    }
    if Utf8.Length(f.key) > MAX_FIELD_BYTES {
      return true;
    }
    if JsonLength.TextLength(f.value) > MAX_FILTER_VALUE_BYTES {
      return true;
    }
    return f.value.JObj?;
  }

  method FiltersRefused(v: Option<NodeJson>, ghost room: int) returns (refused: bool)
    requires v.Some? ==> Readable(v.value, room)
    ensures refused <==> !FiltersTaken(v)
  {
    hide FilterTaken;
    if v.None? || v.value.JNull? {
      return false;
    }
    if !v.value.JObj? || |v.value.fields| > MAX_FILTER_FIELDS {
      return true;
    }
    var fields := v.value.fields;
    for i := 0 to |fields|
      invariant forall j | 0 <= j < i :: FilterTaken(fields[j])
    {
      assert fields[i] in fields;
      var one := FilterRefused(fields[i], room - 1);
      if one {
        return true;
      }
    }
    return false;
  }

  method SortRefused(v: Option<NodeJson>) returns (refused: bool)
    ensures refused <==> !SortTaken(v)
  {
    hide Utf8.Encode, Utf8.Length;
    if v.None? || v.value.JNull? {
      return false;
    }
    if !v.value.JObj? {
      return true;
    }
    var field, order := Lookup(v.value.fields, FIELD), Lookup(v.value.fields, ORDER);
    if |v.value.fields| != 2 || field.None? || !field.value.JStr? || order.None? || !order.value.JStr? {
      return true;
    }
    Utf8.LengthIsByteCount(field.value.s);
    if Utf8.Length(field.value.s) > MAX_FIELD_BYTES {
      return true;
    }
    return order.value.s != ASC && order.value.s != DESC;
  }

  method QueryRefusal(fields: seq<Field>, ghost room: int) returns (refused: bool)
    requires Readable(JObj(fields), room)
    ensures refused <==> !Taken(fields)
  {
    hide FiltersTaken, SortTaken, IsU32, Lookup;
    for i := 0 to |fields|
      invariant forall j | 0 <= j < i :: fields[j].key in QUERY_KEYS
    {
      if fields[i].key !in QUERY_KEYS {
        return true;
      }
    }
    LookupReadable(fields, FILTERS, room);
    var filters := FiltersRefused(Lookup(fields, FILTERS), room - 1);
    if filters {
      return true;
    }
    var search := Lookup(fields, SEARCH);
    if search.Some? && !search.value.JNull? {
      return true;
    }
    var includes := Lookup(fields, INCLUDES);
    if includes.Some? && !(includes.value.JArr? && |includes.value.items| == 0) {
      return true;
    }
    var sort := SortRefused(Lookup(fields, SORT));
    if sort {
      return true;
    }
    if !IsU32(Lookup(fields, LIMIT)) || !IsU32(Lookup(fields, OFFSET)) {
      return true;
    }
    var includeProof := Lookup(fields, INCLUDE_PROOF);
    return includeProof.Some? && !includeProof.value.JNull? && !includeProof.value.JBool?;
  }

  lemma LookupReadable(fields: seq<Field>, key: Text, room: int)
    requires Readable(JObj(fields), room)
    ensures Lookup(fields, key).Some? ==> Readable(Lookup(fields, key).value, room - 1)
  {
    hide Readable;
    if Lookup(fields, key).Some? {
      LookupGives(fields, key);
      var i :| 0 <= i < |fields| && fields[i] == Field(key, Lookup(fields, key).value);
      FieldReadable(fields, fields[i], room);
    }
  }

  lemma FieldReadable(fields: seq<Field>, f: Field, room: int)
    requires Readable(JObj(fields), room) && f in fields
    ensures Readable(f.value, room - 1)
  {
  }

  /** The selection the API makes for a body's text, or why there is none. */
  method QuerySelectionOf(text: Text) returns (r: Request)
    ensures r == ReadRequest(text)
  {
    hide ReadText, Readable, Lookup, FilterTaken;
    var parsed := ParseText(text);
    if parsed.Thrown? {
      return if parsed.refused then RefusedRequest else NotVerifiableRequest;
    }
    if !parsed.value.JObj? {
      return RefusedRequest;
    }
    var fields := parsed.value.fields;
    TextIsReadable(text);
    var refused := QueryRefusal(fields, MAX_NESTING);
    if refused {
      return RefusedRequest;
    }
    var filters: seq<FieldFilter> := [];
    var given := Lookup(fields, FILTERS);
    if given.Some? && given.value.JObj? {
      for i := 0 to |given.value.fields|
        invariant |filters| == i && forall j | 0 <= j < i :: filters[j] == FiltersOf(given)[j]
      {
        filters := filters + [FieldFilter(given.value.fields[i].key, given.value.fields[i].value)];
      }
    }
    assert filters == FiltersOf(given);
    var sort: Option<SortOrder> := None;
    var spec := Lookup(fields, SORT);
    if spec.Some? && spec.value.JObj? {
      var field, order := Lookup(spec.value.fields, FIELD), Lookup(spec.value.fields, ORDER);
      sort := Some(SortOrder(field.value.s, order.value.s == DESC));
    }
    return Asks(Selection(
      filters, sort, U32Or(Lookup(fields, OFFSET), 0), U32Or(Lookup(fields, LIMIT), DEFAULT_QUERY_LIMIT)));
  }

  lemma TextIsReadable(text: Text)
    requires ReadText(text).Got?
    ensures Readable(ReadText(text).value, MAX_NESTING)
  {
    hide ReadValue, Readable;
    ReadIsReadable(text, 0);
  }

  // ---------- Which selections are asked for, and how ----------

  function FilterFields(filters: seq<FieldFilter>): seq<Field> {
    seq(|filters|, i requires 0 <= i < |filters| => Field(filters[i].field, filters[i].value))
  }

  function SortValue(sort: Option<SortOrder>): NodeJson {
    if sort.None? then JNull
    else JObj([Field(FIELD, JStr(sort.value.field)), Field(ORDER, JStr(if sort.value.descending then DESC else ASC))])
  }

  /** The body that asks for a selection, every member given. */
  function Body(s: Selection): NodeJson {
    JObj([
      Field(FILTERS, JObj(FilterFields(s.filters))), Field(SORT, SortValue(s.sort)),
      Field(OFFSET, JNum(NatText(s.offset))), Field(LIMIT, JNum(NatText(s.limit))), Field(INCLUDE_PROOF, JBool(true))])
  }

  /** At most 32 filters, one a field, each one the API takes and reads; bounded sort field, offset and limit. */
  ghost predicate Askable(s: Selection) {
    && |s.filters| <= MAX_FILTER_FIELDS && Readable(JObj(FilterFields(s.filters)), MAX_NESTING - 1)
    && (forall f <- FilterFields(s.filters) :: FilterTaken(f))
    && (s.sort.Some? ==> |Utf8.Encode(s.sort.value.field)| <= MAX_FIELD_BYTES)
    && s.offset <= U32_MAX && s.limit <= U32_MAX
  }

  lemma NatIsKept(n: nat)
    requires n <= U64_MAX
    ensures KeptNumber(NatText(n))
  {
    hide NatText, Write;
    var p := Parts(false, NatText(n), [], NoExponent);
    NatTextReads(n);
    SplitWrites(p);
    assert Write(p) == NatText(n) by {
      WrittenDigits(NatText(n));
    }
  }

  lemma WrittenDigits(t: Text)
    requires AllDigits(t) && t != []
    ensures Write(Parts(false, t, [], NoExponent)) == t
  {
    assert t + ([] + []) == t && [] + t == t;
  }

  lemma Words()
    ensures |FILTERS| == 7 && |SEARCH| == 6 && |SORT| == 4 && |LIMIT| == 5 && |OFFSET| == 6 && |INCLUDE_PROOF| == 13
    ensures |INCLUDES| == 8 && |FIELD| == |ORDER| == 5 && |ASC| == 3 && |DESC| == 4
    ensures SEARCH[0] != OFFSET[0] && FIELD[0] != ORDER[0]
    ensures forall t <- PrivateTokens() :: |t| > 13
  {
  }

  lemma {:induction false} LookupFirst(f: Field, rest: seq<Field>, key: Text)
    ensures Lookup([f] + rest, key) == if f.key == key then Some(f.value) else Lookup(rest, key)
  {
    assert ([f] + rest)[1..] == rest;
  }

  lemma SortReads(sort: Option<SortOrder>, room: int)
    requires room > 0 && (sort.Some? ==> |Utf8.Encode(sort.value.field)| <= MAX_FIELD_BYTES)
    ensures SortTaken(Some(SortValue(sort))) && SortOf(Some(SortValue(sort))) == sort
    ensures Readable(SortValue(sort), room)
  {
    hide Utf8.Encode;
    Words();
    if sort.Some? {
      var field := Field(FIELD, JStr(sort.value.field));
      var order := Field(ORDER, JStr(if sort.value.descending then DESC else ASC));
      assert [field] + [order] == [field, order] && [order] + [] == [order];
      LookupFirst(field, [order], FIELD);
      LookupFirst(field, [order], ORDER);
      LookupFirst(order, [], ORDER);
    }
  }

  /** The body's members, by key. */
  lemma BodyMembers(s: Selection)
    ensures
      var fields := Body(s).fields;
      && Lookup(fields, FILTERS) == Some(JObj(FilterFields(s.filters))) && Lookup(fields, SORT) == Some(SortValue(s.sort))
      && Lookup(fields, OFFSET) == Some(JNum(NatText(s.offset))) && Lookup(fields, LIMIT) == Some(JNum(NatText(s.limit)))
      && Lookup(fields, INCLUDE_PROOF) == Some(JBool(true))
      && Lookup(fields, SEARCH) == Lookup(fields, INCLUDES) == None
  {
    hide Lookup, FilterFields, SortValue, NatText;
    Words();
    var e := Field(INCLUDE_PROOF, JBool(true));
    var d, c := Field(LIMIT, JNum(NatText(s.limit))), Field(OFFSET, JNum(NatText(s.offset)));
    var b, a := Field(SORT, SortValue(s.sort)), Field(FILTERS, JObj(FilterFields(s.filters)));
    assert Body(s).fields == [a] + ([b] + ([c] + ([d] + ([e] + []))));
    forall key
      ensures Lookup(Body(s).fields, key)
           == if key == FILTERS then Some(a.value) else if key == SORT then Some(b.value)
              else if key == OFFSET then Some(c.value) else if key == LIMIT then Some(d.value)
              else if key == INCLUDE_PROOF then Some(e.value) else None
    {
      LookupFirst(a, [b] + ([c] + ([d] + ([e] + []))), key);
      LookupFirst(b, [c] + ([d] + ([e] + [])), key);
      LookupFirst(c, [d] + ([e] + []), key);
      LookupFirst(d, [e] + [], key);
      LookupFirst(e, [], key);
      LookupNothing(key);
    }
  }

  lemma BodyKeys(s: Selection)
    ensures DistinctKeys(Body(s).fields) && forall f <- Body(s).fields :: f.key in QUERY_KEYS
  {
    hide FilterFields, SortValue, NatText;
    Words();
  }

  lemma LookupNothing(key: Text)
    ensures Lookup([], key) == None
  {
  }

  lemma BodyReadable(s: Selection)
    requires Askable(s)
    ensures Readable(Body(s), MAX_NESTING)
  {
    hide KeptNumber, NatText, FilterFields, FilterTaken, PrivateTokens;
    BodyKeys(s);
    SortReads(s.sort, MAX_NESTING - 1);
    NatIsKept(s.offset);
    NatIsKept(s.limit);
    Words();
  }

  /** Every askable selection is what the compact text of its own body asks for. */
  lemma RequestReads(s: Selection)
    requires Askable(s)
    ensures ReadRequest(Print(Body(s))) == Asks(s)
  {
    hide Readable, Lookup, FilterTaken, NatText, Print, ReadText, SortTaken, SortOf, Decimal;
    BodyReadable(s);
    TextReads(Body(s));
    BodyMembers(s);
    BodyKeys(s);
    SortReads(s.sort, MAX_NESTING - 1);
    NatTextReads(s.offset);
    NatTextReads(s.limit);
    assert FiltersOf(Some(JObj(FilterFields(s.filters)))) == s.filters;
  }

  /** Whatever a text asks for is askable. */
  lemma ReadIsAskable(text: Text)
    requires ReadRequest(text).Asks?
    ensures Askable(ReadRequest(text).selection)
  {
    hide Readable, Lookup, FilterTaken, NatText, ReadText, Utf8.Encode;
    TextIsReadable(text);
    var fields := ReadText(text).value.fields;
    LookupReadable(fields, FILTERS, MAX_NESTING);
    var filters := Lookup(fields, FILTERS);
    if filters.Some? && filters.value.JObj? {
      assert FilterFields(FiltersOf(filters)) == filters.value.fields;
    } else {
      assert FilterFields(FiltersOf(filters)) == [];
      NothingReadable(MAX_NESTING - 1);
    }
  }

  lemma NothingReadable(room: int)
    requires room > 0
    ensures Readable(JObj([]), room)
  {
  }

  // ---------- A whole query ----------

  /** A whole verified query: the request, the proof, its root, then the response. */
  method VerifyQuerySelection<D(==)>(
    request: Text, proof: GroveProof, path: seq<Bytes>, response: Response<D>, expectedRoot: Option<Hash>,
    decode: Bytes -> Option<Text>, number: Text -> Double.F64, n: Numbers<D>)
    returns (root: Option<Hash>)
    requires RoundsShortNumbers(number) && ShortTexts(decode)
    ensures root.Some? <==>
            var asked, layer := ReadRequest(request), VerifyCompleteLayer(proof, path);
            && asked.Asks? && layer.Some? && (expectedRoot.Some? ==> expectedRoot == Some(layer.value.root))
            && Check(layer.value.entries, asked.selection, response, decode, n) == Accepted
    ensures root.Some? ==> root == Some(VerifyCompleteLayer(proof, path).value.root)
  {
    hide RoundsShortNumbers, ShortTexts, Check, VerifyCompleteLayer, ReadRequest;
    var asked := QuerySelectionOf(request);
    if !asked.Asks? {
      return None;
    }
    var layer := VerifyWholeSubtree(proof, path);
    if layer.None? || (expectedRoot.Some? && expectedRoot.value != layer.value.root) {
      return None;
    }
    var verdict := CheckQueryResult(layer.value.entries, asked.selection, response, decode, number, n);
    return if verdict == Accepted then Some(layer.value.root) else None;
  }
}
