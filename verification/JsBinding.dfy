/** Binding a returned JavaScript value to a proven document: exact numbers, equal structure. */
module JsBinding {
  import opened Bytes
  import opened Text
  import opened ExactDecimal
  import opened JsonValue
  import opened JsonPrint
  import opened JsonEquality

  /** A JavaScript value `JSON.parse` can give; `D` is its numbers. */
  datatype Js<D> =
    | JsNull
    | JsBool(b: bool)
    | JsNumber(d: D)
    | JsString(s: Text)
    | JsArray(items: seq<Js<D>>)
    | JsObject(fields: seq<JsField<D>>)

  datatype JsField<D> = JsField(key: Text, value: Js<D>)

  /** JavaScript's own number reading and writing, and which numbers a binding takes. */
  datatype Numbers<!D> = Numbers(read: Text -> D, write: D -> Text, finite: D -> bool, safe: D -> bool)

  /** The JavaScript value of a document. */
  function ToJs<D>(v: NodeJson, read: Text -> D): Js<D>
    decreases v, 0
  {
    match v
    case JNull => JsNull
    case JBool(b) => JsBool(b)
    case JNum(n) => JsNumber(read(n))
    case JStr(s) => JsString(s)
    case JArr(items) => JsArray(ItemsToJs(items, read))
    case JObj(fields) => JsObject(FieldsToJs(fields, read))
  }

  function ItemsToJs<D>(items: seq<NodeJson>, read: Text -> D): (js: seq<Js<D>>)
    ensures |js| == |items| && forall i | 0 <= i < |items| :: js[i] == ToJs(items[i], read)
    decreases items, 1
  {
    if items == [] then [] else [ToJs(items[0], read)] + ItemsToJs(items[1..], read)
  }

  function FieldsToJs<D>(fields: seq<Field>, read: Text -> D): (js: seq<JsField<D>>)
    ensures |js| == |fields|
    ensures forall i | 0 <= i < |fields| :: js[i].key == fields[i].key && js[i].value == ToJs(fields[i].value, read)
    decreases fields, 1
  {
    if fields == [] then []
    else [JsField(fields[0].key, ToJs(fields[0].value, read))] + FieldsToJs(fields[1..], read)
  }

  function Own<D>(fields: seq<JsField<D>>, key: Text): Option<Js<D>> {
    if fields == [] then None
    else if fields[0].key == key then Some(fields[0].value)
    else Own(fields[1..], key)
  }

  /** Structural equality; numbers the same and ones a binding takes. */
  predicate DeepEqual<D(==)>(a: Js<D>, b: Js<D>, safe: D -> bool)
    decreases a
  {
    match (a, b)
    case (JsNull, JsNull) => true
    case (JsBool(x), JsBool(y)) => x == y
    case (JsNumber(x), JsNumber(y)) => x == y && safe(x)
    case (JsString(x), JsString(y)) => x == y
    case (JsArray(xs), JsArray(ys)) => |xs| == |ys| && forall i | 0 <= i < |xs| :: DeepEqual(xs[i], ys[i], safe)
    case (JsObject(xs), JsObject(ys)) =>
      |xs| == |ys| && forall f <- xs :: Own(ys, f.key).Some? && DeepEqual(f.value, Own(ys, f.key).value, safe)
    case _ => false
  }

  /** Every number in the document is one JavaScript carries exactly. */
  predicate AllExact<D>(v: NodeJson, n: Numbers<D>)
    decreases v
  {
    match v
    case JNum(t) => IsExactJsonNumber(t, n.read, n.finite, n.write)
    case JArr(items) => forall x <- items :: AllExact(x, n)
    case JObj(fields) => forall f <- fields :: AllExact(f.value, n)
    case _ => true
  }

  /** The returned value is bound to the proven document. */
  predicate Binds<D(==)>(proven: NodeJson, returned: Js<D>, n: Numbers<D>) {
    AllExact(proven, n) && DeepEqual(ToJs(proven, n.read), returned, n.safe)
  }

  ghost predicate SameNumber(a: Text, b: Text) {
    IsNumber(a) && IsNumber(b) && NumberValue(a) == NumberValue(b)
  }

  /** The same structure, and the same exact numbers. */
  ghost predicate SameDocument(a: NodeJson, b: NodeJson) {
    SameBy(a, b, (x, y) => SameNumber(x, y))
  }

  ghost predicate JsKeyed<D>(v: Js<D>) {
    match v
    case JsArray(items) => forall x <- items :: JsKeyed(x)
    case JsObject(fields) =>
      && (forall i, j | 0 <= i < j < |fields| :: fields[i].key != fields[j].key)
      && forall f <- fields :: JsKeyed(f.value)
    case _ => true
  }

  lemma {:induction false} OwnGives<D>(fields: seq<JsField<D>>, key: Text)
    requires Own(fields, key).Some?
    ensures JsField(key, Own(fields, key).value) in fields
  {
    if fields[0].key != key {
      OwnGives(fields[1..], key);
      assert JsField(key, Own(fields, key).value) in fields[1..];
    }
  }

  /** Own properties of a converted object are its fields, converted. */
  lemma {:induction false} FieldOwned<D>(fields: seq<Field>, f: Field, read: Text -> D)
    requires f in fields
    ensures exists g <- FieldsToJs(fields, read) :: g.key == f.key && g.value == ToJs(f.value, read)
  {
    var i :| 0 <= i < |fields| && fields[i] == f;
    assert FieldsToJs(fields, read)[i] in FieldsToJs(fields, read);
  }

  lemma {:induction false} KeysOf<D>(fields: seq<Field>, js: seq<JsField<D>>)
    requires DistinctKeys(fields) && |js| == |fields|
    requires forall f <- fields :: Own(js, f.key).Some?
    requires forall i, j | 0 <= i < j < |js| :: js[i].key != js[j].key
    ensures forall g <- js :: exists f <- fields :: f.key == g.key
  {
    var ks, js' := KeySet(fields), set g | g in js :: g.key;
    forall k | k in ks
      ensures k in js'
    {
      OwnGives(js, k);
    }
    KeyCount(fields);
    JsKeyCount(js);
    SubsetOfSameSize(ks, js');
    forall g | g in js
      ensures exists f <- fields :: f.key == g.key
    {
      assert g.key in ks;
    }
  }

  lemma {:induction false} JsKeyCount<D>(js: seq<JsField<D>>)
    requires forall i, j | 0 <= i < j < |js| :: js[i].key != js[j].key
    ensures |set g | g in js :: g.key| == |js|
  {
    var all := set g | g in js :: g.key;
    if js == [] {
      assert all == {};
    } else {
      var n := |js| - 1;
      JsKeyCount(js[..n]);
      var rest := set g | g in js[..n] :: g.key;
      assert js == js[..n] + [js[n]];
      assert all == rest + {js[n].key};
      assert js[n].key !in rest;
    }
  }

  /** Two proven documents bound to one returned value are the same document, number for number. */
  lemma {:induction false} BindingTellsDocuments<D>(a: NodeJson, b: NodeJson, r: Js<D>, n: Numbers<D>)
    requires Keyed(a) && Keyed(b) && JsKeyed(r)
    requires Binds(a, r, n) && Binds(b, r, n)
    ensures SameDocument(a, b)
    decreases a
  {
    match a
    case JNum(x) => ExactTextsAreTold(x, b.n, n.read, n.finite, n.write);
    case JArr(xs) => ArraysTold(xs, b.items, r.items, n);
    case JObj(xs) => ObjectsTold(xs, b.fields, r.fields, n);
    case _ =>
  }

  lemma {:induction false} ArraysTold<D>(xs: seq<NodeJson>, ys: seq<NodeJson>, rs: seq<Js<D>>, n: Numbers<D>)
    requires Keyed(JArr(xs)) && Keyed(JArr(ys)) && JsKeyed(JsArray(rs))
    requires Binds(JArr(xs), JsArray(rs), n) && Binds(JArr(ys), JsArray(rs), n)
    ensures SameDocument(JArr(xs), JArr(ys))
    decreases xs
  {
    forall i | 0 <= i < |xs|
      ensures SameDocument(xs[i], ys[i])
    {
      assert xs[i] in xs && ys[i] in ys && rs[i] in rs;
      assert DeepEqual(ItemsToJs(xs, n.read)[i], rs[i], n.safe) && DeepEqual(ItemsToJs(ys, n.read)[i], rs[i], n.safe);
      BindingTellsDocuments(xs[i], ys[i], rs[i], n);
    }
  }

  lemma {:induction false} ObjectsTold<D>(xs: seq<Field>, ys: seq<Field>, rs: seq<JsField<D>>, n: Numbers<D>)
    requires Keyed(JObj(xs)) && Keyed(JObj(ys)) && JsKeyed(JsObject(rs))
    requires Binds(JObj(xs), JsObject(rs), n) && Binds(JObj(ys), JsObject(rs), n)
    ensures SameDocument(JObj(xs), JObj(ys))
    decreases xs
  {
    BoundFields(xs, rs, n);
    BoundFields(ys, rs, n);
    KeysOf(ys, rs);
    forall f | f in xs
      ensures Lookup(ys, f.key).Some? && SameDocument(f.value, Lookup(ys, f.key).value)
    {
      OwnGives(rs, f.key);
      var r := Own(rs, f.key).value;
      var g :| g in ys && g.key == f.key;
      LookupFinds(ys, g);
      assert JsField(f.key, r) in rs;
      BindingTellsDocuments(f.value, g.value, r, n);
    }
  }

  /** Each field of a bound object is bound to the returned object's own property of its key. */
  lemma {:induction false} BoundFields<D>(xs: seq<Field>, rs: seq<JsField<D>>, n: Numbers<D>)
    requires Binds(JObj(xs), JsObject(rs), n)
    ensures |xs| == |rs|
    ensures forall f <- xs :: Own(rs, f.key).Some? && Binds(f.value, Own(rs, f.key).value, n)
  {
    forall f | f in xs
      ensures Own(rs, f.key).Some? && Binds(f.value, Own(rs, f.key).value, n)
    {
      FieldOwned(xs, f, n.read);
    }
  }
}
