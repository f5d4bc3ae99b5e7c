/** The node's equality of values, and the equality that binds a returned JavaScript value to a proven one. */
module JsonEquality {
  import opened Bytes
  import opened Text
  import opened ExactDecimal
  import opened JsonValue
  import opened JsonPrint

  // ---------- Objects by key ----------

  function Lookup(fields: seq<Field>, key: Text): Option<NodeJson> {
    if fields == [] then None
    else if fields[0].key == key then Some(fields[0].value)
    else Lookup(fields[1..], key)
  }

  lemma {:induction false} LookupFinds(fields: seq<Field>, f: Field)
    requires DistinctKeys(fields) && f in fields
    ensures Lookup(fields, f.key) == Some(f.value)
  {
    if fields[0] != f {
      var i :| 0 <= i < |fields| && fields[i] == f;
      assert fields[0].key != fields[i].key;
      assert f == fields[1..][i - 1];
      RestDistinct(fields);
      LookupFinds(fields[1..], f);
    }
  }

  lemma RestDistinct(fields: seq<Field>)
    requires DistinctKeys(fields) && fields != []
    ensures DistinctKeys(fields[1..]) && forall f <- fields[1..] :: f.key != fields[0].key
  {
    forall f | f in fields[1..]
      ensures f.key != fields[0].key
    {
      var i :| 0 <= i < |fields| - 1 && fields[1..][i] == f;
      assert fields[i + 1] == f;
    }
  }

  lemma {:induction false} LookupGives(fields: seq<Field>, key: Text)
    requires Lookup(fields, key).Some?
    ensures Field(key, Lookup(fields, key).value) in fields
  {
    if fields[0].key != key {
      LookupGives(fields[1..], key);
      assert Field(key, Lookup(fields, key).value) in fields[1..];
    }
  }

  ghost function KeySet(fields: seq<Field>): set<Text> {
    set f | f in fields :: f.key
  }

  lemma {:induction false} KeyCount(fields: seq<Field>)
    requires DistinctKeys(fields)
    ensures |KeySet(fields)| == |fields|
  {
    if fields == [] {
      assert KeySet(fields) == {};
    } else {
      RestDistinct(fields);
      KeyCount(fields[1..]);
      assert KeySet(fields) == KeySet(fields[1..]) + {fields[0].key} by {
        forall f | f in fields
          ensures f.key in KeySet(fields[1..]) + {fields[0].key}
        {
          if f != fields[0] {
            var i :| 0 <= i < |fields| && fields[i] == f;
            assert f == fields[1..][i - 1];
          }
        }
        assert forall f <- fields[1..] :: f in fields;
      }
      assert fields[0].key !in KeySet(fields[1..]);
    }
  }

  lemma SubsetOfSameSize<T>(a: set<T>, b: set<T>)
    requires a <= b && |a| == |b|
    ensures a == b
  {
    if !(b <= a) {
      var x :| x in b && x !in a;
      SubsetSmaller(a, b - {x});
    }
  }

  lemma {:induction false} SubsetSmaller<T>(a: set<T>, b: set<T>)
    requires a <= b
    ensures |a| <= |b|
  {
    if a != {} {
      var x :| x in a;
      SubsetSmaller(a - {x}, b - {x});
    }
  }

  /** As many fields, and every key of one in the other: then every key of the other in the one. */
  lemma SameKeys(a: seq<Field>, b: seq<Field>, g: Field)
    requires DistinctKeys(a) && DistinctKeys(b) && |a| == |b| && g in b
    requires forall f <- a :: Lookup(b, f.key).Some?
    ensures Lookup(a, g.key).Some?
  {
    forall k | k in KeySet(a)
      ensures k in KeySet(b)
    {
      var f :| f in a && f.key == k;
      LookupGives(b, k);
    }
    KeyCount(a);
    KeyCount(b);
    SubsetOfSameSize(KeySet(a), KeySet(b));
    assert g.key in KeySet(a);
    var f :| f in a && f.key == g.key;
    LookupFinds(a, f);
  }

  /** A JavaScript map has one entry a key. */
  ghost predicate Keyed(v: NodeJson) {
    match v
    case JArr(items) => forall x <- items :: Keyed(x)
    case JObj(fields) => DistinctKeys(fields) && forall f <- fields :: Keyed(f.value)
    case _ => true
  }

  lemma {:induction false} ReadableIsKeyed(v: NodeJson, room: int)
    requires Readable(v, room)
    ensures Keyed(v)
    decreases v
  {
    match v
    case JArr(items) =>
      forall x | x in items
        ensures Keyed(x)
      {
        ReadableIsKeyed(x, room - 1);
      }
    case JObj(fields) =>
      forall f | f in fields
        ensures Keyed(f.value)
      {
        ReadableIsKeyed(f.value, room - 1);
      }
    case _ =>
  }

  // ---------- Equality up to a relation on numbers ----------

  /** Equal in structure, objects by key, numbers as `same` has it. */
  predicate SameBy(a: NodeJson, b: NodeJson, same: (Text, Text) -> bool)
    decreases a
  {
    match (a, b)
    case (JNull, JNull) => true
    case (JBool(x), JBool(y)) => x == y
    case (JNum(x), JNum(y)) => same(x, y)
    case (JStr(x), JStr(y)) => x == y
    case (JArr(xs), JArr(ys)) => |xs| == |ys| && forall i | 0 <= i < |xs| :: SameBy(xs[i], ys[i], same)
    case (JObj(xs), JObj(ys)) =>
      |xs| == |ys| && forall f <- xs :: Lookup(ys, f.key).Some? && SameBy(f.value, Lookup(ys, f.key).value, same)
    case _ => false
  }

  /** The node's filter equality. */
  predicate NodeEqual(a: NodeJson, b: NodeJson) {
    SameBy(a, b, NumbersEqual)
  }

  lemma {:induction false} SameReflexive(a: NodeJson, same: (Text, Text) -> bool)
    requires Keyed(a) && forall x :: same(x, x)
    ensures SameBy(a, a, same)
    decreases a
  {
    match a
    case JArr(items) =>
      forall i | 0 <= i < |items|
        ensures SameBy(items[i], items[i], same)
      {
        assert items[i] in items;
        SameReflexive(items[i], same);
      }
    case JObj(fields) =>
      forall f | f in fields
        ensures Lookup(fields, f.key) == Some(f.value) && SameBy(f.value, f.value, same)
      {
        LookupFinds(fields, f);
        SameReflexive(f.value, same);
      }
    case _ =>
  }

  lemma {:induction false} SameSymmetric(a: NodeJson, b: NodeJson, same: (Text, Text) -> bool)
    requires Keyed(a) && Keyed(b) && SameBy(a, b, same) && forall x, y | same(x, y) :: same(y, x)
    ensures SameBy(b, a, same)
    decreases a
  {
    match a
    case JArr(xs) =>
      forall i | 0 <= i < |xs|
        ensures SameBy(b.items[i], xs[i], same)
      {
        assert xs[i] in xs && b.items[i] in b.items;
        SameSymmetric(xs[i], b.items[i], same);
      }
    case JObj(xs) =>
      forall g | g in b.fields
        ensures Lookup(xs, g.key).Some? && SameBy(g.value, Lookup(xs, g.key).value, same)
      {
        SameKeys(xs, b.fields, g);
        LookupGives(xs, g.key);
        LookupFinds(b.fields, g);
        SameSymmetric(Lookup(xs, g.key).value, g.value, same);
      }
    case _ =>
  }

  lemma {:induction false} SameTransitive(a: NodeJson, b: NodeJson, c: NodeJson, same: (Text, Text) -> bool)
    requires SameBy(a, b, same) && SameBy(b, c, same)
    requires forall x, y, z | same(x, y) && same(y, z) :: same(x, z)
    ensures SameBy(a, c, same)
    decreases a
  {
    match a
    case JArr(xs) =>
      forall i | 0 <= i < |xs|
        ensures SameBy(xs[i], c.items[i], same)
      {
        SameTransitive(xs[i], b.items[i], c.items[i], same);
      }
    case JObj(xs) =>
      forall f | f in xs
        ensures Lookup(c.fields, f.key).Some? && SameBy(f.value, Lookup(c.fields, f.key).value, same)
      {
        LookupGives(b.fields, f.key);
        var y := Lookup(b.fields, f.key).value;
        SameTransitive(f.value, y, Lookup(c.fields, f.key).value, same);
      }
    case _ =>
  }

  /** The node's equality is an equivalence on all values. */
  lemma NodeEqualIsEquivalence(a: NodeJson, b: NodeJson, c: NodeJson)
    requires Keyed(a) && Keyed(b) && Keyed(c)
    ensures NodeEqual(a, a)
    ensures NodeEqual(a, b) ==> NodeEqual(b, a)
    ensures NodeEqual(a, b) && NodeEqual(b, c) ==> NodeEqual(a, c)
  {
    hide SameBy, NumbersEqual;
    forall x, y, z
      ensures NumbersEqual(x, x)
      ensures NumbersEqual(x, y) ==> NumbersEqual(y, x)
      ensures NumbersEqual(x, y) && NumbersEqual(y, z) ==> NumbersEqual(x, z)
    {
      NumbersEqualIsEquivalence(x, y, z);
    }
    SameReflexive(a, NumbersEqual);
    if NodeEqual(a, b) {
      SameSymmetric(a, b, NumbersEqual);
      if NodeEqual(b, c) {
        SameTransitive(a, b, c, NumbersEqual);
      }
    }
  }
}
