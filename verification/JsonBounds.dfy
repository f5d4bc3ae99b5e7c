/** The numbers of a value read are number texts not much longer than the text they were read from. */
module JsonBounds {
  import opened Text
  import opened Powers
  import opened JsonNumber
  import opened ExactDecimal
  import opened CanonicalNumber
  import opened JsonValue
  import opened JsonRoundTrip

  /** Every number is a number text of at most `bound` characters. */
  ghost predicate NumbersKept(v: NodeJson, bound: nat) {
    match v
    case JNum(n) => IsNumber(n) && |n| <= bound
    case JArr(items) => forall x <- items :: NumbersKept(x, bound)
    case JObj(fields) => forall f <- fields :: NumbersKept(f.value, bound)
    case _ => true
  }

  lemma {:induction false} NatTextLength(n: nat, digits: nat)
    requires digits > 0 && n < IntPow(10, digits)
    ensures |NatText(n)| <= digits
  {
    assert IntPow(10, 1) == 10 * IntPow(10, 0);
    if n >= 10 {
      assert IntPow(10, digits) == 10 * IntPow(10, digits - 1);
      NatTextLength(n / 10, digits - 1);
    }
  }

  lemma TwentyDigits()
    ensures IntPow(10, 20) == 1_0000_0000_0000_0000_0000
  {
    assert IntPow(10, 4) == 1_0000;
    assert IntPow(10, 8) == 1_0000_0000;
    assert IntPow(10, 12) == 1_0000_0000_0000;
    assert IntPow(10, 16) == 1_0000_0000_0000_0000;
  }

  lemma CanonicalLength(token: Text)
    requires IsNumber(token)
    ensures |Canonical(token)| <= |token| + 21
  {
    hide Split, NatText;
    SplitIsWritten(token);
    var p := Split(token).value;
    if p.fraction == [] && p.exponent.NoExponent? && FitsInteger(p.negative, Decimal(p.whole)) {
      TwentyDigits();
      NatTextLength(Decimal(p.whole), 20);
    }
  }

  lemma TokenLength(t: Text)
    requires ReadNumber(t).Got?
    ensures NumbersKept(ReadNumber(t).value, |t| + 21)
  {
    hide Canonical, AfterNumber;
    TokenIsKept(t);
    CanonicalLength(NumberToken(t));
  }

  lemma {:induction false} KeptGrows(v: NodeJson, small: nat, large: nat)
    requires NumbersKept(v, small) && small <= large
    ensures NumbersKept(v, large)
    decreases v
  {
    match v
    case JArr(items) =>
      forall x | x in items
        ensures NumbersKept(x, large)
      {
        KeptGrows(x, small, large);
      }
    case JObj(fields) =>
      forall f | f in fields
        ensures NumbersKept(f.value, large)
      {
        KeptGrows(f.value, small, large);
      }
    case _ =>
  }

  lemma {:induction false} ValueKept(text: Text, nesting: nat, bound: nat)
    requires ReadValue(text, nesting).Got? && |text| + 21 <= bound
    ensures NumbersKept(ReadValue(text, nesting).value, bound)
    decreases |text|, 1
  {
    hide ReadNumber, ReadItems, ReadFields, ReadString, PrivateTokens;
    var t := SkipSpace(text);
    if t[0] == OPEN_ARRAY {
      var t1 := SkipSpace(t[1..]);
      if t1 == [] || t1[0] != CLOSE_ARRAY {
        ItemsKept(t1, nesting + 1, [], bound);
      }
    } else if t[0] == OPEN_OBJECT {
      var t1 := SkipSpace(t[1..]);
      if t1 == [] || t1[0] != CLOSE_OBJECT {
        FieldsKept(t1, nesting + 1, [], true, bound);
      }
    } else if t[0] == MINUS || IsDigit(t[0]) {
      TokenLength(t);
      KeptGrows(ReadNumber(t).value, |t| + 21, bound);
    }
  }

  lemma {:induction false} ItemsKept(t: Text, nesting: nat, before: seq<NodeJson>, bound: nat)
    requires ReadItems(t, nesting, before).Got? && |t| + 21 <= bound
    requires forall x <- before :: NumbersKept(x, bound)
    ensures NumbersKept(ReadItems(t, nesting, before).value, bound)
    decreases |t|, 2
  {
    hide ReadValue;
    ValueKept(t, nesting, bound);
    var v, t2 := ReadValue(t, nesting).value, SkipSpace(ReadValue(t, nesting).rest);
    if t2[0] == COMMA {
      ItemsKept(t2[1..], nesting, before + [v], bound);
    }
  }

  lemma {:induction false} FieldsKept(text: Text, nesting: nat, before: seq<Field>, first: bool, bound: nat)
    requires ReadFields(text, nesting, before, first).Got? && |text| + 21 <= bound
    requires forall f <- before :: NumbersKept(f.value, bound)
    ensures NumbersKept(ReadFields(text, nesting, before, first).value, bound)
    decreases |text|, 3
  {
    hide ReadValue, ReadKey, PrivateTokens;
    ValueKept(ReadKey(text, first).rest, nesting, bound);
    var f, t2 := ReadMember(text, nesting, first).value, SkipSpace(ReadMember(text, nesting, first).rest);
    SetFieldKeys(before, f.key, f.value);
    if t2[0] == COMMA {
      FieldsKept(t2[1..], nesting, SetField(before, f.key, f.value), false, bound);
    }
  }

  lemma NumbersReadAreKept(t: Text, bound: nat)
    requires ReadText(t).Got? && |t| + 21 <= bound
    ensures NumbersKept(ReadText(t).value, bound)
  {
    hide ReadValue;
    ValueKept(t, 0, bound);
  }
}
