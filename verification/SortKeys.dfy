/** What the API sorts a document by, and the order it sorts in. */
module SortKeys {
  import opened Bytes
  import opened Text
  import opened JsonNumber
  import opened ExactDecimal
  import opened Double
  import opened ParseF64
  import opened JsonValue
  import Utf8

  // ---------- The double a number sorts by ----------

  /** The double nearest the number a text writes. */
  ghost function DoubleOf(t: Text): (f: F64)
    requires IsNumber(t)
    ensures ValidParts(Split(t).value) && Correct(Split(t).value, f)
  {
    SplitIsWritten(t);
    var p := Split(t).value;
    MagnitudeNotNegative(p);
    NearestIsThere(Magnitude(p));
    var b: nat :| RoundsTo(Magnitude(p), b);
    F64(p.negative, b)
  }

  lemma NearestIsThere(v: real)
    requires v >= 0.0
    ensures exists b: nat :: RoundsTo(v, b)
  {
    var b := NearestExists(v, INFINITY);
  }

  lemma OnlyOneDouble(p: Parts, f: F64, g: F64)
    requires ValidParts(p) && Correct(p, f) && Correct(p, g)
    ensures f == g
  {
    hide RoundsTo, Magnitude;
    RoundingMonotone(Magnitude(p), f.bits, Magnitude(p), g.bits);
    RoundingMonotone(Magnitude(p), g.bits, Magnitude(p), f.bits);
  }

  /** How many significant digits a number's text has, counted in one pass. */
  method SignificantDigits(t: Text) returns (count: nat)
    requires IsNumber(t)
    ensures ExactText(t).Some? && count == |ExactText(t).value.digits|
  {
    hide Split, Counted, Mantissa, ExactOf;
    SplitIsWritten(t);
    ghost var p := Split(t).value;
    MantissaOf(p);
    var zeros := 0;
    count := 0;
    var i := 0;
    CountedNothing(t);
    while i < |t| && t[i] != LOWER_E && t[i] != UPPER_E
      invariant i <= |Mantissa(p)| <= |t| && Counted(t[..i]) == (count, zeros)
    {
      InMantissa(p, i);
      CountedStep(t, i);
      if t[i] == ZERO {
        if count > 0 {
          zeros := zeros + 1;
        }
      } else if t[i] > ZERO && t[i] <= 0x39 {
        count := count + zeros + 1;
        zeros := 0;
      }
      i := i + 1;
    }
    if i < |t| {
      MarkerEndsMantissa(p, i);
    }
    assert t[..|Mantissa(p)|] == Mantissa(p);
    MantissaCounts(p);
  }

  lemma CountedNothing(t: Text)
    ensures Counted(t[..0]) == (0, 0)
  {
  }

  lemma CountedStep(t: Text, i: nat)
    requires i < |t|
    ensures Counted(t[..i + 1]) ==
            var (count, zeros) := Counted(t[..i]);
            var c := t[i];
            if c == ZERO then (count, if count > 0 then zeros + 1 else zeros)
            else if ZERO < c <= 0x39 then (count + zeros + 1, 0)
            else (count, zeros)
  {
    assert t[..i + 1][..i] == t[..i];
  }

  /** The sign, digits and point before any exponent. */
  ghost function Mantissa(p: Parts): Text {
    (if p.negative then [MINUS] else []) + (p.whole + WriteFraction(p.fraction))
  }

  /** The count and the zeros since the last significant digit, over some characters. */
  ghost function Counted(t: Text): (nat, nat) {
    if t == [] then (0, 0)
    else
      var (count, zeros) := Counted(t[..|t| - 1]);
      var c := t[|t| - 1];
      if c == ZERO then (count, if count > 0 then zeros + 1 else zeros)
      else if ZERO < c <= 0x39 then (count + zeros + 1, 0)
      else (count, zeros)
  }

  lemma MantissaOf(p: Parts)
    requires ValidParts(p)
    ensures Write(p) == Mantissa(p) + WriteExponent(p.exponent) && |Mantissa(p)| <= |Write(p)|
  {
    hide WriteFraction, WriteExponent;
    var s := if p.negative then [MINUS] else [];
    assert s + (p.whole + (WriteFraction(p.fraction) + WriteExponent(p.exponent)))
        == (s + (p.whole + WriteFraction(p.fraction))) + WriteExponent(p.exponent);
  }

  lemma MantissaHasNoMarker(p: Parts, i: nat)
    requires ValidParts(p) && i < |Mantissa(p)|
    ensures Mantissa(p)[i] != LOWER_E && Mantissa(p)[i] != UPPER_E
  {
  }

  lemma MarkerEndsMantissa(p: Parts, i: nat)
    requires ValidParts(p) && i < |Write(p)| && i <= |Mantissa(p)|
    requires Write(p)[i] == LOWER_E || Write(p)[i] == UPPER_E
    ensures i == |Mantissa(p)|
  {
    MantissaOf(p);
    if i < |Mantissa(p)| {
      MantissaHasNoMarker(p, i);
    }
  }

  lemma InMantissa(p: Parts, i: nat)
    requires ValidParts(p) && i < |Write(p)| && i <= |Mantissa(p)|
    requires Write(p)[i] != LOWER_E && Write(p)[i] != UPPER_E
    ensures i < |Mantissa(p)|
  {
    MantissaOf(p);
  }

  /** A character that is no digit counts for nothing. */
  lemma {:induction false} CountedWithout(a: Text, c: unit, b: Text)
    requires !IsDigit(c)
    ensures Counted(a + ([c] + b)) == Counted(a + b)
    decreases |b|
  {
    var t := a + ([c] + b);
    if b == [] {
      assert a + b == a && t[..|t| - 1] == a;
    } else {
      var b' := b[..|b| - 1];
      CountedWithout(a, c, b');
      assert t[..|t| - 1] == a + ([c] + b') && (a + b)[..|a + b| - 1] == a + b';
      assert t[|t| - 1] == (a + b)[|a + b| - 1];
    }
  }

  lemma {:induction false} CountedDigits(all: Text)
    requires AllDigits(all)
    ensures
      var s, z := LeadingZeros(all), TrailingZeros(all);
      Counted(all) == if s + z >= |all| then (0, 0) else (|all| - s - z, z)
  {
    if all != [] {
      var before := all[..|all| - 1];
      CountedDigits(before);
      LeadingZerosOf(all);
    }
  }

  lemma {:induction false} LeadingZerosOf(all: Text)
    requires all != []
    ensures LeadingZeros(all) ==
            var before := all[..|all| - 1];
            if LeadingZeros(before) < |before| || all[|all| - 1] != ZERO then LeadingZeros(before) else |all|
  {
    if |all| > 1 {
      assert all[1..][..|all| - 2] == all[..|all| - 1][1..];
      LeadingZerosOf(all[1..]);
    } else {
      assert all[1..] == [];
    }
  }

  /** The count over the mantissa is the number of significant digits. */
  lemma MantissaCounts(p: Parts)
    requires ValidParts(p)
    ensures Counted(Mantissa(p)).0 == |ExactOf(p).digits|
  {
    hide LeadingZeros, TrailingZeros, Scale, Counted;
    var body := p.whole + WriteFraction(p.fraction);
    if p.negative {
      CountedWithout([], MINUS, body);
      assert [] + ([MINUS] + body) == Mantissa(p) && [] + body == body;
    } else {
      assert Mantissa(p) == body;
    }
    if p.fraction != [] {
      CountedWithout(p.whole, DOT, p.fraction);
    }
    AllDigitsConcat(p.whole, p.fraction);
    CountedDigits(p.whole + p.fraction);
  }

  /** JavaScript's own number reading rounds correctly up to twenty significant digits, as the language requires. */
  ghost predicate RoundsShortNumbers(number: Text -> F64) {
    forall t | IsNumber(t) && |ExactText(t).value.digits| <= 20 :: CorrectText(t, number(t))
  }

  ghost predicate CorrectText(t: Text, f: F64)
    requires IsNumber(t)
  {
    SplitIsWritten(t);
    Correct(Split(t).value, f)
  }

  /** The finite double a number text sorts by. */
  ghost function SortNumberOf(t: Text): Option<F64> {
    if IsNumber(t) && DoubleOf(t).bits < INFINITY then Some(DoubleOf(t)) else None
  }

  method SortNumber(t: Text, number: Text -> F64) returns (f: Option<F64>)
    requires IsNumber(t) && |t| < 0x4000_0000 && RoundsShortNumbers(number)
    ensures f == SortNumberOf(t)
  {
    hide Split, RoundsTo, ExactOf;
    SplitIsWritten(t);
    var digits := SignificantDigits(t);
    var d;
    if digits > 20 {
      d := ParseDouble(t);
    } else {
      d := number(t);
      assert CorrectText(t, d);
    }
    OnlyOneDouble(Split(t).value, d, DoubleOf(t));
    return if d.bits < INFINITY then Some(d) else None;
  }

  // ---------- Keys and their order ----------

  datatype SortKey =
    | Missing
    | NullKey
    | BoolKey(b: bool)
    | NumberKey(f: Option<F64>)
    | StringKey(s: Text)
    | ArrayKey
    | ObjectKey

  function KindRank(k: SortKey): nat {
    match k
    case Missing => 0
    case NullKey => 1
    case BoolKey(_) => 2
    case NumberKey(_) => 3
    case StringKey(_) => 4
    case ArrayKey => 5
    case ObjectKey => 6
  }

  ghost function KeyOf(v: Option<NodeJson>): SortKey {
    match v
    case None => Missing
    case Some(JNull) => NullKey
    case Some(JBool(b)) => BoolKey(b)
    case Some(JNum(n)) => NumberKey(SortNumberOf(n))
    case Some(JStr(s)) => StringKey(s)
    case Some(JArr(_)) => ArrayKey
    case Some(JObj(_)) => ObjectKey
  }

  function CompareInts(x: int, y: int): int {
    if x < y then -1 else if x > y then 1 else 0
  }

  function NumberRank(f: Option<F64>): Option<int> {
    if f.None? || f.value.NaN? then None else Some(Rank(f.value))
  }

  /** By kind, then false before true, numbers by value (one with no finite double first), strings by code point. */
  function Compare(a: SortKey, b: SortKey): int {
    if KindRank(a) != KindRank(b) then CompareInts(KindRank(a), KindRank(b))
    else
      match a
      case BoolKey(x) => CompareInts(if x then 1 else 0, if b.b then 1 else 0)
      case NumberKey(x) =>
        var (r, s) := (NumberRank(x), NumberRank(b.f));
        if r.None? || s.None? then (if r == s then 0 else if r.None? then -1 else 1)
        else CompareInts(r.value, s.value)
      case StringKey(x) =>
        if Utf8.PointsLess(Utf8.Points(x), Utf8.Points(b.s)) then -1 else if x == b.s then 0 else 1
      case _ => 0
  }

  /** The comparison as it runs. */
  method CompareKeys(a: SortKey, b: SortKey) returns (c: int)
    ensures (c < 0 <==> Compare(a, b) < 0) && (c == 0 <==> Compare(a, b) == 0)
  {
    if a.StringKey? && b.StringKey? {
      c := Utf8.CompareCodePoints(a.s, b.s);
    } else {
      c := Compare(a, b);
    }
  }

  ghost function SignedValue(f: F64): real
    requires f.F64?
  {
    if f.negative then -Double.ValueOf(f.bits) else Double.ValueOf(f.bits)
  }

  /** Numbers compare by the doubles' values; the two zeros tie. */
  lemma NumbersCompareByValue(f: F64, g: F64)
    requires f.F64? && g.F64?
    ensures Compare(NumberKey(Some(f)), NumberKey(Some(g))) < 0 <==> SignedValue(f) < SignedValue(g)
    ensures Compare(NumberKey(Some(f)), NumberKey(Some(g))) == 0 <==> SignedValue(f) == SignedValue(g)
  {
    hide Double.ValueOf;
    ZeroValue();
    ValueGrows(0, f.bits);
    ValueGrows(0, g.bits);
    if f.bits <= g.bits {
      ValueGrows(f.bits, g.bits);
    } else {
      ValueGrows(g.bits, f.bits);
    }
  }

  lemma ZeroValue()
    ensures Double.ValueOf(0) == 0.0
  {
  }

  lemma {:induction false} PointsTotal(a: seq<nat>, b: seq<nat>)
    ensures Utf8.PointsLess(a, b) || a == b || Utf8.PointsLess(b, a)
    ensures !(Utf8.PointsLess(a, b) && Utf8.PointsLess(b, a)) && !Utf8.PointsLess(a, a)
  {
    if a != [] {
      PointsTotal(a[1..], a[1..]);
    }
    if a != [] && b != [] && a[0] == b[0] {
      PointsTotal(a[1..], b[1..]);
      assert a == [a[0]] + a[1..] && b == [b[0]] + b[1..];
    }
  }

  lemma {:induction false} PointsTransitive(a: seq<nat>, b: seq<nat>, c: seq<nat>)
    requires Utf8.PointsLess(a, b) && Utf8.PointsLess(b, c)
    ensures Utf8.PointsLess(a, c)
  {
    if a != [] && a[0] == b[0] == c[0] {
      PointsTransitive(a[1..], b[1..], c[1..]);
    }
  }

  lemma StringsTotal(a: Text, b: Text)
    ensures
      var (x, y) := (Utf8.Points(a), Utf8.Points(b));
      && (Utf8.PointsLess(x, y) || a == b || Utf8.PointsLess(y, x))
      && !(Utf8.PointsLess(x, y) && Utf8.PointsLess(y, x)) && (a == b ==> !Utf8.PointsLess(x, y))
  {
    PointsTotal(Utf8.Points(a), Utf8.Points(b));
    PointsTotal(Utf8.Points(a), Utf8.Points(a));
    if Utf8.Points(a) == Utf8.Points(b) {
      Utf8.PointsTellTexts(a, b);
    }
  }

  /** A total preorder: every two keys compare, opposite ways when swapped, and consistently. */
  lemma CompareIsTotalPreorder(a: SortKey, b: SortKey, c: SortKey)
    ensures Compare(a, a) == 0
    ensures Compare(a, b) == -Compare(b, a)
    ensures Compare(a, b) <= 0 && Compare(b, c) <= 0 ==> Compare(a, c) <= 0
    ensures Compare(a, b) <= 0 && Compare(b, c) < 0 ==> Compare(a, c) < 0
    ensures Compare(a, b) < 0 && Compare(b, c) <= 0 ==> Compare(a, c) < 0
  {
    hide Utf8.Points, Utf8.PointsLess;
    if a.StringKey? {
      StringsTotal(a.s, a.s);
      if b.StringKey? {
        StringsTotal(a.s, b.s);
        if c.StringKey? {
          StringsTotal(b.s, c.s);
          StringsTotal(a.s, c.s);
          if Utf8.PointsLess(Utf8.Points(a.s), Utf8.Points(b.s)) && Utf8.PointsLess(Utf8.Points(b.s), Utf8.Points(c.s)) {
            PointsTransitive(Utf8.Points(a.s), Utf8.Points(b.s), Utf8.Points(c.s));
          }
        }
      }
    }
  }

  /** Strings sort in the order of their UTF-8 bytes. */
  lemma StringsSortByBytes(a: Text, b: Text)
    ensures Compare(StringKey(a), StringKey(b)) < 0 <==> Less(Utf8.Encode(a), Utf8.Encode(b))
  {
    Utf8.PointOrderIsByteOrder(Utf8.Points(a), Utf8.Points(b));
  }
}
