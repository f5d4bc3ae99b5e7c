/** Numbers by their exact decimal value: the node's equality, its kept text, and the texts JavaScript carries exactly. */
module ExactDecimal {
  import opened Bytes
  import opened Text
  import opened Powers
  import opened JsonNumber
  import opened ParseF64

  /** Sign, significant digits (none for zero, which has no sign), and the power of ten of the last. */
  datatype Exact = Exact(negative: bool, digits: Text, exponent: int)

  const ZERO_EXACT := Exact(false, [], 0)

  function LeadingZeros(t: Text): (n: nat)
    ensures n <= |t| && (forall i | 0 <= i < n :: t[i] == ZERO) && (n < |t| ==> t[n] != ZERO)
  {
    if t != [] && t[0] == ZERO then
      var n := LeadingZeros(t[1..]);
      assert forall i | 0 <= i < n :: t[1..][i] == t[i + 1];
      1 + n
    else 0
  }

  function TrailingZeros(t: Text): (n: nat)
    ensures n <= |t| && (forall i | |t| - n <= i < |t| :: t[i] == ZERO) && (n < |t| ==> t[|t| - n - 1] != ZERO)
  {
    if t != [] && t[|t| - 1] == ZERO then 1 + TrailingZeros(t[..|t| - 1]) else 0
  }

  /** The exact decimal value of a number's parts, with no bound on the exponent. */
  function ExactOf(p: Parts): Exact
    requires p.exponent.ExponentPart? ==> AllDigits(p.exponent.digits)
  {
    var all := p.whole + p.fraction;
    var start, z := LeadingZeros(all), TrailingZeros(all);
    if start + z >= |all| then ZERO_EXACT
    else Exact(p.negative, all[start..|all| - z], Scale(p.exponent) - |p.fraction| + z)
  }

  ghost predicate Normal(x: Exact) {
    && AllDigits(x.digits)
    && if x.digits == [] then x == ZERO_EXACT else x.digits[0] != ZERO && x.digits[|x.digits| - 1] != ZERO
  }

  ghost function ExactMagnitude(x: Exact): real
    requires AllDigits(x.digits)
  {
    Scaled(x.digits, x.exponent)
  }

  ghost function ExactValue(x: Exact): real
    requires AllDigits(x.digits)
  {
    if x.negative then -ExactMagnitude(x) else ExactMagnitude(x)
  }

  lemma ZerosMeet(all: Text)
    requires LeadingZeros(all) + TrailingZeros(all) >= |all|
    ensures forall i | 0 <= i < |all| :: all[i] == ZERO
  {
  }

  /** The exact decimal is in normal form and is the number the text writes. */
  lemma ExactMeans(p: Parts)
    requires ValidParts(p)
    ensures Normal(ExactOf(p)) && ExactValue(ExactOf(p)) == ValueOf(p)
  {
    hide Pow, Decimal, LeadingZeros, TrailingZeros, Scale;
    var all := p.whole + p.fraction;
    AllDigitsConcat(p.whole, p.fraction);
    var start, end := LeadingZeros(all), |all| - TrailingZeros(all);
    if start >= end {
      ZerosMeet(all);
      DecimalOfZeros(all);
      DecimalOfZeros([]);
    } else {
      MagnitudeIsScaled(p, all, start, end);
    }
  }

  // ---------- Normal forms are unique ----------

  lemma {:induction false} SameDecimalSameDigits(a: Text, b: Text)
    requires AllDigits(a) && AllDigits(b) && Decimal(a) == Decimal(b) && |a| == |b|
    ensures a == b
  {
    if a != [] {
      var a', b' := a[..|a| - 1], b[..|b| - 1];
      assert Decimal(a') == Decimal(b') && a[|a| - 1] == b[|b| - 1];
      SameDecimalSameDigits(a', b');
      assert a == a' + [a[|a| - 1]] && b == b' + [b[|b| - 1]];
    }
  }

  lemma SameLength(a: Text, b: Text)
    requires AllDigits(a) && AllDigits(b) && Decimal(a) == Decimal(b)
    requires a != [] && b != [] && a[0] != ZERO && b[0] != ZERO
    ensures |a| <= |b|
  {
    DecimalAtLeast(a);
    DecimalBelow(b);
    if |a| > |b| {
      IntPowGrows(10, |b|, |a| - 1);
    }
  }

  /** A number not ending in zero is no multiple of ten. */
  lemma NotMultipleOfTen(a: Text, n: nat, k: nat)
    requires AllDigits(a) && a != [] && a[|a| - 1] != ZERO && k > 0
    ensures Decimal(a) != n * IntPow(10, k)
  {
    var last := (a[|a| - 1] - ZERO) as nat;
    assert Decimal(a) == Decimal(a[..|a| - 1]) * 10 + last;
    TenTimes(n, IntPow(10, k - 1));
    assert Decimal(a) % 10 == last;
  }

  lemma TenTimes(n: nat, p: nat)
    ensures n * (10 * p) == 10 * (n * p) && (10 * (n * p)) % 10 == 0
  {
  }

  lemma ExponentsAgree(a: Text, x: int, b: Text, y: int)
    requires AllDigits(a) && AllDigits(b) && a != [] && a[|a| - 1] != ZERO
    requires Scaled(a, x) == Scaled(b, y)
    ensures y <= x
  {
    hide Pow, IntPow, Decimal;
    if y > x {
      var k: nat := y - x;
      PowAdd(10.0, k, x);
      PowOfInt(10, k);
      MulReal(Decimal(b), IntPow(10, k));
      FactorOut(Decimal(a) as real, Decimal(b) as real, Pow(10.0, k), Pow(10.0, x), Pow(10.0, y));
      NotMultipleOfTen(a, Decimal(b), k);
    }
  }

  lemma FactorOut(a: real, b: real, k: real, x: real, y: real)
    requires x > 0.0 && y == k * x && a * x == b * y
    ensures a == b * k
  {
    assert x * a == x * (b * k);
    CancelFactor(x, a, b * k);
  }

  /** Two nonzero normal forms of one magnitude are the same digits and exponent. */
  lemma NormalDigitsUnique(a: Text, x: int, b: Text, y: int)
    requires AllDigits(a) && a != [] && a[0] != ZERO && a[|a| - 1] != ZERO
    requires AllDigits(b) && b != [] && b[0] != ZERO && b[|b| - 1] != ZERO
    requires Scaled(a, x) == Scaled(b, y)
    ensures a == b && x == y
  {
    hide Pow, Decimal;
    ExponentsAgree(a, x, b, y);
    ExponentsAgree(b, y, a, x);
    FactorOut(Decimal(a) as real, Decimal(b) as real, 1.0, Pow(10.0, x), Pow(10.0, y));
    SameLength(a, b);
    SameLength(b, a);
    SameDecimalSameDigits(a, b);
  }

  lemma NormalMagnitude(x: Exact)
    requires Normal(x)
    ensures ExactMagnitude(x) >= 0.0 && (ExactMagnitude(x) == 0.0 <==> x.digits == [])
  {
    hide Pow, Decimal;
    if x.digits == [] {
      DecimalOfZeros(x.digits);
    } else {
      ScaledBounds(x.digits, x.exponent);
    }
  }

  lemma NormalUnique(x: Exact, y: Exact)
    requires Normal(x) && Normal(y) && ExactValue(x) == ExactValue(y)
    ensures x == y
  {
    hide ExactMagnitude;
    NormalMagnitude(x);
    NormalMagnitude(y);
    if x.digits != [] && y.digits != [] {
      assert x.negative == y.negative && ExactMagnitude(x) == ExactMagnitude(y);
      SameMagnitude(x, y);
    }
  }

  lemma SameMagnitude(x: Exact, y: Exact)
    requires Normal(x) && Normal(y) && x.digits != [] && y.digits != [] && ExactMagnitude(x) == ExactMagnitude(y)
    ensures x.digits == y.digits && x.exponent == y.exponent
  {
    hide Scaled;
    NormalDigitsUnique(x.digits, x.exponent, y.digits, y.exponent);
  }

  /** Exact decimals are equal exactly when the numbers written are. */
  lemma ExactIffEqual(p: Parts, q: Parts)
    requires ValidParts(p) && ValidParts(q)
    ensures ExactOf(p) == ExactOf(q) <==> ValueOf(p) == ValueOf(q)
  {
    hide ExactOf, ValueOf, ExactValue, Normal;
    ExactMeans(p);
    ExactMeans(q);
    if ValueOf(p) == ValueOf(q) {
      NormalUnique(ExactOf(p), ExactOf(q));
    }
  }

  // ---------- The node's equality ----------

  const I128_MAX: int := 0x7FFF_FFFF_FFFF_FFFF_FFFF_FFFF_FFFF_FFFF
  const I128_MIN: int := -0x8000_0000_0000_0000_0000_0000_0000_0000

  predicate FitsI128(n: int) {
    I128_MIN <= n <= I128_MAX
  }

  /** The exact decimal the node reads: none when a step of its exponent's arithmetic leaves an i128. */
  function NodeExact(p: Parts): Option<Exact>
    requires p.exponent.ExponentPart? ==> AllDigits(p.exponent.digits)
  {
    if p.exponent.ExponentPart? && |p.exponent.digits| - LeadingZeros(p.exponent.digits) > 39 then None
    else if !FitsI128(Scale(p.exponent)) then None
    else
      var x := ExactOf(p);
      if x == ZERO_EXACT then Some(x)
      else if Scale(p.exponent) - |p.fraction| < I128_MIN || x.exponent > I128_MAX then None
      else Some(x)
  }

  /** The shortcut for long exponents refuses only what does not fit. */
  lemma LongExponentDoesNotFit(p: Parts)
    requires ValidParts(p) && p.exponent.ExponentPart?
    requires |p.exponent.digits| - LeadingZeros(p.exponent.digits) > 39
    ensures !FitsI128(Scale(p.exponent))
  {
    hide Decimal, LeadingZeros, IntPow;
    var d, n := p.exponent.digits, LeadingZeros(p.exponent.digits);
    TrimmedDecimal(d, n, |d|);
    var t := d[n..|d|];
    PowZero(10.0);
    PowOfInt(10, 0);
    assert IntPow(10, 0) == 1 by { OnePower(10); }
    DecimalAtLeast(t);
    IntPowGrows(10, 39, |t| - 1);
    TenTo39();
  }

  lemma OnePower(b: nat)
    ensures IntPow(b, 0) == 1
  {
  }

  lemma TenTo39()
    ensures IntPow(10, 39) > I128_MAX + 1
  {
    hide IntPow;
    KnownPowers();
    SmallPowers();
    TenTo15();
    IntPowAdd(10, 15, 15);
    IntPowAdd(10, 2, 2);
    IntPowAdd(10, 4, 4);
    IntPowAdd(10, 30, 8);
    IntPowAdd(10, 38, 1);
    assert IntPow(10, 1) == 10 by { TenOnce(); }
  }

  lemma TenOnce()
    ensures IntPow(10, 1) == 10
  {
  }

  ghost predicate IsNumber(t: Text) {
    Split(t).Some?
  }

  ghost function NumberValue(t: Text): real
    requires IsNumber(t)
  {
    SplitIsWritten(t);
    ValueOf(Split(t).value)
  }

  /** The exact decimal the node reads a text as, if it reads one. */
  function NodeExactText(t: Text): Option<Exact> {
    var p :- Split(t);
    SplitIsWritten(t);
    NodeExact(p)
  }

  predicate NumbersEqual(a: Text, b: Text) {
    a == b || (NodeExactText(a).Some? && NodeExactText(a) == NodeExactText(b))
  }

  /** When both texts have an exact decimal, the node's equality is equality of the numbers written. */
  lemma NumbersEqualIffSameValue(a: Text, b: Text)
    requires NodeExactText(a).Some? && NodeExactText(b).Some?
    ensures NumbersEqual(a, b) <==> NumberValue(a) == NumberValue(b)
  {
    hide Split, ExactOf, ValueOf, Scale;
    SplitIsWritten(a);
    SplitIsWritten(b);
    ExactIffEqual(Split(a).value, Split(b).value);
  }

  lemma NumbersEqualIsEquivalence(a: Text, b: Text, c: Text)
    ensures NumbersEqual(a, a)
    ensures NumbersEqual(a, b) ==> NumbersEqual(b, a)
    ensures NumbersEqual(a, b) && NumbersEqual(b, c) ==> NumbersEqual(a, c)
  {
    hide NodeExactText;
  }

  // ---------- Numbers JavaScript carries exactly ----------

  /** The exact decimal of a number text, with no bound. */
  function ExactText(t: Text): Option<Exact> {
    var p :- Split(t);
    SplitIsWritten(t);
    Some(ExactOf(p))
  }

  /** The text's value is the value of the text JavaScript writes for the double it reads. */
  predicate IsExactJsonNumber<D>(t: Text, read: Text -> D, finite: D -> bool, write: D -> Text) {
    var d := read(t);
    finite(d) && ExactText(t).Some? && ExactText(t) == ExactText(write(d))
  }

  /** Two exact texts read as one double write one number. */
  lemma ExactTextsAreTold<D>(a: Text, b: Text, read: Text -> D, finite: D -> bool, write: D -> Text)
    requires IsExactJsonNumber(a, read, finite, write) && IsExactJsonNumber(b, read, finite, write)
    requires read(a) == read(b)
    ensures IsNumber(a) && IsNumber(b) && NumberValue(a) == NumberValue(b)
  {
    hide Split, ExactOf, ValueOf;
    SplitIsWritten(a);
    SplitIsWritten(b);
    ExactIffEqual(Split(a).value, Split(b).value);
  }
}
