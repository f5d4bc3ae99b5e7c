/**
  The double nearest the number a text writes, computed in integers, ties to even: what the
  node's sort compares.
*/
module ParseF64 {
  import opened Text
  import opened Powers
  import opened Double
  import opened JsonNumber

  /** Past this many significant digits a digit only says the tail is not zero. */
  const MAX_ROUNDING_DIGITS: nat := 800

  // ---------- Decimal strings ----------

  lemma {:induction false} DecimalConcat(a: Text, b: Text)
    requires AllDigits(a) && AllDigits(b)
    ensures AllDigits(a + b) && Decimal(a + b) == Decimal(a) * IntPow(10, |b|) + Decimal(b)
  {
    AllDigitsConcat(a, b);
    if b == [] {
      assert a + b == a;
    } else {
      var b', last := b[..|b| - 1], (b[|b| - 1] - ZERO) as nat;
      DecimalConcat(a, b');
      assert (a + b)[..|a + b| - 1] == a + b';
      ShiftDecimal(Decimal(a), IntPow(10, |b'|), Decimal(b'), last);
    }
  }

  lemma ShiftDecimal(a: nat, p: nat, b: nat, last: nat)
    ensures (a * p + b) * 10 + last == a * (10 * p) + (b * 10 + last)
  {
  }

  lemma {:induction false} DecimalOfZeros(t: Text)
    requires forall i | 0 <= i < |t| :: t[i] == ZERO
    ensures AllDigits(t) && Decimal(t) == 0
  {
    if t != [] {
      DecimalOfZeros(t[..|t| - 1]);
    }
  }

  lemma {:induction false} DecimalBelow(t: Text)
    requires AllDigits(t)
    ensures Decimal(t) < IntPow(10, |t|)
  {
    if t != [] {
      DecimalBelow(t[..|t| - 1]);
    }
  }

  lemma DecimalAtLeast(t: Text)
    requires AllDigits(t) && t != [] && t[0] != ZERO
    ensures Decimal(t) >= IntPow(10, |t| - 1)
  {
    assert t == t[..1] + t[1..];
    DecimalConcat(t[..1], t[1..]);
    assert Decimal(t[..1]) == Decimal(t[..1][..0]) * 10 + (t[0] - ZERO) as nat;
    AtLeastOnce(Decimal(t[..1]), IntPow(10, |t| - 1));
  }

  lemma AtLeastOnce(a: nat, p: nat)
    requires a >= 1
    ensures a * p >= p
  {
  }

  /** Zeros around the significant digits only scale the number. */
  lemma TrimmedDecimal(all: Text, start: nat, end: nat)
    requires AllDigits(all) && start <= end <= |all|
    requires forall i | 0 <= i < start :: all[i] == ZERO
    requires forall i | end <= i < |all| :: all[i] == ZERO
    ensures AllDigits(all[start..end]) && Decimal(all) == Decimal(all[start..end]) * IntPow(10, |all| - end)
  {
    var head, mid, tail := all[..start], all[start..end], all[end..];
    assert all == (head + mid) + tail;
    DecimalConcat(head, mid);
    DecimalConcat(head + mid, tail);
    DecimalOfZeros(head);
    DecimalOfZeros(tail);
  }

  /** The index of the first digit other than zero, from `start` to `end`. */
  method SkipZeros(t: Text, start: nat, end: nat) returns (i: nat)
    requires start <= end <= |t|
    ensures start <= i <= end
    ensures forall j | start <= j < i :: t[j] == ZERO
    ensures i < end ==> t[i] != ZERO
  {
    i := start;
    while i < end && t[i] == ZERO
      invariant start <= i <= end
      invariant forall j | start <= j < i :: t[j] == ZERO
    {
      i := i + 1;
    }
  }

  /** `end`, moved back over the zeros before it. */
  method DropZeros(t: Text, start: nat, end: nat) returns (i: nat)
    requires start <= end <= |t|
    ensures start <= i <= end
    ensures forall j | i <= j < end :: t[j] == ZERO
    ensures i > start ==> t[i - 1] != ZERO
  {
    i := end;
    while i > start && t[i - 1] == ZERO
      invariant start <= i <= end
      invariant forall j | i <= j < end :: t[j] == ZERO
    {
      i := i - 1;
    }
  }

  // ---------- Sizes ----------

  lemma PowPow(b: real, m: nat, k: nat)
    requires b > 0.0
    ensures Pow(Pow(b, m), k) == Pow(b, m * k)
  {
    PowRepeated(b, m, Pow(b, m), k);
    PowRepeatedBelow(b, m, Pow(b, m), k);
  }

  lemma TenAgainstTwo()
    ensures Pow(10.0, 28) >= Pow(2.0, 93) && Pow(10.0, 16) >= Pow(2.0, 53)
  {
    hide Pow, IntPow;
    KnownPowers();
    PowOfInt(10, 28);
    PowOfInt(2, 93);
    PowOfInt(10, 16);
    PowOfInt(2, 53);
  }

  lemma TenTo308()
    ensures Pow(10.0, 308) >= Pow(2.0, 1023)
  {
    hide Pow;
    TenAgainstTwo();
    PowRepeated(10.0, 28, Pow(2.0, 93), 11);
    PowPow(2.0, 93, 11);
  }

  lemma LimitBelow1024()
    ensures Limit() <= Pow(2.0, 1024)
  {
    hide Pow, IntPow;
    KnownPowers();
    PowOfInt(2, 54);
    PowAdd(2.0, 54, 970);
    MulBy(18014398509481983.0, Pow(2.0, 54), Pow(2.0, 970));
  }

  /** 10^309 is past every finite double. */
  lemma TenTo309IsInfinite()
    ensures Pow(10.0, 309) >= Limit()
  {
    hide Pow, Limit;
    TenTo308();
    LimitBelow1024();
    PowStep(10.0, 308);
    PowStep(2.0, 1023);
    assert Pow(10.0, 309) == 10.0 * Pow(10.0, 308);
    assert Pow(2.0, 1024) == 2.0 * Pow(2.0, 1023);
  }

  /** 10^-324 is below half the least double. */
  lemma TenToMinus324IsZero()
    ensures Pow(10.0, -324) < Pow(2.0, -1075)
  {
    hide Pow;
    TenTo308();
    TenAgainstTwo();
    PowAdd(10.0, 308, 16);
    PowAdd(2.0, 1023, 53);
    MulMono(Pow(2.0, 1023), Pow(10.0, 308), Pow(2.0, 53), Pow(10.0, 16));
    PowStep(2.0, 1075);
    PowAdd(10.0, 324, -324);
    PowAdd(2.0, 1075, -1075);
    PowZero(10.0);
    PowZero(2.0);
    Inverses(Pow(10.0, 324), Pow(10.0, -324), Pow(2.0, 1075), Pow(2.0, -1075));
  }

  lemma Inverses(x: real, x': real, y: real, y': real)
    requires x > y > 0.0 && x' > 0.0 && y' > 0.0 && x * x' == 1.0 && y * y' == 1.0
    ensures x' < y'
  {
    if x' >= y' {
      MulByStrict(y, x, x');
      MulBy(y', x', y);
    }
  }

  /** The number `digits` writes, times a power of ten. */
  ghost function Scaled(digits: Text, exponent: int): real
    requires AllDigits(digits)
  {
    Decimal(digits) as real * Pow(10.0, exponent)
  }

  lemma ScaledBounds(digits: Text, exponent: int)
    requires AllDigits(digits) && digits != [] && digits[0] != ZERO
    ensures Pow(10.0, |digits| - 1 + exponent) <= Scaled(digits, exponent) < Pow(10.0, |digits| + exponent)
  {
    hide Pow, IntPow, Decimal;
    DecimalAtLeast(digits);
    DecimalBelow(digits);
    ScaledWithin(Decimal(digits), |digits|, exponent);
  }

  lemma ScaledWithin(d: nat, n: nat, exponent: int)
    requires n > 0 && IntPow(10, n - 1) <= d < IntPow(10, n)
    ensures Pow(10.0, n - 1 + exponent) <= d as real * Pow(10.0, exponent) < Pow(10.0, n + exponent)
  {
    hide Pow, IntPow;
    PowOfInt(10, n - 1);
    PowOfInt(10, n);
    PowAdd(10.0, n - 1, exponent);
    PowAdd(10.0, n, exponent);
    MulBy(Pow(10.0, n - 1), d as real, Pow(10.0, exponent));
    MulByStrict(d as real, Pow(10.0, n), Pow(10.0, exponent));
  }

  lemma LimitRoundsToInfinity(v: real)
    requires v >= Limit()
    ensures RoundsTo(v, INFINITY)
  {
  }

  lemma TinyRoundsToZero(v: real)
    requires 0.0 <= v < Pow(2.0, -1075)
    ensures RoundsTo(v, 0)
  {
    hide Pow, RoundsTo;
    BetweenIsNearest(v, 0);
  }

  lemma TooBig(digits: Text, exponent: int)
    requires AllDigits(digits) && digits != [] && digits[0] != ZERO && |digits| - 1 + exponent >= 309
    ensures RoundsTo(Scaled(digits, exponent), INFINITY)
  {
    hide Pow, RoundsTo, Limit;
    ScaledBounds(digits, exponent);
    PowGrows(10.0, 309, |digits| - 1 + exponent);
    TenTo309IsInfinite();
    LimitRoundsToInfinity(Scaled(digits, exponent));
  }

  lemma TooSmall(digits: Text, exponent: int)
    requires AllDigits(digits) && digits != [] && digits[0] != ZERO && |digits| + exponent <= -324
    ensures RoundsTo(Scaled(digits, exponent), 0)
  {
    hide Pow, RoundsTo;
    ScaledBounds(digits, exponent);
    PowGrows(10.0, |digits| + exponent, -324);
    TenToMinus324IsZero();
    TinyRoundsToZero(Scaled(digits, exponent));
  }

  // ---------- Rounding a ratio of integers ----------

  /** How many binary digits `n` is written with. */
  function BitLength(n: nat): (l: nat)
    ensures l >= 1
  {
    if n < 2 then 1 else 1 + BitLength(n / 2)
  }

  lemma {:induction false} BitLengthBounds(n: nat)
    requires n > 0
    ensures IntPow(2, BitLength(n) - 1) <= n < IntPow(2, BitLength(n))
  {
    if n >= 2 {
      BitLengthBounds(n / 2);
    } else {
      assert IntPow(2, 0) == 1 && IntPow(2, 1) == 2;
    }
  }

  /** num / den against 2^e: the whole part, and the remainder over its divisor. */
  datatype Quotient = Quotient(q: nat, r: nat, d: nat)

  function Divide(num: nat, den: nat, e: int): Quotient
    requires den > 0
  {
    var n := if e >= 0 then num else num * IntPow(2, -e);
    var d := if e >= 0 then den * IntPow(2, e) else den;
    PowOfIntPositive(den, e);
    Quotient(n / d, n % d, d)
  }

  lemma PowOfIntPositive(den: nat, e: int)
    requires den > 0
    ensures e >= 0 ==> den * IntPow(2, e) > 0
  {
    if e >= 0 {
      PowOfInt(2, e);
      MulPositive(den, IntPow(2, e));
    }
  }

  ghost function Fraction(x: Quotient): real
    requires x.d > 0
  {
    x.r as real / x.d as real
  }

  lemma DivideParts(n: nat, d: nat)
    requires d > 0
    ensures n as real / d as real == (n / d) as real + (n % d) as real / d as real
    ensures 0.0 <= (n % d) as real / d as real < 1.0
  {
    var q, r := n / d, n % d;
    assert n == q * d + r;
    MulReal(q, d);
    RatioParts(n as real, q as real, d as real, r as real);
  }

  lemma RatioParts(n: real, q: real, d: real, r: real)
    requires d > 0.0 && n == q * d + r && 0.0 <= r < d
    ensures n / d == q + r / d && 0.0 <= r / d < 1.0
  {
    var f, x := r / d, n / d;
    assert f * d == r && x * d == n;
    ProductOrder(0.0, f, d, 0.0, r);
    ProductOrder(f, 0.0, d, r, 0.0);
    ProductOrder(1.0, f, d, d, r);
    assert d * x == d * (q + f);
    CancelFactor(d, x, q + f);
  }

  /** num / den is the quotient and its fraction, times 2^e. */
  lemma DivideMeans(num: nat, den: nat, e: int)
    requires den > 0
    ensures
      var x := Divide(num, den, e);
      && x.d > 0 && x.r < x.d && 0.0 <= Fraction(x) < 1.0
      && num as real / den as real == (x.q as real + Fraction(x)) * Pow(2.0, e)
  {
    hide Pow, IntPow;
    if e >= 0 {
      DivideDown(num, den, e);
    } else {
      DivideUp(num, den, -e);
    }
  }

  lemma DivideDown(num: nat, den: nat, e: nat)
    requires den > 0
    ensures
      var d := den * IntPow(2, e);
      && d > 0 && 0.0 <= (num % d) as real / d as real < 1.0
      && num as real / den as real == ((num / d) as real + (num % d) as real / d as real) * Pow(2.0, e)
  {
    hide Pow, IntPow;
    PowOfInt(2, e);
    var d := den * IntPow(2, e);
    MulPositive(den, IntPow(2, e));
    DivideParts(num, d);
    MulReal(den, IntPow(2, e));
    RatioScaledDown(num as real, den as real, Pow(2.0, e));
  }

  lemma DivideUp(num: nat, den: nat, e: nat)
    requires den > 0
    ensures
      var n := num * IntPow(2, e);
      && 0.0 <= (n % den) as real / den as real < 1.0
      && num as real / den as real == ((n / den) as real + (n % den) as real / den as real) * Pow(2.0, 0 - e)
  {
    hide Pow, IntPow;
    PowOfInt(2, e);
    DivideParts(num * IntPow(2, e), den);
    MulReal(num, IntPow(2, e));
    PowAdd(2.0, 0 - e, e);
    PowZero(2.0);
    RatioScaledUp(num as real, den as real, Pow(2.0, e), Pow(2.0, 0 - e));
  }

  lemma RatioScaledDown(n: real, d: real, p: real)
    requires d > 0.0 && p > 0.0
    ensures d * p > 0.0 && n / d == (n / (d * p)) * p
  {
    assert d * p > 0.0;
    var x := n / (d * p);
    assert x * (d * p) == n;
    assert (x * p) * d == n;
  }

  lemma RatioScaledUp(n: real, d: real, p: real, p': real)
    requires d > 0.0 && p > 0.0 && p' * p == 1.0
    ensures n / d == ((n * p) / d) * p'
  {
    var x := n / d;
    assert x * d == n;
    assert (x * p) * d == n * p;
    assert (n * p) / d == x * p;
    assert (x * p) * p' == x;
  }

  /** The quotient's size from the ratio's. */
  lemma QuotientBelow(v: real, y: real, e: int, m: nat)
    requires v == y * Pow(2.0, e) && v < Pow(2.0, e + m)
    ensures y < IntPow(2, m) as real
  {
    hide Pow;
    PowAdd(2.0, m, e);
    PowOfInt(2, m);
    ProductOrder(Pow(2.0, m), y, Pow(2.0, e), Pow(2.0, e + m), v);
  }

  lemma QuotientAbove(v: real, y: real, e: int, m: nat)
    requires v == y * Pow(2.0, e) && v >= Pow(2.0, e + m)
    ensures y >= IntPow(2, m) as real
  {
    hide Pow;
    PowAdd(2.0, m, e);
    PowOfInt(2, m);
    ProductOrder(y, Pow(2.0, m), Pow(2.0, e), v, Pow(2.0, e + m));
  }

  /** A ratio lies within a factor of two of the power its bit lengths give. */
  lemma RatioBounds(num: nat, den: nat)
    requires num > 0 && den > 0
    ensures
      var k := BitLength(num) - BitLength(den);
      Pow(2.0, k - 1) <= num as real / den as real < Pow(2.0, k + 1)
  {
    hide Pow, IntPow, BitLength;
    var a, b := BitLength(num), BitLength(den);
    BitLengthBounds(num);
    BitLengthBounds(den);
    PowOfInt(2, a - 1);
    PowOfInt(2, a);
    PowOfInt(2, b - 1);
    PowOfInt(2, b);
    RatioAbove(num as real, den as real, a - 1, b);
    RatioBelow(num as real, den as real, a, b - 1);
  }

  lemma RatioAbove(n: real, d: real, a: int, b: int)
    requires 0.0 < d < Pow(2.0, b) && Pow(2.0, a) <= n
    ensures Pow(2.0, a - b) <= n / d
  {
    hide Pow;
    PowAdd(2.0, a - b, b);
    var x, lo := n / d, Pow(2.0, a - b);
    assert x * d == n;
    MulByStrict(d, Pow(2.0, b), lo);
    ProductOrder(x, lo, d, n, lo * d);
  }

  lemma RatioBelow(n: real, d: real, a: int, b: int)
    requires Pow(2.0, b) <= d && n < Pow(2.0, a)
    ensures d > 0.0 && n / d < Pow(2.0, a - b)
  {
    hide Pow;
    PowAdd(2.0, a - b, b);
    var x, hi := n / d, Pow(2.0, a - b);
    assert x * d == n;
    MulBy(Pow(2.0, b), d, hi);
    ProductOrder(hi, x, d, hi * d, n);
  }

  /** The first exponent tried leaves the quotient at most one bit too long, and never short. */
  lemma FirstQuotient(num: nat, den: nat, e: int)
    requires num > 0 && den > 0
    requires
      var k := BitLength(num) - BitLength(den) - 53;
      e == if k < -1074 then -1074 else k
    ensures
      var x := Divide(num, den, e);
      if x.q < 2 * TWO52 then Normalized(x.q, e)
      else
        var x' := Divide(num, den, e + 1);
        Normalized(x'.q, e + 1)
  {
    hide Pow, Divide, BitLength, Fraction;
    var k := BitLength(num) - BitLength(den) - 53;
    var v := num as real / den as real;
    RatioBounds(num, den);
    KnownPowers();
    DivideMeans(num, den, e);
    DivideMeans(num, den, e + 1);
    var x, x' := Divide(num, den, e), Divide(num, den, e + 1);
    var y, y' := x.q as real + Fraction(x), x'.q as real + Fraction(x');
    if k >= -1074 {
      QuotientAbove(v, y, e, 52);
      QuotientBelow(v, y', e + 1, 53);
    } else {
      PowGrows(2.0, k + 54, e + 53);
      QuotientBelow(v, y, e, 53);
    }
    if x.q >= 2 * TWO52 {
      AtLeastDouble(v, y, y', e);
    }
  }

  lemma AtLeastDouble(v: real, y: real, y': real, e: int)
    requires v == y * Pow(2.0, e) && v == y' * Pow(2.0, e + 1) && y >= IntPow(2, 53) as real
    ensures y' >= IntPow(2, 52) as real
  {
    hide Pow, IntPow;
    PowOfInt(2, 53);
    PowAdd(2.0, 53, e);
    MulBy(Pow(2.0, 53), y, Pow(2.0, e));
    QuotientAbove(v, y', e + 1, 52);
  }

  lemma Half(r: nat, d: nat)
    requires r < d
    ensures 2 * r > d <==> r as real / d as real > 0.5
    ensures 2 * r == d <==> r as real / d as real == 0.5
  {
    var f := r as real / d as real;
    assert f * d as real == r as real;
    ProductOrder(f, 0.5, d as real, r as real, d as real / 2.0);
    ProductOrder(0.5, f, d as real, d as real / 2.0, r as real);
  }

  /** The fields the bits are written from, once a carry to the next power has been made. */
  function Encode(q: nat, e: int): nat
    requires e >= -1074 && q <= 2 * TWO52
  {
    var (q', e') := if q == 2 * TWO52 then (q / 2, e + 1) else (q, e);
    if e' > 971 then INFINITY
    else
      var biased: nat := if q' >= TWO52 then e' + 1075 else 0;
      biased * TWO52 + q' % TWO52
  }

  lemma EncodeAssembles(q: nat, e: int)
    requires e >= -1074 && q <= 2 * TWO52 && (e > -1074 ==> q >= TWO52)
    ensures Encode(q, e) == if Assemble(q, e) >= INFINITY then INFINITY else Assemble(q, e)
  {
  }

  /** The rounded quotient's bits, from its remainder's place against one half. */
  lemma EncodeRounds(v: real, x: Quotient, e: int)
    requires Normalized(x.q, e) && x.d > 0 && x.r < x.d && 0.0 <= Fraction(x) < 1.0
    requires v == (x.q as real + Fraction(x)) * Pow(2.0, e)
    ensures
      var up := 2 * x.r > x.d || (2 * x.r == x.d && x.q % 2 == 1);
      RoundsTo(v, Encode(if up then x.q + 1 else x.q, e))
  {
    hide Pow, RoundsTo, Encode;
    Half(x.r, x.d);
    RoundQuotient(v, x.q, e, Fraction(x));
    EncodeAssembles(x.q, e);
    EncodeAssembles(x.q + 1, e);
    assert Assemble(x.q + 1, e) == Assemble(x.q, e) + 1;
  }

  /** The double nearest num / den, in integers: a 53-bit quotient, rounded on its remainder. */
  method RoundRatio(num: nat, den: nat) returns (bits: nat)
    requires num > 0 && den > 0
    ensures RoundsTo(num as real / den as real, bits)
  {
    hide Pow, Divide, RoundsTo, Fraction, BitLength;
    var k := BitLength(num) - BitLength(den) - 53;
    var e := if k < -1074 then -1074 else k;
    FirstQuotient(num, den, e);
    var x := Divide(num, den, e);
    if x.q >= 2 * TWO52 {
      e := e + 1;
      x := Divide(num, den, e);
    }
    DivideMeans(num, den, e);
    EncodeRounds(num as real / den as real, x, e);
    var q := x.q;
    if 2 * x.r > x.d || (2 * x.r == x.d && q % 2 == 1) {
      q := q + 1;
    }
    if q == 2 * TWO52 {
      q := q / 2;
      e := e + 1;
    }
    if e > 971 {
      return INFINITY;
    }
    var biased: nat := if q >= TWO52 then e + 1075 else 0;
    return biased * TWO52 + q % TWO52;
  }

  // ---------- Dropping digits past the 800th ----------

  /** Half-way points are odd multiples of half a unit in the last place. */
  lemma MidpointFields(b: nat)
    requires b < INFINITY
    ensures -1074 <= Exponent(b) <= 971 && Significand(b) < 2 * TWO52
    ensures Midpoint(b) == (2 * Significand(b) + 1) as real * Pow(2.0, Exponent(b) - 1)
  {
    hide Pow, Exponent, Significand;
    FieldBounds(b);
    PowStep(2.0, Exponent(b) - 1);
    OddMultiple(Significand(b) as real, Pow(2.0, Exponent(b)), Pow(2.0, Exponent(b) - 1));
  }

  lemma FieldBounds(b: nat)
    requires b < INFINITY
    ensures -1074 <= Exponent(b) <= 971 && Significand(b) < 2 * TWO52
  {
  }

  lemma OddMultiple(s: real, p: real, h: real)
    requires p == 2.0 * h
    ensures s * p + h == (2.0 * s + 1.0) * h
  {
  }

  /** A half-way point of a finite precision is a whole multiple of a small enough power of ten. */
  lemma MultipleOfTenPower(m: nat, e: int, x: int) returns (n: nat)
    requires x <= 0 && x <= e
    ensures m as real * Pow(2.0, e) == n as real * Pow(10.0, x)
  {
    if e >= 0 {
      n := IntegerMultiple(m, e, 0 - x);
    } else {
      n := FractionMultiple(m, 0 - e, e - x);
    }
  }

  lemma IntegerMultiple(m: nat, e: nat, k: nat) returns (n: nat)
    ensures m as real * Pow(2.0, e) == n as real * Pow(10.0, 0 - k)
  {
    hide Pow, IntPow;
    n := (m * IntPow(2, e)) * IntPow(10, k);
    PowOfInt(2, e);
    PowOfInt(10, k);
    MulReal(m, IntPow(2, e));
    MulReal(m * IntPow(2, e), IntPow(10, k));
    PowAdd(10.0, k, 0 - k);
    PowZero(10.0);
    UnitFactor(m as real * Pow(2.0, e), Pow(10.0, k), Pow(10.0, 0 - k), n as real);
  }

  lemma UnitFactor(x: real, p: real, p': real, n: real)
    requires p * p' == 1.0 && n == x * p
    ensures n * p' == x
  {
    assert n * p' == x * (p * p');
  }

  /** m / 2^t over 10^(-t-k): 2^-t is 5^t over 10^t. */
  lemma FractionMultiple(m: nat, t: nat, k: nat) returns (n: nat)
    ensures m as real * Pow(2.0, 0 - t) == n as real * Pow(10.0, 0 - t - k)
  {
    hide Pow, IntPow;
    n := (m * IntPow(5, t)) * IntPow(10, k);
    PowOfInt(5, t);
    PowOfInt(10, k);
    MulReal(m, IntPow(5, t));
    MulReal(m * IntPow(5, t), IntPow(10, k));
    PowAdd(10.0, k, 0 - t - k);
    PowProduct(2.0, 5.0, 0 - t);
    PowAdd(5.0, t, 0 - t);
    PowZero(5.0);
    FractionProduct(m as real, Pow(5.0, t), Pow(5.0, 0 - t), Pow(2.0, 0 - t), Pow(10.0, k),
                    Pow(10.0, 0 - t - k), Pow(10.0, 0 - t), n as real);
  }

  lemma FractionProduct(m: real, f: real, f': real, h: real, p: real, q: real, r: real, n: real)
    requires n == (m * f) * p && p * q == r && r == h * f' && f * f' == 1.0
    ensures m * h == n * q
  {
    assert n * q == (m * f) * (p * q);
    assert (m * f) * (h * f') == (m * h) * (f * f');
  }

  lemma FivePowersAreSmall()
    ensures Pow(2.0, 54) * Pow(5.0, 1075) <= Pow(10.0, 800)
  {
    hide Pow, IntPow;
    FiveToTen();
    PowRepeatedBelow(5.0, 10, Pow(10.0, 7), 108);
    PowPow(10.0, 7, 108);
    PowGrows(5.0, 1075, 1080);
    PowAdd(10.0, 756, 44);
    KnownPowers();
    PowOfInt(2, 54);
    PowOfInt(10, 28);
    PowGrows(10.0, 28, 44);
    MulMono(Pow(2.0, 54), Pow(10.0, 44), Pow(5.0, 1075), Pow(10.0, 756));
  }

  lemma FiveToTen()
    ensures Pow(5.0, 10) <= Pow(10.0, 7)
  {
    assert IntPow(5, 2) == 25 && IntPow(5, 3) == 125 && IntPow(10, 2) == 100 && IntPow(10, 3) == 1000;
    hide Pow, IntPow;
    IntPowAdd(5, 2, 3);
    IntPowAdd(5, 5, 5);
    IntPowAdd(10, 2, 2);
    IntPowAdd(10, 4, 3);
    PowOfInt(5, 10);
    PowOfInt(10, 7);
  }

  /** A half-way point above an 800-digit number leaves enough decimals for that number's last digit. */
  lemma PrecisionSuffices(m: nat, e: int, x: int)
    requires -1075 <= e < 0 && m < 18014398509481984
    requires Pow(10.0, 799 + x) < m as real * Pow(2.0, e)
    ensures x <= e
  {
    hide Pow, IntPow;
    if x > e {
      PowGrows(10.0, 800 + e, 799 + x);
      KnownPowers();
      PowOfInt(2, 54);
      MulBy(m as real, Pow(2.0, 54), Pow(2.0, e));
      assert Pow(10.0, 800 + e) < Pow(2.0, 54) * Pow(2.0, e);
      PowAdd(10.0, 800, e);
      PowProduct(2.0, 5.0, e);
      PowAdd(5.0, 0 - e, e);
      PowZero(5.0);
      PowGrows(5.0, 0 - e, 1075);
      FivePowersAreSmall();
      CompareTens(Pow(10.0, 800), Pow(2.0, e), Pow(5.0, e), Pow(5.0, 0 - e), Pow(2.0, 54), Pow(5.0, 1075), Pow(10.0, 800 + e));
    }
  }

  lemma CompareTens(t: real, h: real, f: real, f': real, c: real, big: real, p: real)
    requires t > 0.0 && h > 0.0 && f > 0.0 && f' > 0.0 && c > 0.0
    requires f' * f == 1.0 && f' <= big && c * big <= t && p == t * (h * f)
    ensures p >= c * h
  {
    MulBy(f', big, c);
    assert c * f' <= t;
    MulBy(c * f', t, h * f);
    assert (c * f') * (h * f) == (c * h) * (f' * f);
  }

  /** No half-way point lies strictly between consecutive 800-digit numbers. */
  lemma NoMidpointBetween(d: nat, x: int, b: nat)
    requires b < INFINITY && d >= IntPow(10, 799) && x <= 0
    ensures Midpoint(b) <= d as real * Pow(10.0, x) || Midpoint(b) >= (d + 1) as real * Pow(10.0, x)
  {
    hide Pow, IntPow, Midpoint, Significand, Exponent;
    MidpointFields(b);
    MultiplesApart(d, x, 2 * Significand(b) + 1, Exponent(b) - 1);
  }

  lemma MultiplesApart(d: nat, x: int, m: nat, e: int)
    requires d >= IntPow(10, 799) && x <= 0 && -1075 <= e && m < 18014398509481984
    ensures
      var mid := m as real * Pow(2.0, e);
      mid <= d as real * Pow(10.0, x) || mid >= (d + 1) as real * Pow(10.0, x)
  {
    hide Pow, IntPow;
    var mid := m as real * Pow(2.0, e);
    if mid > d as real * Pow(10.0, x) {
      PowOfInt(10, 799);
      PowAdd(10.0, 799, x);
      MulBy(Pow(10.0, 799), d as real, Pow(10.0, x));
      if e < 0 {
        PrecisionSuffices(m, e, x);
      }
      var n := MultipleOfTenPower(m, e, x);
      WholeMultiples(d, n, Pow(10.0, x), mid, (d + 1) as real * Pow(10.0, x));
    }
  }

  lemma WholeMultiples(d: nat, n: nat, p: real, mid: real, hi: real)
    requires p > 0.0 && mid == n as real * p && mid > d as real * p && hi == (d + 1) as real * p
    ensures mid >= hi
  {
    ProductOrder(n as real, d as real, p, mid, d as real * p);
    assert n >= d + 1;
    MulBy((d + 1) as real, n as real, p);
  }

  /** Two reals between the same half-way points round alike. */
  lemma SameRounding(v: real, w: real, lo: real, hi: real, bits: nat)
    requires lo < v < hi && lo < w < hi && RoundsTo(w, bits)
    requires forall b: nat | b < INFINITY :: Midpoint(b) <= lo || Midpoint(b) >= hi
    ensures RoundsTo(v, bits)
  {
    hide RoundsTo, Midpoint;
    BetweenIsNearest(w, bits);
    BetweenIsNearest(v, bits);
  }

  /** The first 800 digits and a 1 for the rest round as all the digits do. */
  lemma TruncationRounds(digits: Text, exponent: int, bits: nat)
    requires AllDigits(digits) && |digits| > MAX_ROUNDING_DIGITS
    requires digits[0] != ZERO && digits[|digits| - 1] != ZERO
    requires |digits| - 1 + exponent < 309
    requires AllDigits(digits[..MAX_ROUNDING_DIGITS] + [ZERO + 1])
    requires RoundsTo(Scaled(digits[..MAX_ROUNDING_DIGITS] + [ZERO + 1], exponent + |digits| - (MAX_ROUNDING_DIGITS + 1)), bits)
    ensures RoundsTo(Scaled(digits, exponent), bits)
  {
    hide Pow, RoundsTo, IntPow, Decimal;
    var n := MAX_ROUNDING_DIGITS;
    var head, tail := digits[..n], digits[n..];
    assert digits == head + tail;
    var x := exponent + |digits| - n;
    var lo, hi := Decimal(head) as real * Pow(10.0, x), (Decimal(head) + 1) as real * Pow(10.0, x);
    DecimalAtLeast(head);
    TailBetween(head, tail, exponent);
    StickyBetween(head, x);
    forall b: nat | b < INFINITY
      ensures Midpoint(b) <= lo || Midpoint(b) >= hi
    {
      NoMidpointBetween(Decimal(head), x, b);
    }
    SameRounding(Scaled(digits, exponent), Scaled(head + [ZERO + 1], x - 1), lo, hi, bits);
  }

  lemma TailBetween(head: Text, tail: Text, exponent: int)
    requires AllDigits(head) && AllDigits(tail) && tail != [] && tail[|tail| - 1] != ZERO
    ensures AllDigits(head + tail)
    ensures
      var x := exponent + |tail|;
      Decimal(head) as real * Pow(10.0, x) < Scaled(head + tail, exponent) < (Decimal(head) + 1) as real * Pow(10.0, x)
  {
    hide Pow, IntPow, Decimal;
    TailDecimal(head, tail);
    var d, t, p := Decimal(head), Decimal(tail), IntPow(10, |tail|);
    PowOfInt(10, |tail|);
    PowAdd(10.0, exponent, |tail|);
    MulReal(d, p);
    SplitBetween(d as real, t as real, p as real, Pow(10.0, exponent), Pow(10.0, exponent + |tail|), (d * p + t) as real);
  }

  lemma TailDecimal(head: Text, tail: Text)
    requires AllDigits(head) && AllDigits(tail) && tail != [] && tail[|tail| - 1] != ZERO
    ensures AllDigits(head + tail) && Decimal(head + tail) == Decimal(head) * IntPow(10, |tail|) + Decimal(tail)
    ensures 0 < Decimal(tail) < IntPow(10, |tail|)
  {
    DecimalConcat(head, tail);
    DecimalBelow(tail);
    assert Decimal(tail) == Decimal(tail[..|tail| - 1]) * 10 + (tail[|tail| - 1] - ZERO) as nat;
  }

  lemma SplitBetween(d: real, t: real, p: real, u: real, x: real, n: real)
    requires 0.0 < t < p && u > 0.0 && x == u * p && n == d * p + t
    ensures d * x < n * u < (d + 1.0) * x
  {
    assert n * u == d * x + t * u;
    MulByStrict(0.0, t, u);
    MulByStrict(t, p, u);
  }

  lemma StickyBetween(head: Text, x: int)
    requires AllDigits(head)
    ensures AllDigits(head + [ZERO + 1])
    ensures Decimal(head) as real * Pow(10.0, x) < Scaled(head + [ZERO + 1], x - 1) < (Decimal(head) + 1) as real * Pow(10.0, x)
  {
    hide Pow, Decimal;
    TailBetween(head, [ZERO + 1], x - 1);
  }

  // ---------- The whole text ----------

  /** The bits the magnitude of a number text must have. */
  ghost predicate Correct(p: Parts, f: F64)
    requires ValidParts(p)
  {
    f.F64? && f.negative == p.negative && RoundsTo(Magnitude(p), f.bits)
  }

  /** The magnitude from the significant digits and the power of ten of the last of them. */
  lemma MagnitudeIsScaled(p: Parts, all: Text, start: nat, end: nat)
    requires ValidParts(p) && all == p.whole + p.fraction && start <= end <= |all| && AllDigits(all)
    requires forall i | 0 <= i < start :: all[i] == ZERO
    requires forall i | end <= i < |all| :: all[i] == ZERO
    ensures AllDigits(all[start..end])
    ensures Magnitude(p) == Scaled(all[start..end], Scale(p.exponent) - |p.fraction| + (|all| - end))
  {
    hide Pow, IntPow, Decimal, Scale;
    TrimmedDecimal(all, start, end);
    var z, x := |all| - end, Scale(p.exponent) - |p.fraction|;
    PowOfInt(10, z);
    MulReal(Decimal(all[start..end]), IntPow(10, z));
    PowAdd(10.0, z, x);
    ScaleTwice(Decimal(all[start..end]) as real, Pow(10.0, z), Pow(10.0, x), Pow(10.0, z + x), Decimal(all) as real);
  }

  lemma ScaleTwice(d: real, z: real, x: real, zx: real, n: real)
    requires zx == z * x && n == d * z
    ensures n * x == d * zx
  {
  }

  lemma ZeroMagnitude(p: Parts)
    requires ValidParts(p)
    requires forall i | 0 <= i < |p.whole + p.fraction| :: (p.whole + p.fraction)[i] == ZERO
    ensures RoundsTo(Magnitude(p), 0)
  {
    hide Pow, RoundsTo;
    DecimalOfZeros(p.whole + p.fraction);
    TinyRoundsToZero(Magnitude(p));
  }

  lemma HugeExponent(digits: Text)
    requires AllDigits(digits) && |digits| > 15 && digits[0] != ZERO
    ensures Decimal(digits) >= 1000000000000000
  {
    hide Decimal, IntPow;
    DecimalAtLeast(digits);
    IntPowGrows(10, 15, |digits| - 1);
    TenTo15();
  }

  lemma TenTo15()
    ensures IntPow(10, 15) == 1000000000000000
  {
    assert IntPow(10, 3) == 1000;
    hide IntPow;
    IntPowAdd(10, 3, 3);
    IntPowAdd(10, 6, 6);
    IntPowAdd(10, 12, 3);
  }

  lemma {:induction false} IntPowGrows(b: nat, j: nat, k: nat)
    requires b > 0 && j <= k
    ensures IntPow(b, j) <= IntPow(b, k)
  {
    if j < k {
      IntPowGrows(b, j, k - 1);
      AtLeastOnce(b, IntPow(b, k - 1));
    }
  }

  /**
    The double nearest the number `text` writes, ties to even, and infinity past the largest;
    `NaN` for a text that writes none. The text is at most as long as a JavaScript string.
  */
  method ParseDouble(text: Text) returns (f: F64)
    requires |text| < 0x4000_0000
    ensures Split(text).None? ==> f == NaN
    ensures Split(text).Some? ==> ValidParts(Split(text).value) && Correct(Split(text).value, f)
  {
    hide Pow, RoundsTo, Decimal, IntPow, Split, Write;
    var parts := Split(text);
    if parts.None? {
      return NaN;
    }
    var p := parts.value;
    SplitIsWritten(text);
    SizesWithin(p, text);
    AllDigitsConcat(p.whole, p.fraction);
    var all := p.whole + p.fraction;
    var start := SkipZeros(all, 0, |all|);
    if start == |all| {
      ZeroMagnitude(p);
      return F64(p.negative, 0);
    }
    var end := DropZeros(all, start, |all|);
    var digits := all[start..end];
    MagnitudeIsScaled(p, all, start, end);
    var bits := RoundDigits(digits, p.exponent, |p.fraction|, |all| - end);
    return F64(p.negative, bits);
  }

  lemma SizesWithin(p: Parts, text: Text)
    requires ValidParts(p) && Write(p) == text && |text| < 0x4000_0000
    ensures |p.whole| + |p.fraction| < 0x4000_0000
  {
  }

  /** The bits for the significant digits, scaled by the exponent part less the fraction digits. */
  method RoundDigits(digits: Text, exponentPart: ExponentPart, fractionDigits: nat, trailingZeros: nat) returns (bits: nat)
    requires AllDigits(digits) && digits != [] && digits[0] != ZERO && digits[|digits| - 1] != ZERO
    requires exponentPart.ExponentPart? ==> AllDigits(exponentPart.digits)
    requires |digits| + fractionDigits + trailingZeros < 0x8000_0000
    ensures RoundsTo(Scaled(digits, Scale(exponentPart) - fractionDigits + trailingZeros), bits)
  {
    hide Pow, RoundsTo, Decimal, IntPow, Scaled;
    var expDigits := if exponentPart.NoExponent? then [ZERO] else exponentPart.digits;
    var negative := exponentPart.ExponentPart? && exponentPart.sign == Negative;
    var expStart := SkipZeros(expDigits, 0, |expDigits|);
    var significant := expDigits[expStart..];
    ghost var exact := Scale(exponentPart) - fractionDigits + trailingZeros;
    ScaleTrimmed(exponentPart, expDigits, expStart);
    if |significant| > 15 {
      HugeExponent(significant);
      if negative {
        TooSmall(digits, exact);
        return 0;
      }
      TooBig(digits, exact);
      return INFINITY;
    }
    var exponent := (if negative then -1 else 1) * Decimal(significant) - fractionDigits + trailingZeros;
    assert exponent == exact;
    if |digits| - 1 + exponent >= 309 {
      TooBig(digits, exponent);
      return INFINITY;
    }
    if |digits| + exponent <= -324 {
      TooSmall(digits, exponent);
      return 0;
    }
    if |digits| > MAX_ROUNDING_DIGITS {
      var short := digits[..MAX_ROUNDING_DIGITS] + [ZERO + 1];
      bits := RoundScaled(short, exponent + |digits| - (MAX_ROUNDING_DIGITS + 1));
      TruncationRounds(digits, exponent, bits);
    } else {
      bits := RoundScaled(digits, exponent);
    }
  }

  /** Leading zeros of the exponent part change nothing. */
  lemma ScaleTrimmed(e: ExponentPart, digits: Text, start: nat)
    requires e.ExponentPart? ==> AllDigits(e.digits)
    requires digits == if e.NoExponent? then [ZERO] else e.digits
    requires start <= |digits| && forall j | 0 <= j < start :: digits[j] == ZERO
    ensures AllDigits(digits) && AllDigits(digits[start..])
    ensures Scale(e) == (if e.ExponentPart? && e.sign == Negative then -1 else 1) * Decimal(digits[start..])
  {
    TrimmedDecimal(digits, start, |digits|);
    assert digits[start..|digits|] == digits[start..];
    assert IntPow(10, 0) == 1;
    if e.NoExponent? {
      DecimalOfZeros(digits);
      DecimalOfZeros(digits[start..]);
    }
  }

  /** The bits for digits times a power of ten, as a ratio of integers. */
  method RoundScaled(digits: Text, exponent: int) returns (bits: nat)
    requires AllDigits(digits) && digits != [] && digits[0] != ZERO
    ensures RoundsTo(Scaled(digits, exponent), bits)
  {
    hide Pow, RoundsTo, Decimal, IntPow;
    var n := Decimal(digits);
    var num := n * (if exponent > 0 then IntPow(10, exponent) else 1);
    var den := if exponent < 0 then IntPow(10, -exponent) else 1;
    ScaledRatio(digits, exponent);
    bits := RoundRatio(num, den);
  }

  lemma ScaledRatio(digits: Text, exponent: int)
    requires AllDigits(digits) && digits != [] && digits[0] != ZERO
    ensures
      var num := Decimal(digits) * (if exponent > 0 then IntPow(10, exponent) else 1);
      var den := if exponent < 0 then IntPow(10, -exponent) else 1;
      num > 0 && den > 0 && Scaled(digits, exponent) == num as real / den as real
  {
    hide Pow, Decimal, IntPow;
    DecimalAtLeast(digits);
    PowOfInt(10, |digits| - 1);
    PowZero(10.0);
    if exponent > 0 {
      PowOfInt(10, exponent);
      MulReal(Decimal(digits), IntPow(10, exponent));
      MulPositive(Decimal(digits), IntPow(10, exponent));
    } else if exponent < 0 {
      PowOfInt(10, -exponent);
      PowAdd(10.0, exponent, -exponent);
      DivideByInverse(Decimal(digits) as real, Pow(10.0, exponent), Pow(10.0, -exponent));
    }
  }

  lemma DivideByInverse(d: real, p: real, p': real)
    requires p * p' == 1.0 && p' > 0.0
    ensures d * p == d / p'
  {
    assert (d * p) * p' == d;
  }

  // ---------- What follows from correct rounding ----------

  /** A double's place in order: the two zeros share one. */
  function Rank(f: F64): int
    requires f.F64?
  {
    if f.negative then 0 - f.bits else f.bits
  }

  lemma MagnitudeNotNegative(p: Parts)
    requires ValidParts(p)
    ensures Magnitude(p) >= 0.0
  {
    hide Pow;
    AllDigitsConcat(p.whole, p.fraction);
    MulBy(0.0, Decimal(p.whole + p.fraction) as real, Pow(10.0, Scale(p.exponent) - |p.fraction|));
  }

  /** The double depends only on the number written, and keeps the order of numbers. */
  lemma DoublesFollowValues(p: Parts, f: F64, q: Parts, g: F64)
    requires ValidParts(p) && ValidParts(q) && Correct(p, f) && Correct(q, g)
    ensures JsonNumber.ValueOf(p) <= JsonNumber.ValueOf(q) ==> Rank(f) <= Rank(g)
    ensures JsonNumber.ValueOf(p) == JsonNumber.ValueOf(q) ==> Rank(f) == Rank(g)
  {
    if JsonNumber.ValueOf(p) <= JsonNumber.ValueOf(q) {
      RankMonotone(p, f, q, g);
    }
    if JsonNumber.ValueOf(q) <= JsonNumber.ValueOf(p) {
      RankMonotone(q, g, p, f);
    }
  }

  lemma RankMonotone(p: Parts, f: F64, q: Parts, g: F64)
    requires ValidParts(p) && ValidParts(q) && Correct(p, f) && Correct(q, g)
    requires JsonNumber.ValueOf(p) <= JsonNumber.ValueOf(q)
    ensures Rank(f) <= Rank(g)
  {
    hide RoundsTo, Magnitude;
    MagnitudeNotNegative(p);
    MagnitudeNotNegative(q);
    if p.negative && q.negative {
      RoundingMonotone(Magnitude(q), g.bits, Magnitude(p), f.bits);
    } else if !p.negative && !q.negative {
      RoundingMonotone(Magnitude(p), f.bits, Magnitude(q), g.bits);
    } else if !p.negative {
      ZeroRounds(Magnitude(p), f.bits);
      ZeroRounds(Magnitude(q), g.bits);
    }
  }

  lemma ZeroRounds(v: real, b: nat)
    requires v == 0.0 && RoundsTo(v, b)
    ensures b == 0
  {
    hide RoundsTo;
    TinyRoundsToZero(v);
    RoundingMonotone(v, b, v, 0);
  }
}
