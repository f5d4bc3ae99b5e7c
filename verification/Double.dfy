/**
  IEEE 754 doubles as their bits, the reals they stand for, and what it is for one to be the
  nearest to a real, ties to even.
*/
module Double {
  import opened Powers

  /** 2^52: the bits of a double's fraction field count below it. */
  const TWO52: nat := 0x10_0000_0000_0000

  /** The bits of infinity, just past those of the largest finite double. */
  const INFINITY: nat := 2047 * TWO52

  /** A sign, and the 63 bits below it; `NaN` for a text that is no number. */
  datatype F64 = NaN | F64(negative: bool, bits: nat)

  function Exponent(b: nat): int {
    if b < TWO52 then -1074 else b / TWO52 - 1075
  }

  function Significand(b: nat): nat {
    if b < TWO52 then b else TWO52 + b % TWO52
  }

  function ValueOf(b: nat): real {
    Significand(b) as real * Pow(2.0, Exponent(b))
  }

  /** Past this, half-way from the largest finite double to 2^1024, a real rounds to infinity. */
  ghost function Limit(): real {
    18014398509481983.0 * Pow(2.0, 970)
  }

  function Distance(x: real, y: real): real {
    if x < y then y - x else x - y
  }

  /** No finite double is nearer to `v` than `b`; of two as near, `b` is the even one. */
  ghost predicate RoundsTo(v: real, b: nat) {
    if b >= INFINITY then b == INFINITY && v >= Limit()
    else
      && v < Limit()
      && forall g: nat | g < INFINITY ::
           && Distance(v, ValueOf(b)) <= Distance(v, ValueOf(g))
           && (g != b && Distance(v, ValueOf(b)) == Distance(v, ValueOf(g)) ==> b % 2 == 0)
  }

  // ---------- Neighbours ----------

  lemma FieldsNext(b: nat)
    ensures || (Exponent(b + 1) == Exponent(b) && Significand(b + 1) == Significand(b) + 1)
            || (Exponent(b + 1) == Exponent(b) + 1 && 2 * Significand(b + 1) == Significand(b) + 1)
  {
    var k, r := b / TWO52, b % TWO52;
    if r == TWO52 - 1 {
      assert (b + 1) / TWO52 == k + 1 && (b + 1) % TWO52 == 0;
    } else {
      assert (b + 1) / TWO52 == k && (b + 1) % TWO52 == r + 1;
    }
  }

  /** The next double is one unit in the last place above. */
  lemma ValueNext(b: nat)
    ensures ValueOf(b + 1) == ValueOf(b) + Pow(2.0, Exponent(b))
  {
    hide Pow, Exponent, Significand;
    FieldsNext(b);
    var s, e, s' := Significand(b), Exponent(b), Significand(b + 1);
    if Exponent(b + 1) == e {
      NextInBinade(s as real, Pow(2.0, e));
    } else {
      PowStep(2.0, e);
      NextBinade(s as real, s' as real, Pow(2.0, e), Pow(2.0, e + 1));
    }
  }

  lemma NextInBinade(s: real, p: real)
    ensures (s + 1.0) * p == s * p + p
  {
  }

  lemma NextBinade(s: real, s': real, p: real, p': real)
    requires 2.0 * s' == s + 1.0 && p' == 2.0 * p
    ensures s' * p' == s * p + p
  {
    assert s' * p' == (2.0 * s') * p;
  }

  /** Half a unit in the last place. */
  ghost function HalfUlp(b: nat): (h: real)
    ensures h > 0.0
  {
    Pow(2.0, Exponent(b) - 1)
  }

  /** Half-way from a double to the next. */
  ghost function Midpoint(b: nat): real {
    ValueOf(b) + HalfUlp(b)
  }

  lemma MidpointIsMiddle(b: nat)
    ensures Midpoint(b) - ValueOf(b) == HalfUlp(b) == ValueOf(b + 1) - Midpoint(b)
    ensures ValueOf(b) < Midpoint(b) < ValueOf(b + 1)
  {
    hide Pow, Exponent, ValueOf;
    ValueNext(b);
    PowStep(2.0, Exponent(b) - 1);
  }

  lemma {:induction false} ValueGrows(a: nat, b: nat)
    requires a <= b
    ensures ValueOf(a) <= ValueOf(b) && (a < b ==> ValueOf(a) < ValueOf(b))
    decreases b - a
  {
    hide ValueOf;
    if a < b {
      ValueGrows(a, b - 1);
      MidpointIsMiddle(b - 1);
    }
  }

  lemma LimitIsMidpoint()
    ensures Limit() == Midpoint(INFINITY - 1)
  {
    var b: nat := INFINITY - 1;
    assert b / TWO52 == 2046 && b % TWO52 == TWO52 - 1;
    assert Exponent(b) == 971 && Significand(b) == 2 * TWO52 - 1;
    PowStep(2.0, 970);
    LimitSum(Pow(2.0, 970), Pow(2.0, 971));
  }

  lemma LimitSum(p: real, p': real)
    requires p' == 2.0 * p
    ensures 9007199254740991.0 * p' + p == 18014398509481983.0 * p
  {
  }

  // ---------- Rounding as a place between midpoints ----------

  /** `v` lies between the midpoints around `b`, or on one when `b` is even. */
  ghost predicate Between(v: real, b: nat) {
    && b <= INFINITY
    && (b > 0 ==> v > Midpoint(b - 1) || (v == Midpoint(b - 1) && b % 2 == 0))
    && (b < INFINITY ==> v < Midpoint(b) || (v == Midpoint(b) && b % 2 == 0))
  }

  lemma NotNearerAbove(v: real, b: nat, g: nat)
    requires Between(v, b) && b < g < INFINITY
    ensures Distance(v, ValueOf(b)) <= Distance(v, ValueOf(g))
    ensures Distance(v, ValueOf(b)) == Distance(v, ValueOf(g)) ==> b % 2 == 0
  {
    hide ValueOf;
    MidpointIsMiddle(b);
    ValueGrows(b + 1, g);
  }

  lemma NotNearerBelow(v: real, b: nat, g: nat)
    requires Between(v, b) && g < b < INFINITY
    ensures Distance(v, ValueOf(b)) <= Distance(v, ValueOf(g))
    ensures Distance(v, ValueOf(b)) == Distance(v, ValueOf(g)) ==> b % 2 == 0
  {
    hide ValueOf;
    MidpointIsMiddle(b - 1);
    ValueGrows(g, b - 1);
  }

  lemma MidpointGrows(a: nat, b: nat)
    requires a <= b
    ensures Midpoint(a) <= Midpoint(b) && (a < b ==> Midpoint(a) < Midpoint(b))
  {
    hide ValueOf, HalfUlp;
    if a < b {
      MidpointIsMiddle(a);
      MidpointIsMiddle(b);
      ValueGrows(a + 1, b);
    }
  }

  lemma BelowLimit(v: real, b: nat)
    requires Between(v, b) && b < INFINITY
    ensures v < Limit()
  {
    hide ValueOf, HalfUlp, Midpoint, Limit;
    LimitIsMidpoint();
    MidpointGrows(b, INFINITY - 1);
  }

  /** The place between midpoints is exactly what makes a double the nearest. */
  lemma BetweenIsNearest(v: real, b: nat)
    ensures Between(v, b) <==> RoundsTo(v, b)
  {
    hide ValueOf, HalfUlp, Limit;
    if Between(v, b) {
      LimitIsMidpoint();
      if b < INFINITY {
        BelowLimit(v, b);
        forall g: nat | g < INFINITY
          ensures Distance(v, ValueOf(b)) <= Distance(v, ValueOf(g))
          ensures g != b && Distance(v, ValueOf(b)) == Distance(v, ValueOf(g)) ==> b % 2 == 0
        {
          if g < b {
            NotNearerBelow(v, b, g);
          } else if g > b {
            NotNearerAbove(v, b, g);
          }
        }
      }
    }
    if RoundsTo(v, b) {
      NearestIsBetween(v, b);
    }
  }

  lemma NearestIsBetween(v: real, b: nat)
    requires RoundsTo(v, b)
    ensures Between(v, b)
  {
    hide ValueOf, HalfUlp, Limit;
    LimitIsMidpoint();
    if b < INFINITY {
      MidpointIsMiddle(b);
      if b + 1 < INFINITY {
        assert Distance(v, ValueOf(b)) <= Distance(v, ValueOf(b + 1));
      }
      if b > 0 {
        MidpointIsMiddle(b - 1);
        assert Distance(v, ValueOf(b)) <= Distance(v, ValueOf(b - 1));
      }
    }
  }

  /** Rounding keeps order, so a real rounds to one double only. */
  lemma RoundingMonotone(v: real, b: nat, w: real, c: nat)
    requires RoundsTo(v, b) && RoundsTo(w, c) && v <= w
    ensures b <= c
  {
    hide ValueOf, HalfUlp, Limit, Midpoint, RoundsTo;
    BetweenIsNearest(v, b);
    BetweenIsNearest(w, c);
    if b > c {
      MidpointGrows(c, b - 1);
    }
  }

  /** Every real that is not negative has a nearest double. */
  lemma {:induction false} NearestExists(v: real, n: nat) returns (b: nat)
    requires v >= 0.0 && n <= INFINITY
    requires n < INFINITY ==> v < Midpoint(n) || (v == Midpoint(n) && n % 2 == 0)
    ensures RoundsTo(v, b)
    decreases n
  {
    hide Midpoint, RoundsTo;
    if n == 0 || v > Midpoint(n - 1) || (v == Midpoint(n - 1) && n % 2 == 0) {
      b := n;
      BetweenIsNearest(v, b);
    } else {
      b := NearestExists(v, n - 1);
    }
  }

  // ---------- From a quotient and an exponent ----------

  /** The bits of q × 2^e, for a significand that fills its 53 bits or the least exponent. */
  function Assemble(q: nat, e: int): int {
    (e + 1074) * TWO52 + q
  }

  ghost predicate Normalized(q: nat, e: int) {
    e >= -1074 && q < 2 * TWO52 && (e > -1074 ==> q >= TWO52)
  }

  lemma AssembledFields(q: nat, e: int)
    requires Normalized(q, e)
    ensures Assemble(q, e) >= 0 && Exponent(Assemble(q, e)) == e && Significand(Assemble(q, e)) == q
  {
    var b := Assemble(q, e);
    if q >= TWO52 {
      assert b == (e + 1075) * TWO52 + (q - TWO52);
      assert b / TWO52 == e + 1075 && b % TWO52 == q - TWO52;
    }
  }

  /** Between two neighbours, the midpoint decides. */
  lemma RoundBetweenNeighbours(v: real, b: nat)
    requires ValueOf(b) <= v < ValueOf(b + 1) && b < INFINITY
    ensures if v < Midpoint(b) || (v == Midpoint(b) && b % 2 == 0) then Between(v, b) else Between(v, b + 1)
  {
    hide ValueOf, HalfUlp, Midpoint;
    MidpointIsMiddle(b);
    MidpointIsMiddle(b + 1);
    if b > 0 {
      MidpointIsMiddle(b - 1);
    }
  }

  lemma RoundOverflow(v: real, b: nat)
    requires ValueOf(b) <= v && b >= INFINITY
    ensures Between(v, INFINITY)
  {
    hide ValueOf, HalfUlp, Midpoint;
    ValueGrows(INFINITY, b);
    MidpointIsMiddle(INFINITY - 1);
  }

  /** v / 2^e truncated to q, with the remainder's place against one half: the two candidates. */
  lemma RoundQuotient(v: real, q: nat, e: int, f: real)
    requires Normalized(q, e) && 0.0 <= f < 1.0 && v == (q as real + f) * Pow(2.0, e)
    ensures Assemble(q, e) >= 0
    ensures
      var b: nat := Assemble(q, e);
      if b >= INFINITY then RoundsTo(v, INFINITY)
      else if f < 0.5 || (f == 0.5 && q % 2 == 0) then RoundsTo(v, b)
      else RoundsTo(v, b + 1)
  {
    hide Pow, Exponent, Significand, RoundsTo, Between, Normalized, ValueOf, Midpoint, Assemble;
    AssembledFields(q, e);
    var b: nat := Assemble(q, e);
    QuotientNeighbours(v, q, e, f);
    SameParity(q, e);
    if b >= INFINITY {
      RoundOverflow(v, b);
      BetweenIsNearest(v, INFINITY);
    } else {
      RoundBetweenNeighbours(v, b);
      BetweenIsNearest(v, b);
      BetweenIsNearest(v, b + 1);
    }
  }

  lemma QuotientNeighbours(v: real, q: nat, e: int, f: real)
    requires Normalized(q, e) && 0.0 <= f < 1.0 && v == (q as real + f) * Pow(2.0, e)
    ensures Assemble(q, e) >= 0
    ensures
      var b: nat := Assemble(q, e);
      && ValueOf(b) <= v < ValueOf(b + 1)
      && (v < Midpoint(b) <==> f < 0.5) && (v == Midpoint(b) <==> f == 0.5)
  {
    hide Pow, Exponent, Significand;
    AssembledFields(q, e);
    var b: nat := Assemble(q, e);
    var p := Pow(2.0, e);
    PowStep(2.0, e - 1);
    Offsets(q as real, f, p, v);
    ValueNext(b);
  }

  lemma Offsets(q: real, f: real, p: real, v: real)
    requires p > 0.0 && 0.0 <= f < 1.0 && v == (q + f) * p
    ensures q * p <= v < q * p + p
    ensures (f < 0.5 <==> v < q * p + p / 2.0) && (f == 0.5 <==> v == q * p + p / 2.0)
  {
    var part := f * p;
    assert v == q * p + part;
    PartOf(f, p, part);
  }

  lemma PartOf(f: real, p: real, part: real)
    requires p > 0.0 && 0.0 <= f < 1.0 && part == f * p
    ensures 0.0 <= part < p
    ensures (f < 0.5 <==> part < p / 2.0) && (f == 0.5 <==> part == p / 2.0)
  {
    ProductOrder(0.0, f, p, 0.0, part);
    ProductOrder(f, 1.0, p, part, p);
    ProductOrder(f, 0.5, p, part, p / 2.0);
    ProductOrder(0.5, f, p, p / 2.0, part);
  }

  lemma ProductOrder(x: real, y: real, p: real, xp: real, yp: real)
    requires p > 0.0 && xp == x * p && yp == y * p
    ensures (x < y ==> xp < yp) && (x == y ==> xp == yp)
  {
    if x < y {
      MulByStrict(x, y, p);
    }
  }

  lemma SameParity(q: nat, e: int)
    requires Assemble(q, e) >= 0
    ensures Assemble(q, e) % 2 == q % 2
  {
    assert (e + 1074) * TWO52 == 2 * ((e + 1074) * (TWO52 / 2));
  }
}
