/** Powers with integer exponents, as reals and as naturals, and products of them. */
module Powers {
  function Pow(b: real, k: int): (p: real)
    requires b > 0.0
    ensures p > 0.0
    decreases if k < 0 then -k else k
  {
    if k == 0 then 1.0 else if k > 0 then b * Pow(b, k - 1) else Pow(b, k + 1) / b
  }

  function IntPow(b: nat, k: nat): nat {
    if k == 0 then 1 else b * IntPow(b, k - 1)
  }

  lemma PowStep(b: real, k: int)
    requires b > 0.0
    ensures Pow(b, k + 1) == b * Pow(b, k)
  {
    if k < 0 {
      assert b * (Pow(b, k + 1) / b) == Pow(b, k + 1);
    }
  }

  lemma PowZero(b: real)
    requires b > 0.0
    ensures Pow(b, 0) == 1.0 && Pow(b, 1) == b
  {
  }

  // Products, each step on named values.

  lemma ScaleSecond(b: real, p: real, y: real, z: real, w: real, q: real)
    requires p == y * z && w == b * z && q == b * p
    ensures q == y * w
  {
  }

  lemma ScaleBoth(a: real, b: real, p: real, y: real, z: real, y': real, z': real, q: real)
    requires p == y * z && y' == a * y && z' == b * z && q == (a * b) * p
    ensures q == y' * z'
  {
  }

  lemma CancelFactor(b: real, x: real, y: real)
    requires b > 0.0 && b * x == b * y
    ensures x == y
  {
  }

  lemma UnscaleSecond(b: real, p: real, y: real, z: real, w: real, q: real)
    requires b > 0.0 && p == y * z && z == b * w && p == b * q
    ensures q == y * w
  {
    assert b * q == b * (y * w);
    CancelFactor(b, q, y * w);
  }

  lemma UnscaleBoth(a: real, b: real, p: real, y: real, z: real, y': real, z': real, q: real)
    requires a > 0.0 && b > 0.0 && p == y * z && y == a * y' && z == b * z' && p == (a * b) * q
    ensures q == y' * z'
  {
    assert (a * b) * q == (a * b) * (y' * z');
    assert a * b > 0.0;
    CancelFactor(a * b, q, y' * z');
  }

  lemma MulBy(a: real, b: real, x: real)
    requires a <= b && 0.0 <= x
    ensures a * x <= b * x && x * a <= x * b
  {
    assert (b - a) * x >= 0.0;
  }

  lemma MulByStrict(a: real, b: real, x: real)
    requires a < b && 0.0 < x
    ensures a * x < b * x && x * a < x * b
  {
    assert (b - a) * x > 0.0;
  }

  lemma MulMono(a: real, b: real, x: real, y: real)
    requires 0.0 <= a <= b && 0.0 <= x <= y
    ensures a * x <= b * y
  {
    MulBy(a, b, x);
    MulBy(x, y, b);
  }

  // Laws of powers.

  lemma {:induction false} PowAdd(b: real, j: int, k: int)
    requires b > 0.0
    ensures Pow(b, j + k) == Pow(b, j) * Pow(b, k)
    decreases if k < 0 then -k else k
  {
    hide Pow;
    PowZero(b);
    if k > 0 {
      PowAdd(b, j, k - 1);
      PowStep(b, j + k - 1);
      PowStep(b, k - 1);
      assert j + k - 1 == j + (k - 1);
      ScaleSecond(b, Pow(b, j + k - 1), Pow(b, j), Pow(b, k - 1), Pow(b, k), Pow(b, j + k));
    } else if k < 0 {
      PowAdd(b, j, k + 1);
      PowStep(b, j + k);
      PowStep(b, k);
      assert j + k + 1 == j + (k + 1);
      UnscaleSecond(b, Pow(b, j + k + 1), Pow(b, j), Pow(b, k + 1), Pow(b, k), Pow(b, j + k));
    }
  }

  lemma {:induction false} PowProduct(a: real, b: real, k: int)
    requires a > 0.0 && b > 0.0
    ensures a * b > 0.0 && Pow(a * b, k) == Pow(a, k) * Pow(b, k)
    decreases if k < 0 then -k else k
  {
    hide Pow;
    var c := a * b;
    assert c > 0.0;
    PowZero(a);
    PowZero(b);
    PowZero(c);
    if k > 0 {
      PowProduct(a, b, k - 1);
      PowStep(a, k - 1);
      PowStep(b, k - 1);
      PowStep(c, k - 1);
      ScaleBoth(a, b, Pow(c, k - 1), Pow(a, k - 1), Pow(b, k - 1), Pow(a, k), Pow(b, k), Pow(c, k));
    } else if k < 0 {
      PowProduct(a, b, k + 1);
      PowStep(a, k);
      PowStep(b, k);
      PowStep(c, k);
      UnscaleBoth(a, b, Pow(c, k + 1), Pow(a, k + 1), Pow(b, k + 1), Pow(a, k), Pow(b, k), Pow(c, k));
    }
  }

  lemma {:induction false} PowGrows(b: real, j: int, k: int)
    requires b >= 1.0 && j <= k
    ensures Pow(b, j) <= Pow(b, k)
    decreases k - j
  {
    hide Pow;
    if j == k {
    } else {
      PowGrows(b, j, k - 1);
      PowStep(b, k - 1);
      TimesAtLeastOne(b, Pow(b, k - 1), Pow(b, k));
    }
  }

  lemma TimesAtLeastOne(b: real, p: real, q: real)
    requires b >= 1.0 && p >= 0.0 && q == b * p
    ensures p <= q
  {
    MulBy(1.0, b, p);
  }

  lemma {:induction false} PowOfInt(b: nat, k: nat)
    requires b > 0
    ensures IntPow(b, k) as real == Pow(b as real, k) && IntPow(b, k) > 0
  {
    if k > 0 {
      PowOfInt(b, k - 1);
      var p := IntPow(b, k - 1);
      MulReal(b, p);
      MulPositive(b, p);
    }
  }

  lemma {:induction false} IntPowAdd(b: nat, j: nat, k: nat)
    ensures IntPow(b, j + k) == IntPow(b, j) * IntPow(b, k)
  {
    if k > 0 {
      IntPowAdd(b, j, k - 1);
      assert IntPow(b, j + k) == b * IntPow(b, j + (k - 1));
      Regroup(b, IntPow(b, j), IntPow(b, k - 1));
    }
  }

  lemma Regroup(a: nat, b: nat, c: nat)
    ensures a * (b * c) == b * (a * c) == (a * b) * c
  {
  }

  lemma SmallPowers()
    ensures IntPow(2, 1) == 2 && IntPow(2, 3) == 8 && IntPow(10, 2) == 100
  {
    assert IntPow(2, 2) == 4 && IntPow(10, 1) == 10;
  }

  /** The powers the size facts start from. */
  lemma KnownPowers()
    ensures IntPow(2, 53) == 9007199254740992 && IntPow(2, 54) == 18014398509481984
    ensures IntPow(2, 93) == 9903520314283042199192993792
    ensures IntPow(10, 16) == 10000000000000000 && IntPow(10, 28) == 10000000000000000000000000000
  {
    hide IntPow;
    SmallPowers();
    IntPowAdd(2, 3, 3);
    IntPowAdd(2, 6, 6);
    IntPowAdd(2, 12, 1);
    IntPowAdd(2, 13, 13);
    IntPowAdd(2, 26, 26);
    IntPowAdd(2, 52, 1);
    IntPowAdd(2, 53, 1);
    IntPowAdd(2, 53, 26);
    IntPowAdd(2, 79, 13);
    IntPowAdd(2, 92, 1);
    IntPowAdd(10, 2, 2);
    IntPowAdd(10, 4, 4);
    IntPowAdd(10, 8, 8);
    IntPowAdd(10, 8, 4);
    IntPowAdd(10, 16, 12);
  }

  lemma MulReal(a: int, b: int)
    ensures (a * b) as real == a as real * b as real
  {
  }

  lemma MulPositive(a: nat, b: nat)
    requires a > 0 && b > 0
    ensures a * b > 0
  {
  }

  /** A bound on one power bounds its powers. */
  lemma {:induction false} PowRepeated(b: real, m: nat, bound: real, k: nat)
    requires b > 0.0 && bound > 0.0 && bound <= Pow(b, m)
    ensures Pow(bound, k) <= Pow(b, m * k)
  {
    hide Pow;
    PowZero(b);
    PowZero(bound);
    if k > 0 {
      PowRepeated(b, m, bound, k - 1);
      Multiple(m, k);
      PowAdd(b, m, m * (k - 1));
      PowStep(bound, k - 1);
      MulMono(bound, Pow(b, m), Pow(bound, k - 1), Pow(b, m * (k - 1)));
    } else {
      assert m * k == 0;
    }
  }

  lemma {:induction false} PowRepeatedBelow(b: real, m: nat, bound: real, k: nat)
    requires b > 0.0 && Pow(b, m) <= bound
    ensures bound > 0.0 && Pow(b, m * k) <= Pow(bound, k)
  {
    hide Pow;
    PowZero(b);
    PowZero(bound);
    if k > 0 {
      PowRepeatedBelow(b, m, bound, k - 1);
      Multiple(m, k);
      PowAdd(b, m, m * (k - 1));
      PowStep(bound, k - 1);
      MulMono(Pow(b, m), bound, Pow(b, m * (k - 1)), Pow(bound, k - 1));
    } else {
      assert m * k == 0;
    }
  }

  lemma Multiple(m: nat, k: nat)
    requires k > 0
    ensures m * k == m + m * (k - 1)
  {
  }
}
