/** An account's nonce state as the chain reports it, and what two reports say together. */
module NonceState {
  import opened Powers

  /** How many nonces above the base the chain accepts. */
  const NONCE_WINDOW: nat := 24

  // ---------- Bits of a number ----------

  predicate Bit(x: nat, i: nat) {
    if i == 0 then x % 2 == 1 else Bit(x / 2, i - 1)
  }

  function ShiftRight(x: nat, k: nat): nat {
    if k == 0 then x else ShiftRight(x / 2, k - 1)
  }

  function LowBits(x: nat, k: nat): nat {
    if k == 0 then 0 else x % 2 + 2 * LowBits(x / 2, k - 1)
  }

  function Or(x: nat, y: nat): nat
    decreases x + y
  {
    if x == 0 && y == 0 then 0
    else (if x % 2 == 1 || y % 2 == 1 then 1 else 0) + 2 * Or(x / 2, y / 2)
  }

  lemma {:induction false} ZeroBit(i: nat)
    ensures !Bit(0, i)
  {
    if i > 0 {
      ZeroBit(i - 1);
    }
  }

  lemma {:induction false} ShiftedBit(x: nat, k: nat, i: nat)
    ensures Bit(ShiftRight(x, k), i) == Bit(x, k + i)
  {
    if k > 0 {
      ShiftedBit(x / 2, k - 1, i);
    }
  }

  lemma {:induction false} LowBit(x: nat, k: nat, i: nat)
    ensures Bit(LowBits(x, k), i) == (i < k && Bit(x, i))
  {
    if k == 0 {
      ZeroBit(i);
    } else if i > 0 {
      assert LowBits(x, k) / 2 == LowBits(x / 2, k - 1);
      LowBit(x / 2, k - 1, i - 1);
    }
  }

  lemma HalfOr(x: nat, y: nat)
    ensures Or(x, y) / 2 == Or(x / 2, y / 2) && (Or(x, y) % 2 == 1 <==> x % 2 == 1 || y % 2 == 1)
  {
  }

  lemma {:induction false} OrBit(x: nat, y: nat, i: nat)
    ensures Bit(Or(x, y), i) == (Bit(x, i) || Bit(y, i))
    decreases i
  {
    hide Or;
    HalfOr(x, y);
    if i > 0 {
      OrBit(x / 2, y / 2, i - 1);
    }
  }

  lemma {:induction false} HighBitClear(x: nat, k: nat, i: nat)
    requires x < IntPow(2, k) && k <= i
    ensures !Bit(x, i)
  {
    if i == 0 {
    } else if k == 0 {
      ZeroBit(i);
    } else {
      HighBitClear(x / 2, k - 1, i - 1);
    }
  }

  lemma {:induction false} SizesKept(x: nat, y: nat, k: nat)
    ensures LowBits(x, k) < IntPow(2, k)
    ensures x < IntPow(2, k) && y < IntPow(2, k) ==> Or(x, y) < IntPow(2, k)
  {
    if k > 0 {
      SizesKept(x / 2, y / 2, k - 1);
    }
  }

  /** Numbers are told apart by their bits. */
  lemma {:induction false} BitsTell(x: nat, y: nat, k: nat)
    requires x < IntPow(2, k) && y < IntPow(2, k)
    requires forall i: nat | i < k :: Bit(x, i) == Bit(y, i)
    ensures x == y
  {
    if k > 0 {
      forall i: nat | i < k - 1
        ensures Bit(x / 2, i) == Bit(y / 2, i)
      {
        assert Bit(x, i + 1) == Bit(y, i + 1);
      }
      BitsTell(x / 2, y / 2, k - 1);
      assert Bit(x, 0) == Bit(y, 0);
    }
  }

  // ---------- Reports ----------

  /** Every nonce at or below the base is used; bit `i` of `used`: so is `base + 1 + i`. */
  datatype State = State(base: nat, used: nat) {
    ghost predicate Valid() {
      used < IntPow(2, NONCE_WINDOW)
    }
  }

  predicate IsUsed(s: State, nonce: int) {
    nonce <= s.base || (nonce - s.base - 1 < NONCE_WINDOW && Bit(s.used, nonce - s.base - 1))
  }

  /** The used bits read against a base at or above the state's own. */
  function UsedAbove(s: State, base: nat): nat
    requires base >= s.base
  {
    var shift := base - s.base;
    if shift >= NONCE_WINDOW then 0 else LowBits(ShiftRight(s.used, shift), NONCE_WINDOW)
  }

  function MergeStates(a: State, b: State): State {
    var base := if a.base > b.base then a.base else b.base;
    State(base, Or(UsedAbove(a, base), UsedAbove(b, base)))
  }

  lemma UsedAboveBit(s: State, base: nat, i: nat)
    requires s.Valid() && base >= s.base
    ensures Bit(UsedAbove(s, base), i) == (i < NONCE_WINDOW && IsUsed(s, base + 1 + i))
  {
    hide Bit, LowBits, ShiftRight, IntPow;
    var shift := base - s.base;
    if shift >= NONCE_WINDOW {
      ZeroBit(i);
    } else {
      LowBit(ShiftRight(s.used, shift), NONCE_WINDOW, i);
      ShiftedBit(s.used, shift, i);
      if shift + i >= NONCE_WINDOW {
        HighBitClear(s.used, NONCE_WINDOW, shift + i);
      }
    }
  }

  lemma MergeValid(a: State, b: State)
    ensures MergeStates(a, b).Valid()
  {
    hide LowBits, ShiftRight, Or, IntPow;
    var base := MergeStates(a, b).base;
    SizesKept(ShiftRight(a.used, base - a.base), 0, NONCE_WINDOW);
    SizesKept(ShiftRight(b.used, base - b.base), 0, NONCE_WINDOW);
    SizesKept(0, 0, NONCE_WINDOW);
    SizesKept(UsedAbove(a, base), UsedAbove(b, base), NONCE_WINDOW);
    assert IntPow(2, NONCE_WINDOW) > 0;
  }

  /** A nonce is used in the merged report if and only if one of the two says so. */
  lemma MergeIsUnion(a: State, b: State, nonce: int)
    requires a.Valid() && b.Valid()
    ensures IsUsed(MergeStates(a, b), nonce) <==> IsUsed(a, nonce) || IsUsed(b, nonce)
  {
    hide Bit, Or, UsedAbove, IntPow;
    var base := MergeStates(a, b).base;
    if nonce > base {
      var i := nonce - base - 1;
      OrBit(UsedAbove(a, base), UsedAbove(b, base), i);
      UsedAboveBit(a, base, i);
      UsedAboveBit(b, base, i);
    }
  }

  /** A report is its base and the nonces it shows used. */
  lemma UsedTells(a: State, b: State)
    requires a.Valid() && b.Valid() && a.base == b.base && forall nonce :: IsUsed(a, nonce) == IsUsed(b, nonce)
    ensures a == b
  {
    hide Bit, IntPow;
    forall i: nat | i < NONCE_WINDOW
      ensures Bit(a.used, i) == Bit(b.used, i)
    {
      assert IsUsed(a, a.base + 1 + i) == IsUsed(b, a.base + 1 + i);
    }
    BitsTell(a.used, b.used, NONCE_WINDOW);
  }

  /** Merging is a join: commutative, associative, idempotent. */
  lemma MergeIsJoin(a: State, b: State, c: State)
    requires a.Valid() && b.Valid() && c.Valid()
    ensures MergeStates(a, b) == MergeStates(b, a)
    ensures MergeStates(MergeStates(a, b), c) == MergeStates(a, MergeStates(b, c))
    ensures MergeStates(a, a) == a
  {
    hide IsUsed, UsedAbove, Or, IntPow;
    MergeValid(a, b);
    MergeValid(b, a);
    MergeValid(b, c);
    MergeValid(a, a);
    MergeValid(MergeStates(a, b), c);
    MergeValid(a, MergeStates(b, c));
    forall nonce
      ensures IsUsed(MergeStates(a, b), nonce) == IsUsed(MergeStates(b, a), nonce)
      ensures IsUsed(MergeStates(a, a), nonce) == IsUsed(a, nonce)
      ensures IsUsed(MergeStates(MergeStates(a, b), c), nonce) == IsUsed(MergeStates(a, MergeStates(b, c)), nonce)
    {
      MergeIsUnion(a, b, nonce);
      MergeIsUnion(b, a, nonce);
      MergeIsUnion(a, a, nonce);
      MergeIsUnion(b, c, nonce);
      MergeIsUnion(MergeStates(a, b), c, nonce);
      MergeIsUnion(a, MergeStates(b, c), nonce);
    }
    UsedTells(MergeStates(a, b), MergeStates(b, a));
    UsedTells(MergeStates(a, a), a);
    UsedTells(MergeStates(MergeStates(a, b), c), MergeStates(a, MergeStates(b, c)));
  }

  /** Reports merged in the order they arrive. */
  function MergeAll(reports: seq<State>): State
    requires reports != []
  {
    if |reports| == 1 then reports[0] else MergeStates(MergeAll(reports[..|reports| - 1]), reports[|reports| - 1])
  }

  ghost predicate AllValid(reports: seq<State>) {
    forall r <- reports :: r.Valid()
  }

  ghost predicate ReportedUsed(reports: seq<State>, nonce: int) {
    exists r <- reports :: IsUsed(r, nonce)
  }

  ghost predicate HighestBase(reports: seq<State>, base: nat) {
    (forall r <- reports :: r.base <= base) && exists r <- reports :: r.base == base
  }

  /** The reports together: the highest base, and every nonce any of them shows used. */
  lemma {:induction false} MergeAllIsUnion(reports: seq<State>)
    requires reports != [] && AllValid(reports)
    ensures MergeAll(reports).Valid() && HighestBase(reports, MergeAll(reports).base)
    ensures forall nonce :: IsUsed(MergeAll(reports), nonce) <==> ReportedUsed(reports, nonce)
  {
    hide IsUsed, IntPow, State.Valid;
    var n := |reports| - 1;
    if n > 0 {
      MergeAllIsUnion(reports[..n]);
      var before := MergeAll(reports[..n]);
      assert reports == reports[..n] + [reports[n]];
      MergeValid(before, reports[n]);
      HigherBase(reports[..n], reports[n], before.base);
      forall nonce
        ensures IsUsed(MergeAll(reports), nonce) <==> ReportedUsed(reports, nonce)
      {
        MergeIsUnion(before, reports[n], nonce);
        MoreReported(reports[..n], reports[n], nonce);
      }
    }
  }

  lemma HigherBase(reports: seq<State>, r: State, base: nat)
    requires HighestBase(reports, base)
    ensures HighestBase(reports + [r], if base > r.base then base else r.base)
  {
    var all := reports + [r];
    assert r in all;
    var highest :| highest in reports && highest.base == base;
    assert highest in all;
  }

  lemma MoreReported(reports: seq<State>, r: State, nonce: int)
    ensures ReportedUsed(reports + [r], nonce) <==> ReportedUsed(reports, nonce) || IsUsed(r, nonce)
  {
    hide IsUsed;
    assert r in reports + [r];
    if ReportedUsed(reports, nonce) {
      var s :| s in reports && IsUsed(s, nonce);
      assert s in reports + [r];
    }
  }

  /** The same reports give the same state, in whatever order and however often they arrive. */
  lemma ReportOrderIsNothing(xs: seq<State>, ys: seq<State>)
    requires xs != [] && ys != [] && AllValid(xs)
    requires forall r :: r in xs <==> r in ys
    ensures MergeAll(xs) == MergeAll(ys)
  {
    hide IsUsed, IntPow, MergeAll, State.Valid;
    MergeAllIsUnion(xs);
    MergeAllIsUnion(ys);
    UsedTells(MergeAll(xs), MergeAll(ys));
  }
}
