/** JavaScript text: UTF-16 code units. */
module Text {
  newtype unit = x: int | 0 <= x < 0x1_0000

  type Text = seq<unit>

  const ZERO: unit := 0x30
  const MINUS: unit := 0x2D
  const PLUS: unit := 0x2B
  const DOT: unit := 0x2E
  const LOWER_E: unit := 0x65
  const UPPER_E: unit := 0x45

  predicate IsDigit(c: unit) {
    0x30 <= c <= 0x39
  }

  predicate AllDigits(t: Text) {
    forall i | 0 <= i < |t| :: IsDigit(t[i])
  }

  /** The number a string of digits writes in decimal. */
  function Decimal(t: Text): nat
    requires AllDigits(t)
  {
    if t == [] then 0 else Decimal(t[..|t| - 1]) * 10 + (t[|t| - 1] - ZERO) as nat
  }

  /** Where the run of digits starting at `i` ends. */
  function DigitsEnd(t: Text, i: nat): (end: nat)
    requires i <= |t|
    ensures i <= end <= |t| && AllDigits(t[i..end]) && (end < |t| ==> !IsDigit(t[end]))
    decreases |t| - i
  {
    if i < |t| && IsDigit(t[i]) then
      var end := DigitsEnd(t, i + 1);
      assert t[i..end] == [t[i]] + t[i + 1..end];
      end
    else i
  }

  lemma DigitsEndIs(t: Text, i: nat, end: nat)
    requires i <= end <= |t| && AllDigits(t[i..end]) && (end < |t| ==> !IsDigit(t[end]))
    ensures DigitsEnd(t, i) == end
    decreases |t| - i
  {
    if i < end {
      assert t[i] == t[i..end][0];
      assert t[i + 1..end] == t[i..end][1..];
      DigitsEndIs(t, i + 1, end);
    }
  }
}
