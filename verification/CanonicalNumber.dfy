/** The text the node keeps for a number token. */
module CanonicalNumber {
  import opened Bytes
  import opened Text
  import opened Powers
  import opened JsonNumber
  import opened ExactDecimal

  const U64_MAX: nat := 0xFFFF_FFFF_FFFF_FFFF
  const I64_MIN: int := -0x8000_0000_0000_0000

  /** A natural in decimal, without leading zeros. */
  function NatText(n: nat): (t: Text)
    ensures t != [] && AllDigits(t)
  {
    if n < 10 then [ZERO + n as unit] else NatText(n / 10) + [ZERO + (n % 10) as unit]
  }

  lemma {:induction false} NatTextReads(n: nat)
    ensures Decimal(NatText(n)) == n
    ensures NatText(n)[0] == ZERO ==> NatText(n) == [ZERO]
  {
    if n >= 10 {
      NatTextReads(n / 10);
      var t := NatText(n / 10);
      assert NatText(n)[..|t|] == t;
    } else {
      assert NatText(n)[..0] == [];
    }
  }

  /** An integer in decimal: zero has no sign. */
  function IntegerText(negative: bool, n: nat): Text {
    if negative && n > 0 then [MINUS] + NatText(n) else NatText(n)
  }

  predicate FitsInteger(negative: bool, n: nat) {
    if negative then 0 - n >= I64_MIN else n <= U64_MAX
  }

  /** The exponent as it is kept: marked `e`, with a sign. */
  function SignedExponent(e: ExponentPart): ExponentPart {
    if e.NoExponent? then e else ExponentPart(LOWER_E, if e.sign == Unsigned then Positive else e.sign, e.digits)
  }

  function CanonicalParts(p: Parts): Text
    requires AllDigits(p.whole)
  {
    if p.fraction == [] && p.exponent.NoExponent? && FitsInteger(p.negative, Decimal(p.whole)) then
      IntegerText(p.negative, Decimal(p.whole))
    else Write(p.(exponent := SignedExponent(p.exponent)))
  }

  function Canonical(token: Text): Text
    requires IsNumber(token)
  {
    SplitIsWritten(token);
    CanonicalParts(Split(token).value)
  }

  /** The parts of a canonical text. */
  ghost function KeptParts(p: Parts): Parts
    requires ValidParts(p)
  {
    var n := Decimal(p.whole);
    if p.fraction == [] && p.exponent.NoExponent? && FitsInteger(p.negative, n) then
      Parts(p.negative && n > 0, NatText(n), [], NoExponent)
    else p.(exponent := SignedExponent(p.exponent))
  }

  lemma CanonicalIsWritten(p: Parts)
    requires ValidParts(p)
    ensures ValidParts(KeptParts(p)) && CanonicalParts(p) == Write(KeptParts(p))
    ensures Split(CanonicalParts(p)) == Some(KeptParts(p))
  {
    var k := KeptParts(p);
    if p.fraction == [] && p.exponent.NoExponent? && FitsInteger(p.negative, Decimal(p.whole)) {
      assert k.whole + ([] + []) == k.whole;
      assert [] + k.whole == k.whole;
    }
    SplitWrites(k);
  }

  /** Keeping a kept text changes nothing. */
  lemma CanonicalIdempotent(token: Text)
    requires IsNumber(token)
    ensures IsNumber(Canonical(token)) && Canonical(Canonical(token)) == Canonical(token)
  {
    hide Split, Write, CanonicalParts, NatText;
    SplitIsWritten(token);
    var p := Split(token).value;
    CanonicalIsWritten(p);
    CanonicalIsWritten(KeptParts(p));
    NatTextReads(Decimal(p.whole));
  }

  /** Keeping a text keeps the number. */
  lemma CanonicalKeepsValue(token: Text)
    requires IsNumber(token)
    ensures IsNumber(Canonical(token)) && NumberValue(Canonical(token)) == NumberValue(token)
  {
    SplitIsWritten(token);
    var p := Split(token).value;
    CanonicalIsWritten(p);
    KeptValue(p);
  }

  lemma KeptValue(p: Parts)
    requires ValidParts(p)
    ensures ValidParts(KeptParts(p)) && ValueOf(KeptParts(p)) == ValueOf(p)
  {
    hide Pow, Decimal, NatText, Magnitude;
    var k := KeptParts(p);
    if p.fraction == [] && p.exponent.NoExponent? && FitsInteger(p.negative, Decimal(p.whole)) {
      NatTextReads(Decimal(p.whole));
      IntegerMagnitude(p);
      IntegerMagnitude(k);
    } else {
      SignedExponentScale(p);
    }
  }

  lemma IntegerMagnitude(p: Parts)
    requires ValidParts(p) && p.fraction == [] && p.exponent.NoExponent?
    ensures Magnitude(p) == Decimal(p.whole) as real
  {
    hide Pow, Decimal;
    PowZero(10.0);
    assert p.whole + [] == p.whole;
  }

  lemma SignedExponentScale(p: Parts)
    requires ValidParts(p)
    ensures
      var k := p.(exponent := SignedExponent(p.exponent));
      ValidParts(k) && Magnitude(k) == Magnitude(p)
  {
    hide Pow, Decimal;
    assert Scale(SignedExponent(p.exponent)) == Scale(p.exponent);
  }

  // ---------- The JSON grammar's numbers ----------

  /** A JSON number's whole part has no leading zero but for zero itself. */
  ghost predicate JsonParts(p: Parts) {
    ValidParts(p) && (p.whole[0] == ZERO ==> p.whole == [ZERO])
  }

  lemma KeptIsJson(p: Parts)
    requires JsonParts(p)
    ensures JsonParts(KeptParts(p))
  {
    NatTextReads(Decimal(p.whole));
  }
}
