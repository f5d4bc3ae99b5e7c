/** The text of a number as its parts, and the real it writes. */
module JsonNumber {
  import opened Bytes
  import opened Text
  import opened Powers

  datatype Sign = Unsigned | Positive | Negative

  datatype ExponentPart = NoExponent | ExponentPart(marker: unit, sign: Sign, digits: Text)

  /** `fraction` is empty when there is no point. */
  datatype Parts = Parts(negative: bool, whole: Text, fraction: Text, exponent: ExponentPart)

  ghost predicate ValidParts(p: Parts) {
    && p.whole != [] && AllDigits(p.whole) && AllDigits(p.fraction)
    && (p.exponent.ExponentPart? ==>
          && (p.exponent.marker == LOWER_E || p.exponent.marker == UPPER_E)
          && p.exponent.digits != [] && AllDigits(p.exponent.digits))
  }

  function WriteSign(s: Sign): Text {
    match s
    case Unsigned => []
    case Positive => [PLUS]
    case Negative => [MINUS]
  }

  function WriteExponent(e: ExponentPart): Text {
    if e.NoExponent? then [] else [e.marker] + WriteSign(e.sign) + e.digits
  }

  function WriteFraction(f: Text): Text {
    if f == [] then [] else [DOT] + f
  }

  function Write(p: Parts): Text {
    (if p.negative then [MINUS] else []) + (p.whole + (WriteFraction(p.fraction) + WriteExponent(p.exponent)))
  }

  // Reading back, by maximal runs of digits, as the number expressions match.

  function SplitExponent(t: Text): Option<ExponentPart> {
    if t == [] then Some(NoExponent)
    else if t[0] != LOWER_E && t[0] != UPPER_E then None
    else
      var sign := if |t| > 1 && t[1] == PLUS then Positive else if |t| > 1 && t[1] == MINUS then Negative else Unsigned;
      var digits := if sign == Unsigned then t[1..] else t[2..];
      if digits != [] && AllDigits(digits) then Some(ExponentPart(t[0], sign, digits)) else None
  }

  function SplitFraction(t: Text): Option<(Text, ExponentPart)> {
    if t != [] && t[0] == DOT then
      var end := DigitsEnd(t, 1);
      var exponent :- SplitExponent(t[end..]);
      if end == 1 then None else Some((t[1..end], exponent))
    else
      var exponent :- SplitExponent(t);
      Some(([], exponent))
  }

  /** The parts of a text that is an optional sign, digits, and an optional fraction and exponent. */
  function Split(t: Text): Option<Parts> {
    var negative := t != [] && t[0] == MINUS;
    var s := if negative then t[1..] else t;
    var end := DigitsEnd(s, 0);
    if end == 0 then None
    else
      var (fraction, exponent) :- SplitFraction(s[end..]);
      Some(Parts(negative, s[..end], fraction, exponent))
  }

  lemma SplitExponentWrites(e: ExponentPart)
    requires ValidParts(Parts(false, [ZERO], [], e))
    ensures SplitExponent(WriteExponent(e)) == Some(e)
  {
    if e.ExponentPart? {
      var t := WriteExponent(e);
      assert e.sign == Unsigned ==> t[1..] == e.digits && IsDigit(t[1]);
      assert e.sign != Unsigned ==> t[2..] == e.digits;
    }
  }

  lemma ExponentStart(e: ExponentPart)
    requires ValidParts(Parts(false, [ZERO], [], e))
    ensures WriteExponent(e) != [] ==> WriteExponent(e)[0] != DOT && !IsDigit(WriteExponent(e)[0])
  {
  }

  lemma SplitFractionWrites(f: Text, e: ExponentPart)
    requires ValidParts(Parts(false, [ZERO], f, e))
    ensures SplitFraction(WriteFraction(f) + WriteExponent(e)) == Some((f, e))
  {
    hide WriteExponent, SplitExponent, DigitsEnd;
    SplitExponentWrites(e);
    ExponentStart(e);
    var t := WriteFraction(f) + WriteExponent(e);
    if f == [] {
      assert t == WriteExponent(e);
    } else {
      assert t[1..|f| + 1] == f && t[|f| + 1..] == WriteExponent(e);
      DigitsEndIs(t, 1, |f| + 1);
    }
  }

  /** A written number splits into the parts it was written from. */
  lemma SplitWrites(p: Parts)
    requires ValidParts(p)
    ensures Split(Write(p)) == Some(p)
  {
    hide WriteFraction, WriteExponent, SplitFraction;
    var rest := WriteFraction(p.fraction) + WriteExponent(p.exponent);
    SplitFractionWrites(p.fraction, p.exponent);
    RestStarts(p.fraction, p.exponent);
    var s := p.whole + rest;
    assert s[..|p.whole|] == p.whole && s[|p.whole|..] == rest;
    assert s[0] == p.whole[0] && IsDigit(p.whole[0]);
    DigitsEndIs(s, 0, |p.whole|);
    assert ([MINUS] + s)[1..] == s && [] + s == s;
  }

  /** What follows the whole part is no digit. */
  lemma RestStarts(f: Text, e: ExponentPart)
    requires ValidParts(Parts(false, [ZERO], f, e))
    ensures
      var rest := WriteFraction(f) + WriteExponent(e);
      rest != [] ==> !IsDigit(rest[0])
  {
  }

  /** Every text that splits is written from its parts. */
  lemma SplitIsWritten(t: Text)
    requires Split(t).Some?
    ensures ValidParts(Split(t).value) && Write(Split(t).value) == t
  {
    hide WriteFraction, WriteExponent, SplitFraction;
    var p := Split(t).value;
    var s := if p.negative then t[1..] else t;
    var end := DigitsEnd(s, 0);
    SplitFractionIsWritten(s[end..]);
    assert s == s[..end] + s[end..];
    assert t == (if p.negative then [MINUS] else []) + s;
  }

  lemma SplitFractionIsWritten(t: Text)
    requires SplitFraction(t).Some?
    ensures
      var (f, e) := SplitFraction(t).value;
      WriteFraction(f) + WriteExponent(e) == t && ValidParts(Parts(false, [ZERO], f, e))
  {
    if t != [] && t[0] == DOT {
      var end := DigitsEnd(t, 1);
      assert t == [DOT] + t[1..end] + t[end..];
      SplitExponentIsWritten(t[end..]);
    } else {
      SplitExponentIsWritten(t);
    }
  }

  lemma SplitExponentIsWritten(t: Text)
    requires SplitExponent(t).Some?
    ensures WriteExponent(SplitExponent(t).value) == t && ValidParts(Parts(false, [ZERO], [], SplitExponent(t).value))
  {
  }

  // ---------- The number written ----------

  function SignedDecimal(sign: Sign, digits: Text): int
    requires AllDigits(digits)
  {
    if sign == Negative then 0 - Decimal(digits) else Decimal(digits)
  }

  /** The power of ten the exponent part gives. */
  function Scale(e: ExponentPart): int
    requires e.ExponentPart? ==> AllDigits(e.digits)
  {
    if e.NoExponent? then 0 else SignedDecimal(e.sign, e.digits)
  }

  lemma AllDigitsConcat(a: Text, b: Text)
    requires AllDigits(a) && AllDigits(b)
    ensures AllDigits(a + b)
  {
  }

  /** The absolute value: the digits over all, by the power of ten of the last. */
  ghost function Magnitude(p: Parts): real
    requires ValidParts(p)
  {
    AllDigitsConcat(p.whole, p.fraction);
    Decimal(p.whole + p.fraction) as real * Pow(10.0, Scale(p.exponent) - |p.fraction|)
  }

  ghost function ValueOf(p: Parts): real
    requires ValidParts(p)
  {
    if p.negative then -Magnitude(p) else Magnitude(p)
  }
}
