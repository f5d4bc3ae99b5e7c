/** UTF-8 (section 3 of RFC 3629) of UTF-16 text, its length, and its order. */
module Utf8 {
  import opened Bytes
  import opened Text
  import opened JsonValue

  /** How many units the code point at the start of `t` takes: two for a surrogate pair. */
  function PointUnits(t: Text): nat
    requires t != []
  {
    if |t| > 1 && IsLead(t[0]) && IsTrail(t[1]) then 2 else 1
  }

  /** The code point at the start of `t`; a lone surrogate is its own. */
  function FirstPoint(t: Text): (p: nat)
    requires t != []
    ensures p < 0x11_0000
  {
    if PointUnits(t) == 2 then 0x1_0000 + (t[0] as nat - 0xD800) * 0x400 + (t[1] as nat - 0xDC00) else t[0] as nat
  }

  lemma PairIsAstral(t: Text)
    requires t != []
    ensures FirstPoint(t) > 0xFFFF <==> PointUnits(t) == 2
  {
  }

  /** No lone surrogate. */
  predicate WellFormed(t: Text) {
    if t == [] then true
    else if IsLead(t[0]) then |t| > 1 && IsTrail(t[1]) && WellFormed(t[2..])
    else !IsTrail(t[0]) && WellFormed(t[1..])
  }

  function Points(t: Text): (ps: seq<nat>)
    ensures forall i | 0 <= i < |ps| :: ps[i] < 0x11_0000
  {
    if t == [] then [] else [FirstPoint(t)] + Points(t[PointUnits(t)..])
  }

  function EncodePoint(p: nat): Bytes
    requires p < 0x11_0000
  {
    if p < 0x80 then [p as byte]
    else if p < 0x800 then [(0xC0 + p / 0x40) as byte, (0x80 + p % 0x40) as byte]
    else if p < 0x1_0000 then
      [(0xE0 + p / 0x1000) as byte, (0x80 + p / 0x40 % 0x40) as byte, (0x80 + p % 0x40) as byte]
    else
      [(0xF0 + p / 0x4_0000) as byte, (0x80 + p / 0x1000 % 0x40) as byte, (0x80 + p / 0x40 % 0x40) as byte,
       (0x80 + p % 0x40) as byte]
  }

  function EncodePoints(ps: seq<nat>): Bytes
    requires forall i | 0 <= i < |ps| :: ps[i] < 0x11_0000
  {
    if ps == [] then [] else EncodePoint(ps[0]) + EncodePoints(ps[1..])
  }

  /** The UTF-8 of a text (a lone surrogate, which no well-formed text holds, as three bytes). */
  function Encode(t: Text): Bytes {
    EncodePoints(Points(t))
  }

  // ---------- Order ----------

  predicate PointsLess(a: seq<nat>, b: seq<nat>) {
    b != [] && (a == [] || a[0] < b[0] || (a[0] == b[0] && PointsLess(a[1..], b[1..])))
  }

  /** A smaller code point's bytes come first, whatever follows. */
  lemma SmallerPointFirst(p: nat, q: nat, x: Bytes, y: Bytes)
    requires p < q < 0x11_0000
    ensures Less(EncodePoint(p) + x, EncodePoint(q) + y)
  {
    var a, b := EncodePoint(p), EncodePoint(q);
    var i := FirstDifference(p, q);
    OrderByFirstDifference(a + x, b + y, i);
  }

  /** Where the bytes of two code points first differ, the smaller's byte being the smaller. */
  lemma FirstDifference(p: nat, q: nat) returns (i: nat)
    requires p < q < 0x11_0000
    ensures i < |EncodePoint(p)| && i < |EncodePoint(q)|
    ensures forall x: Bytes, y: Bytes :: (EncodePoint(p) + x)[..i] == (EncodePoint(q) + y)[..i]
    ensures EncodePoint(p)[i] < EncodePoint(q)[i]
  {
    var a, b := EncodePoint(p), EncodePoint(q);
    if |a| != |b| {
      i := 0;
      LongerStartsHigher(p, q);
    } else {
      i := DigitDifference(p, q);
    }
    forall x: Bytes, y: Bytes
      ensures (a + x)[..i] == (b + y)[..i]
    {
      assert (a + x)[..i] == a[..i] && (b + y)[..i] == b[..i];
    }
  }

  lemma LongerStartsHigher(p: nat, q: nat)
    requires p < q < 0x11_0000 && |EncodePoint(p)| != |EncodePoint(q)|
    ensures EncodePoint(p)[0] < EncodePoint(q)[0]
  {
  }

  lemma DigitDifference(p: nat, q: nat) returns (i: nat)
    requires p < q < 0x11_0000 && |EncodePoint(p)| == |EncodePoint(q)|
    ensures i < |EncodePoint(p)| && EncodePoint(p)[..i] == EncodePoint(q)[..i]
    ensures EncodePoint(p)[i] < EncodePoint(q)[i]
  {
    if q < 0x80 {
      i := 0;
    } else if p < 0x800 {
      i := TwoBytes(p, q);
    } else if p < 0x1_0000 {
      i := ThreeBytes(p, q);
    } else {
      i := FourBytes(p, q);
    }
  }

  /** Of two numbers, the smaller has the smaller quotient by 64, or the same and the smaller remainder. */
  lemma Base64Digits(p: nat, q: nat)
    requires p < q
    ensures p / 0x40 < q / 0x40 || (p / 0x40 == q / 0x40 && p % 0x40 < q % 0x40)
  {
  }

  lemma QuotientTwice(p: nat)
    ensures p / 0x40 / 0x40 == p / 0x1000 && p / 0x1000 / 0x40 == p / 0x4_0000
  {
  }

  lemma TwoBytes(p: nat, q: nat) returns (i: nat)
    requires 0x80 <= p < q < 0x800
    ensures i < 2 && EncodePoint(p)[..i] == EncodePoint(q)[..i] && EncodePoint(p)[i] < EncodePoint(q)[i]
  {
    Base64Digits(p, q);
    i := if p / 0x40 < q / 0x40 then 0 else 1;
  }

  lemma ThreeBytes(p: nat, q: nat) returns (i: nat)
    requires 0x800 <= p < q < 0x1_0000
    ensures i < 3 && EncodePoint(p)[..i] == EncodePoint(q)[..i] && EncodePoint(p)[i] < EncodePoint(q)[i]
  {
    Base64Digits(p, q);
    QuotientTwice(p);
    QuotientTwice(q);
    if p / 0x40 < q / 0x40 {
      Base64Digits(p / 0x40, q / 0x40);
      i := if p / 0x1000 < q / 0x1000 then 0 else 1;
    } else {
      i := 2;
    }
  }

  lemma FourBytes(p: nat, q: nat) returns (i: nat)
    requires 0x1_0000 <= p < q < 0x11_0000
    ensures i < 4 && EncodePoint(p)[..i] == EncodePoint(q)[..i] && EncodePoint(p)[i] < EncodePoint(q)[i]
  {
    Base64Digits(p, q);
    QuotientTwice(p);
    QuotientTwice(q);
    if p / 0x40 < q / 0x40 {
      Base64Digits(p / 0x40, q / 0x40);
      if p / 0x1000 < q / 0x1000 {
        Base64Digits(p / 0x1000, q / 0x1000);
        i := if p / 0x4_0000 < q / 0x4_0000 then 0 else 1;
      } else {
        i := 2;
      }
    } else {
      i := 3;
    }
  }

  /** Code point order is the order of the UTF-8 bytes. */
  lemma {:induction false} PointOrderIsByteOrder(a: seq<nat>, b: seq<nat>)
    requires forall i | 0 <= i < |a| :: a[i] < 0x11_0000
    requires forall i | 0 <= i < |b| :: b[i] < 0x11_0000
    ensures PointsLess(a, b) <==> Less(EncodePoints(a), EncodePoints(b))
  {
    hide EncodePoint;
    if a != [] && b != [] {
      var x, y := EncodePoints(a[1..]), EncodePoints(b[1..]);
      if a[0] < b[0] {
        SmallerPointFirst(a[0], b[0], x, y);
      } else if b[0] < a[0] {
        SmallerPointFirst(b[0], a[0], y, x);
        LessAsymmetric(EncodePoints(b), EncodePoints(a));
      } else {
        PointOrderIsByteOrder(a[1..], b[1..]);
        LessAfterPrefix(EncodePoint(a[0]), x, y);
      }
    } else if b != [] {
      PointHasBytes(b[0]);
    }
  }

  lemma PointHasBytes(p: nat)
    requires p < 0x11_0000
    ensures EncodePoint(p) != []
  {
  }

  /** Different texts have different code points: the order below ties only equal texts. */
  lemma {:induction false} PointsTellTexts(a: Text, b: Text)
    requires Points(a) == Points(b)
    ensures a == b
    decreases |a|
  {
    if a != [] {
      var m, n := PointUnits(a), PointUnits(b);
      assert Points(a)[0] == Points(b)[0] && Points(a)[1..] == Points(b)[1..];
      PairIsAstral(a);
      PairIsAstral(b);
      assert m == n && a[..m] == b[..n];
      PointsTellTexts(a[m..], b[n..]);
      assert a == a[..m] + a[m..] && b == b[..n] + b[n..];
    }
  }

  /** The rest of both texts compares as the texts do. */
  ghost predicate ComparedTo(a: Text, b: Text, i: nat, j: nat)
    requires i <= |a| && j <= |b|
  {
    && (PointsLess(Points(a), Points(b)) <==> PointsLess(Points(a[i..]), Points(b[j..])))
    && (PointsLess(Points(b), Points(a)) <==> PointsLess(Points(b[j..]), Points(a[i..])))
    && (Points(a) == Points(b) <==> Points(a[i..]) == Points(b[j..]))
  }

  /** Strings in code point order, stepping two indices a code point at a time. */
  method CompareCodePoints(a: Text, b: Text) returns (c: int)
    ensures c < 0 <==> PointsLess(Points(a), Points(b))
    ensures c == 0 <==> a == b
    ensures c > 0 <==> PointsLess(Points(b), Points(a))
  {
    hide FirstPoint, PointUnits, Points, PointsLess, ComparedTo;
    var i, j := 0, 0;
    ComparedAtStart(a, b);
    while i < |a| && j < |b|
      invariant i <= |a| && j <= |b| && ComparedTo(a, b, i, j)
      decreases |a| - i
    {
      var ca, cb := FirstPoint(a[i..]), FirstPoint(b[j..]);
      ComparedStep(a, b, i, j);
      if ca != cb {
        return if ca < cb then -1 else 1;
      }
      i := i + if ca > 0xFFFF then 2 else 1;
      j := j + if cb > 0xFFFF then 2 else 1;
    }
    ComparedAtEnd(a, b, i, j);
    if i < |a| {
      return 1;
    }
    if j < |b| {
      return -1;
    }
    return 0;
  }

  lemma ComparedAtStart(a: Text, b: Text)
    ensures ComparedTo(a, b, 0, 0)
  {
    assert a[0..] == a && b[0..] == b;
  }

  lemma ComparedStep(a: Text, b: Text, i: nat, j: nat)
    requires i < |a| && j < |b| && ComparedTo(a, b, i, j)
    ensures
      var ca, cb := FirstPoint(a[i..]), FirstPoint(b[j..]);
      var m, n := if ca > 0xFFFF then 2 else 1, if cb > 0xFFFF then 2 else 1;
      && (ca < cb ==> PointsLess(Points(a), Points(b)) && !PointsLess(Points(b), Points(a)) && a != b)
      && (ca > cb ==> PointsLess(Points(b), Points(a)) && !PointsLess(Points(a), Points(b)) && a != b)
      && (ca == cb ==> i + m <= |a| && j + n <= |b| && ComparedTo(a, b, i + m, j + n))
  {
    hide FirstPoint, Points;
    StepPoint(a, i);
    StepPoint(b, j);
    var m, n := if FirstPoint(a[i..]) > 0xFFFF then 2 else 1, if FirstPoint(b[j..]) > 0xFFFF then 2 else 1;
    HeadsTell(FirstPoint(a[i..]), Points(a[i + m..]), FirstPoint(b[j..]), Points(b[j + n..]));
  }

  lemma HeadsTell(x: nat, s: seq<nat>, y: nat, t: seq<nat>)
    ensures PointsLess([x] + s, [y] + t) <==> x < y || (x == y && PointsLess(s, t))
    ensures PointsLess([y] + t, [x] + s) <==> y < x || (x == y && PointsLess(t, s))
    ensures [x] + s == [y] + t <==> x == y && s == t
  {
    assert ([x] + s)[1..] == s && ([y] + t)[1..] == t;
    assert ([x] + s)[0] == x && ([y] + t)[0] == y;
  }

  lemma ComparedAtEnd(a: Text, b: Text, i: nat, j: nat)
    requires i <= |a| && j <= |b| && ComparedTo(a, b, i, j) && (i == |a| || j == |b|)
    ensures PointsLess(Points(a), Points(b)) <==> i == |a| && j < |b|
    ensures PointsLess(Points(b), Points(a)) <==> i < |a| && j == |b|
    ensures a == b <==> i == |a| && j == |b|
  {
    hide FirstPoint;
    if i < |a| {
      StepPoint(a, i);
    }
    if j < |b| {
      StepPoint(b, j);
    }
    if Points(a) == Points(b) {
      PointsTellTexts(a, b);
    }
  }

  lemma StepPoint(t: Text, i: nat)
    requires i < |t|
    ensures
      var n := if FirstPoint(t[i..]) > 0xFFFF then 2 else 1;
      i + n <= |t| && Points(t[i..]) == [FirstPoint(t[i..])] + Points(t[i + n..])
      && Points(t[i..])[0] == FirstPoint(t[i..]) && Points(t[i..])[1..] == Points(t[i + n..])
  {
    PairIsAstral(t[i..]);
    assert t[i..][PointUnits(t[i..])..] == t[i + PointUnits(t[i..])..];
  }

  // ---------- Length ----------

  function Length(t: Text): nat {
    if t == [] then 0
    else if t[0] < 0x80 then 1 + Length(t[1..])
    else if t[0] < 0x800 then 2 + Length(t[1..])
    else if PointUnits(t) == 2 then 4 + Length(t[2..])
    else 3 + Length(t[1..])
  }

  /** The length counted unit by unit is the number of UTF-8 bytes. */
  lemma {:induction false} LengthIsByteCount(t: Text)
    ensures Length(t) == |Encode(t)|
    decreases |t|
  {
    if t != [] {
      var n := PointUnits(t);
      LengthIsByteCount(t[n..]);
      assert Points(t)[1..] == Points(t[n..]);
    }
  }

  /** Cut before anything but a trail surrogate, lengths add. */
  lemma {:induction false} LengthAppend(a: Text, b: Text)
    requires b == [] || !IsTrail(b[0])
    ensures Length(a + b) == Length(a) + Length(b)
    decreases |a|
  {
    if a == [] {
      assert a + b == b;
    } else {
      var n := PointUnits(a);
      assert PointUnits(a + b) == n;
      assert (a + b)[n..] == a[n..] + b;
      LengthAppend(a[n..], b);
    }
  }

  lemma LengthAscii(c: unit, t: Text)
    requires c < 0x80
    ensures Length([c] + t) == 1 + Length(t)
  {
    assert ([c] + t)[1..] == t;
  }
}
