/** The compact text of a value, and that reading it gives the value back. */
module JsonPrint {
  import opened Bytes
  import opened Text
  import opened JsonNumber
  import opened ExactDecimal
  import opened CanonicalNumber
  import opened JsonValue

  // ---------- Writing ----------

  /** A hexadecimal digit. */
  function HexDigit(n: nat): unit
    requires n < 16
  {
    if n < 10 then ZERO + n as unit else 0x61 + (n - 10) as unit
  }

  /** The letter that escapes `c`, when it has a short escape. */
  function EscapeLetter(c: unit): Option<unit> {
    if c == QUOTE || c == BACKSLASH then Some(c)
    else if c == 0x08 then Some(0x62)
    else if c == 0x09 then Some(0x74)
    else if c == 0x0A then Some(0x6E)
    else if c == 0x0C then Some(0x66)
    else if c == 0x0D then Some(0x72)
    else None
  }

  function EscapeUnit(c: unit): (t: Text)
    ensures t != []
  {
    match EscapeLetter(c)
    case Some(l) => [BACKSLASH, l]
    case None =>
      if c < 0x20 then [BACKSLASH, LOWER_U, ZERO, ZERO, HexDigit(c as nat / 16), HexDigit(c as nat % 16)] else [c]
  }

  function EscapeAll(s: Text): Text {
    if s == [] then [] else EscapeUnit(s[0]) + EscapeAll(s[1..])
  }

  function PrintString(s: Text): Text {
    [QUOTE] + (EscapeAll(s) + [QUOTE])
  }

  function Print(v: NodeJson): Text
    decreases v, 0
  {
    match v
    case JNull => NULL_WORD
    case JBool(b) => if b then TRUE_WORD else FALSE_WORD
    case JNum(n) => n
    case JStr(s) => PrintString(s)
    case JArr(items) => [OPEN_ARRAY] + (PrintItems(items) + [CLOSE_ARRAY])
    case JObj(fields) => [OPEN_OBJECT] + (PrintFields(fields) + [CLOSE_OBJECT])
  }

  function PrintItems(items: seq<NodeJson>): Text
    decreases items, 1
  {
    if items == [] then [] else Print(items[0]) + (if |items| == 1 then [] else [COMMA] + PrintItems(items[1..]))
  }

  function PrintField(f: Field): Text
    decreases f, 1
  {
    PrintString(f.key) + ([COLON] + Print(f.value))
  }

  function PrintFields(fields: seq<Field>): Text
    decreases fields, 2
  {
    if fields == [] then []
    else PrintField(fields[0]) + (if |fields| == 1 then [] else [COMMA] + PrintFields(fields[1..]))
  }

  // ---------- The values the node can hold ----------

  ghost predicate DistinctKeys(fields: seq<Field>) {
    forall i, j | 0 <= i < j < |fields| :: fields[i].key != fields[j].key
  }

  /** A number text as the node keeps one. */
  ghost predicate KeptNumber(n: Text) {
    IsNumber(n) && JsonParts(Split(n).value) && Canonical(n) == n
  }

  /** At most `room` arrays and objects nested, kept numbers, one field a key, no private first key. */
  ghost predicate Readable(v: NodeJson, room: int)
    decreases v
  {
    match v
    case JNum(n) => KeptNumber(n)
    case JArr(items) => room > 0 && forall x <- items :: Readable(x, room - 1)
    case JObj(fields) =>
      && room > 0 && DistinctKeys(fields) && (fields != [] ==> fields[0].key !in PrivateTokens())
      && forall f <- fields :: Readable(f.value, room - 1)
    case _ => true
  }

  // ---------- Round trip: strings ----------

  lemma EscapeReads(c: unit, post: Text)
    requires EscapeUnit(c) != [c]
    ensures EscapeUnit(c)[0] == BACKSLASH
    ensures ReadEscape(EscapeUnit(c)[1..] + post) == Got([c], post)
  {
    var t := EscapeUnit(c)[1..] + post;
    if EscapeLetter(c).Some? {
      assert t[1..] == post;
    } else {
      var a, b := HexDigit(c as nat / 16), HexDigit(c as nat % 16);
      assert t == [LOWER_U, ZERO, ZERO, a, b] + post;
      assert t[1..] == [ZERO, ZERO, a, b] + post;
      assert t[1..][4..] == post;
      assert HexValue(a) == c as nat / 16 && HexValue(b) == c as nat % 16;
    }
  }

  lemma PlainUnit(c: unit)
    requires EscapeUnit(c) == [c]
    ensures c != QUOTE && c != BACKSLASH && c >= 0x20
  {
  }

  lemma {:induction false} StringReads(s: Text, post: Text)
    ensures ReadString(EscapeAll(s) + ([QUOTE] + post)) == Got(s, post)
  {
    hide EscapeUnit, ReadEscape;
    var tail := [QUOTE] + post;
    if s == [] {
      assert EscapeAll(s) + tail == tail;
      assert tail[1..] == post;
    } else {
      StringReads(s[1..], post);
      var e, more := EscapeUnit(s[0]), EscapeAll(s[1..]) + tail;
      assert EscapeAll(s) + tail == e + more;
      assert s == [s[0]] + s[1..];
      if e == [s[0]] {
        PlainUnit(s[0]);
        assert (e + more)[1..] == more;
      } else {
        EscapeReads(s[0], more);
        assert (e + more)[0] == e[0] && (e + more)[1..] == e[1..] + more;
      }
    }
  }

  // ---------- Round trip: numbers ----------

  /** The text after a value does not go on as a number. */
  ghost predicate Ends(post: Text) {
    post != [] ==> !IsDigit(post[0]) && post[0] != DOT && post[0] != LOWER_E && post[0] != UPPER_E
  }

  lemma DigitsThen(d: Text, post: Text)
    requires AllDigits(d) && (post != [] ==> !IsDigit(post[0]))
    ensures Digits(d + post) == (d, post)
  {
    assert (d + post)[0..|d|] == d && (d + post)[|d|..] == post;
    DigitsEndIs(d + post, 0, |d|);
  }

  lemma ExponentReads(e: ExponentPart, post: Text)
    requires ValidParts(Parts(false, [ZERO], [], e)) && Ends(post)
    ensures AfterExponent(WriteExponent(e) + post) == Got((), post)
  {
    if e.ExponentPart? {
      DigitsThen(e.digits, post);
      SignReads(e, post);
    } else {
      assert [] + post == post;
    }
  }

  lemma SignReads(e: ExponentPart, post: Text)
    requires ValidParts(Parts(false, [ZERO], [], e)) && e.ExponentPart?
    ensures
      var t := WriteExponent(e) + post;
      && t[0] == e.marker && |t| > 1
      && ((t[1] == PLUS || t[1] == MINUS) <==> e.sign != Unsigned)
      && (if e.sign == Unsigned then t[1..] else t[2..]) == e.digits + post
  {
    var t := WriteExponent(e) + post;
    if e.sign == Unsigned {
      assert t == [e.marker] + (e.digits + post);
      assert t[1] == e.digits[0];
    } else {
      assert t == [e.marker] + (WriteSign(e.sign) + (e.digits + post));
    }
  }

  lemma FractionReads(f: Text, post: Text)
    requires AllDigits(f) && (post != [] ==> !IsDigit(post[0]) && post[0] != DOT)
    ensures AfterFraction(WriteFraction(f) + post) == Got((), post)
  {
    if f != [] {
      DigitsThen(f, post);
      assert (WriteFraction(f) + post)[1..] == f + post;
    } else {
      assert [] + post == post;
    }
  }

  lemma WholeReads(w: Text, post: Text)
    requires w != [] && AllDigits(w) && (w[0] == ZERO ==> w == [ZERO]) && (post != [] ==> !IsDigit(post[0]))
    ensures AfterWhole(w + post) == Got((), post)
  {
    DigitsThen(w, post);
    if w[0] == ZERO {
      DigitsThen([], post);
      assert [] + post == post && (w + post)[1..] == post;
    }
  }

  lemma NumberReads(p: Parts, post: Text)
    requires JsonParts(p) && Ends(post)
    ensures AfterNumber(Write(p) + post) == Got((), post)
  {
    hide AfterWhole, AfterFraction, AfterExponent, WriteFraction, WriteExponent;
    var e := WriteExponent(p.exponent) + post;
    var f := WriteFraction(p.fraction) + e;
    ExponentReads(p.exponent, post);
    ExponentStarts(p.exponent, post);
    FractionReads(p.fraction, e);
    FractionStarts(p.fraction, e);
    WholeReads(p.whole, f);
    var sign := if p.negative then [MINUS] else [];
    JoinParts(sign, p.whole, WriteFraction(p.fraction), WriteExponent(p.exponent), post);
    assert Write(p) + post == sign + (p.whole + f);
    assert ([MINUS] + (p.whole + f))[1..] == p.whole + f && [] + (p.whole + f) == p.whole + f;
    assert (p.whole + f)[0] == p.whole[0] && IsDigit(p.whole[0]);
  }

  lemma ExponentStarts(e: ExponentPart, post: Text)
    requires ValidParts(Parts(false, [ZERO], [], e)) && Ends(post)
    ensures
      var t := WriteExponent(e) + post;
      t != [] ==> !IsDigit(t[0]) && t[0] != DOT
  {
    if e.NoExponent? {
      assert [] + post == post;
    }
  }

  lemma FractionStarts(f: Text, post: Text)
    requires post != [] ==> !IsDigit(post[0])
    ensures
      var t := WriteFraction(f) + post;
      t != [] ==> !IsDigit(t[0])
  {
    if f == [] {
      assert [] + post == post;
    }
  }

  lemma NumberValueReads(n: Text, post: Text)
    requires KeptNumber(n) && Ends(post)
    ensures n != [] && (n[0] == MINUS || IsDigit(n[0])) && ReadNumber(n + post) == Got(JNum(n), post)
  {
    hide AfterNumber, Canonical;
    SplitIsWritten(n);
    var p := Split(n).value;
    NumberReads(p, post);
    assert (n + post)[..|n|] == n && NumberToken(n + post) == n;
    NumberStarts(p);
  }

  lemma NumberStarts(p: Parts)
    requires ValidParts(p)
    ensures Write(p) != [] && (Write(p)[0] == MINUS || IsDigit(Write(p)[0]))
  {
    if !p.negative {
      assert Write(p)[0] == p.whole[0];
    }
  }
}
