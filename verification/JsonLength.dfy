/** The length of a value's text, counted without writing it. */
module JsonLength {
  import opened Text
  import opened JsonNumber
  import opened CanonicalNumber
  import opened JsonValue
  import opened JsonPrint
  import Utf8

  /** The bytes escaping adds to a character. */
  function Extra(c: unit): nat {
    if c == QUOTE || c == BACKSLASH || c == 0x08 || c == 0x09 || c == 0x0A || c == 0x0C || c == 0x0D then 1
    else if c < 0x20 then 5
    else 0
  }

  function ExtraAll(s: Text): nat {
    if s == [] then 0 else Extra(s[0]) + ExtraAll(s[1..])
  }

  function QuotedLength(s: Text): nat {
    Utf8.Length(s) + 2 + ExtraAll(s)
  }

  /** The length in bytes of the compact text: numbers as their kept text. */
  function TextLength(v: NodeJson): nat
    decreases v, 0
  {
    match v
    case JNull => 4
    case JBool(b) => if b then 4 else 5
    case JNum(n) => |n|
    case JStr(s) => QuotedLength(s)
    case JArr(items) => 2 + (if items == [] then 0 else |items| - 1) + ItemsLength(items)
    case JObj(fields) => 2 + (if fields == [] then 0 else |fields| - 1) + FieldsLength(fields)
  }

  function ItemsLength(items: seq<NodeJson>): nat
    decreases items, 1
  {
    if items == [] then 0 else TextLength(items[0]) + ItemsLength(items[1..])
  }

  function FieldsLength(fields: seq<Field>): nat
    decreases fields, 1
  {
    if fields == [] then 0
    else QuotedLength(fields[0].key) + 1 + TextLength(fields[0].value) + FieldsLength(fields[1..])
  }

  ghost predicate Ascii(t: Text) {
    forall i | 0 <= i < |t| :: t[i] < 0x80
  }

  lemma {:induction false} AsciiLength(t: Text)
    requires Ascii(t)
    ensures Utf8.Length(t) == |t|
  {
    if t != [] {
      AsciiLength(t[1..]);
    }
  }

  /** Cut before an ASCII character, lengths add. */
  lemma LengthBefore(a: Text, b: Text)
    requires b != [] && b[0] < 0x80
    ensures Utf8.Length(a + b) == Utf8.Length(a) + Utf8.Length(b)
  {
    Utf8.LengthAppend(a, b);
  }

  lemma EscapeLength(c: unit, t: Text)
    requires !IsLead(c) || t == [] || !IsTrail(t[0])
    ensures Utf8.Length(EscapeUnit(c) + t) == Utf8.Length([c]) + Extra(c) + Utf8.Length(t)
    ensures Utf8.Length([c] + t) == Utf8.Length([c]) + Utf8.Length(t)
  {
    assert ([c] + t)[1..] == t && [c][1..] == [];
    var e := EscapeUnit(c);
    if e != [c] {
      EscapedIsAscii(c);
      AsciiAppend(e, t);
    }
  }

  lemma EscapedIsAscii(c: unit)
    requires EscapeUnit(c) != [c]
    ensures Ascii(EscapeUnit(c)) && |EscapeUnit(c)| == 1 + Extra(c) && c < 0x80
  {
  }

  lemma {:induction false} AsciiAppend(a: Text, b: Text)
    requires Ascii(a)
    ensures Utf8.Length(a + b) == |a| + Utf8.Length(b)
  {
    if a == [] {
      assert a + b == b;
    } else {
      assert a + b == [a[0]] + (a[1..] + b);
      AsciiAppend(a[1..], b);
      Utf8.LengthAscii(a[0], a[1..] + b);
    }
  }

  lemma EscapedStart(s: Text)
    requires s != []
    ensures EscapeAll(s) != [] && (IsTrail(EscapeAll(s)[0]) <==> IsTrail(s[0]))
  {
    var e := EscapeUnit(s[0]);
    assert EscapeAll(s)[0] == e[0];
  }

  /** Escaping adds just the extra bytes. */
  lemma {:induction false} EscapeAllLength(s: Text)
    ensures Utf8.Length(EscapeAll(s)) == Utf8.Length(s) + ExtraAll(s)
    decreases |s|
  {
    hide EscapeUnit, Extra;
    if s != [] {
      var c, rest := s[0], s[1..];
      assert s == [c] + rest;
      if rest != [] {
        EscapedStart(rest);
      }
      if IsLead(c) && rest != [] && IsTrail(rest[0]) {
        PairLength(s);
        EscapeAllLength(s[2..]);
      } else {
        EscapeAllLength(rest);
        EscapeLength(c, EscapeAll(rest));
        EscapeLength(c, rest);
      }
    }
  }

  lemma PairLength(s: Text)
    requires |s| > 1 && IsLead(s[0]) && IsTrail(s[1])
    ensures Utf8.Length(s) == 4 + Utf8.Length(s[2..])
    ensures Utf8.Length(EscapeAll(s)) == 4 + Utf8.Length(EscapeAll(s[2..]))
    ensures ExtraAll(s) == ExtraAll(s[2..])
  {
    var a, b, t := s[0], s[1], s[2..];
    assert s == [a] + ([b] + t);
    UnitsUnescaped(a, b, t);
    LengthOfPair(a, b, t);
    LengthOfPair(a, b, EscapeAll(t));
  }

  lemma UnitsUnescaped(a: unit, b: unit, t: Text)
    requires IsLead(a) && IsTrail(b)
    ensures EscapeAll([a] + ([b] + t)) == [a] + ([b] + EscapeAll(t))
    ensures ExtraAll([a] + ([b] + t)) == ExtraAll(t)
  {
    assert ([a] + ([b] + t))[1..] == [b] + t && ([b] + t)[1..] == t;
    assert EscapeUnit(a) == [a] && EscapeUnit(b) == [b];
    assert EscapeAll([b] + t) == [b] + EscapeAll(t);
  }

  lemma LengthOfPair(a: unit, b: unit, t: Text)
    requires IsLead(a) && IsTrail(b)
    ensures Utf8.Length([a] + ([b] + t)) == 4 + Utf8.Length(t)
  {
    var s := [a] + ([b] + t);
    assert s[2..] == t;
    assert Utf8.PointUnits(s) == 2;
  }

  lemma StringLength(s: Text)
    ensures Utf8.Length(PrintString(s)) == QuotedLength(s)
  {
    EscapeAllLength(s);
    LengthBefore(EscapeAll(s), [QUOTE]);
    Utf8.LengthAscii(QUOTE, EscapeAll(s) + [QUOTE]);
    Utf8.LengthAscii(QUOTE, []);
    assert [QUOTE] + [] == [QUOTE];
  }

  lemma NumberIsAscii(n: Text)
    requires KeptNumber(n)
    ensures Ascii(n)
  {
    hide Split, Canonical;
    SplitIsWritten(n);
    WrittenIsAscii(Split(n).value);
  }

  lemma WrittenIsAscii(p: Parts)
    requires ValidParts(p)
    ensures Ascii(Write(p))
  {
    DigitsAreAscii(p.whole);
    DigitsAreAscii(p.fraction);
    if p.exponent.ExponentPart? {
      DigitsAreAscii(p.exponent.digits);
    }
  }

  lemma DigitsAreAscii(t: Text)
    requires AllDigits(t)
    ensures Ascii(t)
  {
  }

  /** The counted length is the number of UTF-8 bytes of the compact text. */
  lemma {:induction false} TextLengthIsByteCount(v: NodeJson, room: int)
    requires Readable(v, room)
    ensures Utf8.Length(Print(v)) == TextLength(v) == |Utf8.Encode(Print(v))|
    decreases v, 0
  {
    hide KeptNumber, Utf8.Length, Utf8.Encode, QuotedLength, PrintString;
    Utf8.LengthIsByteCount(Print(v));
    match v
    case JNull => AsciiLength(NULL_WORD);
    case JBool(b) => AsciiLength(Print(v));
    case JNum(n) =>
      NumberIsAscii(n);
      AsciiLength(n);
    case JStr(s) => StringLength(s);
    case JArr(items) =>
      ItemsByteCount(items, room - 1);
      BracketLength(OPEN_ARRAY, PrintItems(items), CLOSE_ARRAY);
    case JObj(fields) =>
      FieldsByteCount(fields, room - 1);
      BracketLength(OPEN_OBJECT, PrintFields(fields), CLOSE_OBJECT);
  }

  lemma BracketLength(open: unit, body: Text, close: unit)
    requires open < 0x80 && close < 0x80
    ensures Utf8.Length([open] + (body + [close])) == 2 + Utf8.Length(body)
  {
    Utf8.LengthAscii(open, body + [close]);
    LengthBefore(body, [close]);
    Utf8.LengthAscii(close, []);
    assert [close] + [] == [close];
  }

  lemma CommaLength(a: Text, b: Text)
    ensures Utf8.Length(a + ([COMMA] + b)) == Utf8.Length(a) + 1 + Utf8.Length(b)
  {
    LengthBefore(a, [COMMA] + b);
    Utf8.LengthAscii(COMMA, b);
  }

  lemma {:induction false} ItemsByteCount(items: seq<NodeJson>, room: int)
    requires forall x <- items :: Readable(x, room)
    ensures Utf8.Length(PrintItems(items)) == (if items == [] then 0 else |items| - 1) + ItemsLength(items)
    decreases items, 1
  {
    if items != [] {
      TextLengthIsByteCount(items[0], room);
      if |items| == 1 {
        assert Print(items[0]) + [] == Print(items[0]);
      } else {
        ItemsByteCount(items[1..], room);
        CommaLength(Print(items[0]), PrintItems(items[1..]));
      }
    }
  }

  lemma FieldLength(f: Field)
    ensures Utf8.Length(PrintField(f)) == QuotedLength(f.key) + 1 + Utf8.Length(Print(f.value))
  {
    StringLength(f.key);
    LengthBefore(PrintString(f.key), [COLON] + Print(f.value));
    Utf8.LengthAscii(COLON, Print(f.value));
  }

  lemma {:induction false} FieldsByteCount(fields: seq<Field>, room: int)
    requires forall f <- fields :: Readable(f.value, room)
    ensures Utf8.Length(PrintFields(fields)) == (if fields == [] then 0 else |fields| - 1) + FieldsLength(fields)
    decreases fields, 1
  {
    hide PrintField, QuotedLength;
    if fields != [] {
      TextLengthIsByteCount(fields[0].value, room);
      FieldLength(fields[0]);
      if |fields| == 1 {
        assert PrintField(fields[0]) + [] == PrintField(fields[0]);
      } else {
        FieldsByteCount(fields[1..], room);
        CommaLength(PrintField(fields[0]), PrintFields(fields[1..]));
      }
    }
  }
}
