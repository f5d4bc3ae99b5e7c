/** A JSON value as the node holds it, its texts, and reading them as the node does. */
module JsonValue {
  import opened Bytes
  import opened Text
  import opened JsonNumber
  import opened ExactDecimal
  import opened CanonicalNumber

  /** Objects keep their fields in the order first given, one per key. */
  datatype NodeJson =
    | JNull
    | JBool(b: bool)
    | JNum(n: Text)
    | JStr(s: Text)
    | JArr(items: seq<NodeJson>)
    | JObj(fields: seq<Field>)

  datatype Field = Field(key: Text, value: NodeJson)

  /** What reading a text gives: a value and the text after it, a refusal, or a value the SDK can't reproduce. */
  datatype Parsed<+T> = Got(value: T, rest: Text) | Refused | NotReproducible {
    predicate IsFailure() {
      !Got?
    }

    function PropagateFailure<U>(): Parsed<U>
      requires !Got?
    {
      if Refused? then Refused else NotReproducible
    }

    function Extract(): (T, Text)
      requires Got?
    {
      (value, rest)
    }
  }

  const MAX_NESTING: nat := 127

  const QUOTE: unit := 0x22
  const BACKSLASH: unit := 0x5C
  const SLASH: unit := 0x2F
  const COMMA: unit := 0x2C
  const COLON: unit := 0x3A
  const OPEN_ARRAY: unit := 0x5B
  const CLOSE_ARRAY: unit := 0x5D
  const OPEN_OBJECT: unit := 0x7B
  const CLOSE_OBJECT: unit := 0x7D
  const LOWER_U: unit := 0x75

  /** ASCII text. */
  function Ascii(s: string): Text
    requires forall i | 0 <= i < |s| :: s[i] as int < 0x80
  {
    seq(|s|, i requires 0 <= i < |s| => s[i] as int as unit)
  }

  const NULL_WORD: Text := [0x6E, 0x75, 0x6C, 0x6C]
  const TRUE_WORD: Text := [0x74, 0x72, 0x75, 0x65]
  const FALSE_WORD: Text := [0x66, 0x61, 0x6C, 0x73, 0x65]

  /** serde_json's tokens: an object whose first key is one is read as a number or a raw value. */
  function PrivateTokens(): set<Text> {
    {Ascii("$serde_json::private::Number"), Ascii("$serde_json::private::RawValue")}
  }

  // ---------- Reading ----------

  predicate IsSpace(c: unit) {
    c == 0x20 || c == 0x0A || c == 0x09 || c == 0x0D
  }

  function SkipSpace(t: Text): (rest: Text)
    ensures |rest| <= |t|
  {
    if t != [] && IsSpace(t[0]) then SkipSpace(t[1..]) else t
  }

  function ReadWord(t: Text, word: Text, value: NodeJson): Parsed<NodeJson> {
    if word <= t then Got(value, t[|word|..]) else Refused
  }

  /** A run of digits, possibly none, and the text after it. */
  function Digits(t: Text): (Text, Text) {
    (t[..DigitsEnd(t, 0)], t[DigitsEnd(t, 0)..])
  }

  function AfterWhole(t: Text): Parsed<()> {
    if t != [] && t[0] == ZERO then
      if Digits(t[1..]).0 == [] then Got((), t[1..]) else Refused
    else if Digits(t).0 == [] then Refused
    else Got((), Digits(t).1)
  }

  function AfterFraction(t: Text): Parsed<()> {
    if t != [] && t[0] == DOT then
      if Digits(t[1..]).0 == [] then Refused else Got((), Digits(t[1..]).1)
    else Got((), t)
  }

  function AfterExponent(t: Text): Parsed<()> {
    if t != [] && (t[0] == LOWER_E || t[0] == UPPER_E) then
      var s := if |t| > 1 && (t[1] == PLUS || t[1] == MINUS) then t[2..] else t[1..];
      if Digits(s).0 == [] then Refused else Got((), Digits(s).1)
    else Got((), t)
  }

  /** The text after the number token `t` starts with. */
  function AfterNumber(t: Text): (r: Parsed<()>)
    ensures !r.NotReproducible?
  {
    var (_, t1) :- AfterWhole(if t != [] && t[0] == MINUS then t[1..] else t);
    var (_, t2) :- AfterFraction(t1);
    AfterExponent(t2)
  }

  predicate IsHex(c: unit) {
    IsDigit(c) || 0x61 <= c <= 0x66 || 0x41 <= c <= 0x46
  }

  function HexValue(c: unit): (v: nat)
    requires IsHex(c)
    ensures v < 16
  {
    if IsDigit(c) then (c - 0x30) as nat else if c >= 0x61 then (c - 0x61) as nat + 10 else (c - 0x41) as nat + 10
  }

  function ReadHex4(t: Text): Parsed<unit> {
    if |t| < 4 || !(forall i | 0 <= i < 4 :: IsHex(t[i])) then Refused
    else
      Got((((HexValue(t[0]) * 16 + HexValue(t[1])) * 16 + HexValue(t[2])) * 16 + HexValue(t[3])) as unit, t[4..])
  }

  predicate IsLead(c: unit) {
    0xD800 <= c <= 0xDBFF
  }

  predicate IsTrail(c: unit) {
    0xDC00 <= c <= 0xDFFF
  }

  /** The one character an escape letter other than `u` stands for. */
  function SimpleEscape(c: unit): Option<unit> {
    if c == QUOTE || c == BACKSLASH || c == SLASH then Some(c)
    else if c == 0x62 then Some(0x08)
    else if c == 0x66 then Some(0x0C)
    else if c == 0x6E then Some(0x0A)
    else if c == 0x72 then Some(0x0D)
    else if c == 0x74 then Some(0x09)
    else None
  }

  /** What follows a backslash: escaped surrogates must come in pairs. */
  function ReadEscape(t: Text): Parsed<Text> {
    if t == [] then Refused
    else if t[0] == LOWER_U then
      var (n, t1) :- ReadHex4(t[1..]);
      if IsTrail(n) then Refused
      else if IsLead(n) then
        if |t1| < 2 || t1[0] != BACKSLASH || t1[1] != LOWER_U then Refused
        else
          var (n2, t2) :- ReadHex4(t1[2..]);
          if IsTrail(n2) then Got([n, n2], t2) else Refused
      else Got([n], t1)
    else
      match SimpleEscape(t[0])
      case Some(c) => Got([c], t[1..])
      case None => Refused
  }

  lemma EscapeShrinks(t: Text)
    ensures ReadEscape(t).Got? ==> |ReadEscape(t).rest| < |t|
  {
  }

  /** A string's characters up to its closing quote. */
  function ReadString(t: Text): (r: Parsed<Text>)
    ensures r.Got? ==> |r.rest| < |t|
    decreases |t|
  {
    if t == [] then Refused
    else if t[0] == QUOTE then Got([], t[1..])
    else if t[0] < 0x20 then Refused
    else if t[0] == BACKSLASH then
      EscapeShrinks(t[1..]);
      var (units, t1) :- ReadEscape(t[1..]);
      var (more, t2) :- ReadString(t1);
      Got(units + more, t2)
    else
      var (more, t1) :- ReadString(t[1..]);
      Got([t[0]] + more, t1)
  }

  /** The fields with `key` set: in place when it is there, else last. */
  function SetField(fields: seq<Field>, key: Text, value: NodeJson): seq<Field> {
    if fields == [] then [Field(key, value)]
    else if fields[0].key == key then [Field(key, value)] + fields[1..]
    else [fields[0]] + SetField(fields[1..], key, value)
  }

  lemma NumberShrinks(t: Text)
    ensures AfterNumber(t).Got? ==> |AfterNumber(t).rest| < |t| && IsNumber(t[..|t| - |AfterNumber(t).rest|])
  {
    if AfterNumber(t).Got? {
      NumberTokenSplits(t);
    }
  }

  /** A number token is a number text, its whole part without extra leading zeros. */
  lemma NumberTokenSplits(t: Text)
    requires AfterNumber(t).Got?
    ensures
      var rest := AfterNumber(t).rest;
      && |rest| < |t| && rest == t[|t| - |rest|..]
      && IsNumber(t[..|t| - |rest|]) && JsonParts(Split(t[..|t| - |rest|]).value)
  {
    hide Split, Write, AfterNumber, JsonParts, ValidParts;
    var p, rest := TokenParts(t);
    JsonPartsSplit(p);
    PrefixOf(t, Write(p), rest);
  }

  lemma JsonPartsSplit(p: Parts)
    requires JsonParts(p)
    ensures IsNumber(Write(p)) && Split(Write(p)) == Some(p)
  {
    SplitWrites(p);
  }

  lemma PrefixOf(t: Text, a: Text, b: Text)
    requires t == a + b && a != []
    ensures |b| < |t| && t[..|t| - |b|] == a && t[|t| - |b|..] == b
  {
  }

  lemma TokenParts(t: Text) returns (p: Parts, rest: Text)
    requires AfterNumber(t).Got?
    ensures JsonParts(p) && t == Write(p) + rest && rest == AfterNumber(t).rest && Write(p) != []
  {
    var negative := t != [] && t[0] == MINUS;
    var s := if negative then t[1..] else t;
    var s1 := AfterWhole(s).rest;
    var s2 := AfterFraction(s1).rest;
    var whole := WholePart(s);
    var fraction := FractionPart(s1);
    var exponent := ExponentText(s2);
    p := Parts(negative, whole, fraction, exponent);
    rest := AfterExponent(s2).rest;
    JoinParts(if negative then [MINUS] else [], whole, WriteFraction(fraction), WriteExponent(exponent), rest);
    assert t == (if negative then [MINUS] else []) + s;
  }

  lemma JoinParts(a: Text, b: Text, c: Text, d: Text, e: Text)
    ensures a + (b + (c + (d + e))) == (a + (b + (c + d))) + e
  {
  }

  lemma WholePart(t: Text) returns (whole: Text)
    requires AfterWhole(t).Got?
    ensures whole != [] && AllDigits(whole) && (whole[0] == ZERO ==> whole == [ZERO])
    ensures t == whole + AfterWhole(t).rest
  {
    whole := if t[0] == ZERO then [ZERO] else Digits(t).0;
  }

  lemma FractionPart(t: Text) returns (fraction: Text)
    requires AfterFraction(t).Got?
    ensures AllDigits(fraction) && t == WriteFraction(fraction) + AfterFraction(t).rest
  {
    fraction := if t != [] && t[0] == DOT then Digits(t[1..]).0 else [];
  }

  lemma ExponentText(t: Text) returns (e: ExponentPart)
    requires AfterExponent(t).Got?
    ensures ValidParts(Parts(false, [ZERO], [], e)) && t == WriteExponent(e) + AfterExponent(t).rest
  {
    hide DigitsEnd;
    if t != [] && (t[0] == LOWER_E || t[0] == UPPER_E) {
      var signed := |t| > 1 && (t[1] == PLUS || t[1] == MINUS);
      var sign := if !signed then Unsigned else if t[1] == PLUS then Positive else Negative;
      e := ExponentPart(t[0], sign, Digits(if signed then t[2..] else t[1..]).0);
    } else {
      e := NoExponent;
    }
  }

  /** The number token `t` starts with. */
  function NumberToken(t: Text): (token: Text)
    requires AfterNumber(t).Got?
    ensures IsNumber(token) && |AfterNumber(t).rest| < |t|
  {
    NumberShrinks(t);
    t[..|t| - |AfterNumber(t).rest|]
  }

  function ReadNumber(t: Text): (r: Parsed<NodeJson>)
    ensures r.Got? ==> |r.rest| < |t|
  {
    var (_, rest) :- AfterNumber(t);
    Got(JNum(Canonical(NumberToken(t))), rest)
  }

  /** A value, `nesting` arrays and objects deep. */
  function ReadValue(text: Text, nesting: nat): (r: Parsed<NodeJson>)
    ensures r.Got? ==> |r.rest| < |text|
    decreases |text|, 1
  {
    var t := SkipSpace(text);
    if t == [] then Refused
    else if t[0] == NULL_WORD[0] then ReadWord(t, NULL_WORD, JNull)
    else if t[0] == TRUE_WORD[0] then ReadWord(t, TRUE_WORD, JBool(true))
    else if t[0] == FALSE_WORD[0] then ReadWord(t, FALSE_WORD, JBool(false))
    else if t[0] == QUOTE then
      var (s, rest) :- ReadString(t[1..]);
      Got(JStr(s), rest)
    else if t[0] == OPEN_ARRAY then
      if nesting + 1 > MAX_NESTING then Refused
      else
        var t1 := SkipSpace(t[1..]);
        if t1 != [] && t1[0] == CLOSE_ARRAY then Got(JArr([]), t1[1..]) else ReadItems(t1, nesting + 1, [])
    else if t[0] == OPEN_OBJECT then
      if nesting + 1 > MAX_NESTING then Refused
      else
        var t1 := SkipSpace(t[1..]);
        if t1 != [] && t1[0] == CLOSE_OBJECT then Got(JObj([]), t1[1..]) else ReadFields(t1, nesting + 1, [], true)
    else if t[0] == MINUS || IsDigit(t[0]) then ReadNumber(t)
    else Refused
  }

  /** The rest of an array from its next item on. */
  function ReadItems(t: Text, nesting: nat, before: seq<NodeJson>): (r: Parsed<NodeJson>)
    ensures r.Got? ==> |r.rest| < |t|
    decreases |t|, 2
  {
    var (v, t1) :- ReadValue(t, nesting);
    var t2 := SkipSpace(t1);
    if t2 == [] then Refused
    else if t2[0] == CLOSE_ARRAY then Got(JArr(before + [v]), t2[1..])
    else if t2[0] == COMMA then ReadItems(t2[1..], nesting, before + [v])
    else Refused
  }

  /** A field's key and the colon after it. */
  function ReadKey(text: Text, first: bool): (r: Parsed<Text>)
    ensures r.Got? ==> |r.rest| < |text|
  {
    var t := SkipSpace(text);
    if t == [] || t[0] != QUOTE then Refused
    else
      var (key, t1) :- ReadString(t[1..]);
      if first && key in PrivateTokens() then NotReproducible
      else
        var t2 := SkipSpace(t1);
        if t2 == [] || t2[0] != COLON then Refused else Got(key, t2[1..])
  }

  /** One field of an object: its key and value. */
  function ReadMember(text: Text, nesting: nat, first: bool): (r: Parsed<Field>)
    ensures r.Got? ==> |r.rest| < |text|
    decreases |text|, 2
  {
    var (key, t1) :- ReadKey(text, first);
    var (v, t2) :- ReadValue(t1, nesting);
    Got(Field(key, v), t2)
  }

  /** The rest of an object from its next field on. */
  function ReadFields(text: Text, nesting: nat, before: seq<Field>, first: bool): (r: Parsed<NodeJson>)
    ensures r.Got? ==> |r.rest| < |text|
    decreases |text|, 3
  {
    var (f, t1) :- ReadMember(text, nesting, first);
    var t2 := SkipSpace(t1);
    var fields := SetField(before, f.key, f.value);
    if t2 == [] then Refused
    else if t2[0] == CLOSE_OBJECT then Got(JObj(fields), t2[1..])
    else if t2[0] == COMMA then ReadFields(t2[1..], nesting, fields, false)
    else Refused
  }

  /** The value the whole of `t` is. */
  function ReadText(t: Text): Parsed<NodeJson> {
    var (v, rest) :- ReadValue(t, 0);
    if SkipSpace(rest) == [] then Got(v, []) else Refused
  }
}
