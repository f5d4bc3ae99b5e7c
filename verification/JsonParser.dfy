/** The parser as it runs: one index moved over the text, loops, and recursion for nested values. */
module JsonParser {
  import opened Bytes
  import opened Text
  import opened ExactDecimal
  import opened CanonicalNumber
  import opened JsonValue

  /** A step's result, or what it throws. */
  datatype Attempt<+T> = Done(value: T) | Thrown(refused: bool)

  ghost function Prepend(units: Text, r: Parsed<Text>): Parsed<Text> {
    match r
    case Got(more, rest) => Got(units + more, rest)
    case _ => r
  }

  lemma PrependNothing(r: Parsed<Text>)
    ensures Prepend([] + [], r) == r
  {
    if r.Got? {
      assert ([] + []) + r.value == r.value;
    }
  }

  lemma PrependTwice(a: Text, b: Text, r: Parsed<Text>)
    ensures Prepend(a, Prepend(b, r)) == Prepend(a + b, r)
  {
    if r.Got? {
      assert a + (b + r.value) == (a + b) + r.value;
    }
  }

  /** Reading a string, one character or escape at a time. */
  lemma StringStep(t: Text)
    ensures t == [] ==> ReadString(t).Refused?
    ensures t != [] && t[0] == QUOTE ==> ReadString(t) == Got([], t[1..])
    ensures t != [] && t[0] < 0x20 ==> ReadString(t).Refused?
    ensures t != [] && t[0] >= 0x20 && t[0] != QUOTE && t[0] != BACKSLASH ==>
              ReadString(t) == Prepend([t[0]], ReadString(t[1..]))
    ensures t != [] && t[0] == BACKSLASH ==>
              ReadString(t) == match ReadEscape(t[1..])
                               case Got(units, rest) => Prepend(units, ReadString(rest))
                               case Refused => Refused
                               case NotReproducible => NotReproducible
  {
    hide ReadEscape;
  }

  lemma PrependKinds(so: Text, t: Text)
    ensures ReadString(t).Refused? ==> Prepend(so, ReadString(t)).Refused?
    ensures ReadString(t).NotReproducible? ==> Prepend(so, ReadString(t)).NotReproducible?
    ensures t != [] && t[0] == QUOTE ==> Prepend(so, ReadString(t)) == Got(so, t[1..])
  {
    assert so + [] == so;
  }

  lemma LongerBy(out: Text, s: Text, start: nat, i: nat)
    requires start <= i < |s|
    ensures (out + s[start..i]) + [s[i]] == out + s[start..i + 1]
  {
  }

  class Parser {
    const s: Text
    var i: nat

    ghost predicate Valid()
      reads this
    {
      i <= |s|
    }

    /** The text not yet read. */
    ghost function Rest(): Text
      requires Valid()
      reads this
    {
      s[i..]
    }

    constructor (s: Text)
      ensures this.s == s && i == 0 && Valid() && Rest() == s
    {
      this.s, i := s, 0;
    }

    /** The step did what reading the text as specified gives. */
    ghost predicate Agrees<T>(r: Attempt<T>, spec: Parsed<T>)
      reads this
    {
      match spec
      case Got(v, rest) => r == Done(v) && Valid() && Rest() == rest
      case Refused => r == Thrown(true)
      case NotReproducible => r == Thrown(false)
    }

    /** The character at the index, if there is one, is `c`. */
    predicate At(c: unit)
      reads this
    {
      i < |s| && s[i] == c
    }

    method Ws()
      requires Valid()
      modifies this
      ensures Valid() && Rest() == SkipSpace(old(Rest())) && i >= old(i)
    {
      while i < |s| && IsSpace(s[i])
        invariant Valid() && i >= old(i)
        invariant SkipSpace(Rest()) == SkipSpace(old(Rest()))
      {
        assert s[i..][1..] == s[i + 1..];
        i := i + 1;
      }
    }

    /** Move past white space and the character after it: that character, if there is one. */
    method Next() returns (c: Option<unit>)
      requires Valid()
      modifies this
      ensures Valid() && i >= old(i)
      ensures
        var t := SkipSpace(old(Rest()));
        if t == [] then c == None else c == Some(t[0]) && Rest() == t[1..]
    {
      Ws();
      if i >= |s| {
        return None;
      }
      assert s[i..][0] == s[i] && s[i..][1..] == s[i + 1..];
      i := i + 1;
      return Some(s[i - 1]);
    }

    method Literal(word: Text, value: NodeJson) returns (r: Attempt<NodeJson>)
      requires Valid()
      modifies this
      ensures Agrees(r, ReadWord(old(Rest()), word, value)) && i >= old(i)
    {
      if word <= s[i..] {
        assert s[i..][|word|..] == s[i + |word|..];
        i := i + |word|;
        return Done(value);
      }
      return Thrown(true);
    }

    /** Move over a run of digits: how many there were. */
    method SkipDigits() returns (n: nat)
      requires Valid()
      modifies this
      ensures Valid() && i == old(i) + n
      ensures n == |Digits(old(Rest())).0| && Rest() == Digits(old(Rest())).1
    {
      ghost var start := i;
      n := 0;
      while i < |s| && IsDigit(s[i])
        invariant Valid() && start <= i && n == i - start
        invariant forall j | start <= j < i :: IsDigit(s[j])
      {
        i, n := i + 1, n + 1;
      }
      DigitsEndIs(s[start..], 0, n);
      assert s[start..][n..] == s[i..];
    }

    method Number() returns (r: Attempt<Text>)
      requires Valid()
      modifies this
      ensures i >= old(i)
      ensures
        match AfterNumber(old(Rest()))
        case Got(_, rest) =>
          Valid() && Rest() == rest && r == Done(Canonical(NumberToken(old(Rest()))))
        case _ => r == Thrown(true)
    {
      hide Canonical, IsNumber, AfterFraction, AfterExponent, AfterWhole;
      var start := i;
      NumberShrinks(s[start..]);
      if At(MINUS) {
        i := i + 1;
        assert s[start..][1..] == s[i..];
      }
      var ok := WholeDigits();
      if !ok {
        return Thrown(true);
      }
      ok := FractionDigits();
      if !ok {
        return Thrown(true);
      }
      ok := ExponentDigits();
      if !ok {
        return Thrown(true);
      }
      var token := s[start..i];
      assert token == s[start..][..i - start] == NumberToken(s[start..]);
      return Done(Canonical(token));
    }

    method WholeDigits() returns (ok: bool)
      requires Valid()
      modifies this
      ensures Valid() && i >= old(i) && ok == AfterWhole(old(Rest())).Got?
      ensures !ok ==> AfterWhole(old(Rest())).Refused?
      ensures ok ==> Rest() == AfterWhole(old(Rest())).rest
    {
      if At(ZERO) {
        assert s[i..][1..] == s[i + 1..];
        i := i + 1;
        var n := SkipDigits();
        assert n == 0 ==> old(s[i..])[1..] == s[i..];
        return n == 0;
      }
      var n := SkipDigits();
      return n > 0;
    }

    method FractionDigits() returns (ok: bool)
      requires Valid()
      modifies this
      ensures Valid() && i >= old(i) && ok == AfterFraction(old(Rest())).Got?
      ensures !ok ==> AfterFraction(old(Rest())).Refused?
      ensures ok ==> Rest() == AfterFraction(old(Rest())).rest
    {
      hide DigitsEnd;
      if At(DOT) {
        assert s[i..][1..] == s[i + 1..];
        i := i + 1;
        var n := SkipDigits();
        return n > 0;
      }
      return true;
    }

    method ExponentDigits() returns (ok: bool)
      requires Valid()
      modifies this
      ensures Valid() && i >= old(i) && ok == AfterExponent(old(Rest())).Got?
      ensures !ok ==> AfterExponent(old(Rest())).Refused?
      ensures ok ==> Rest() == AfterExponent(old(Rest())).rest
    {
      hide DigitsEnd;
      if At(LOWER_E) || At(UPPER_E) {
        assert s[i..][1..] == s[i + 1..];
        i := i + 1;
        if At(PLUS) || At(MINUS) {
          assert old(s[i..])[2..] == s[i + 1..];
          i := i + 1;
        }
        var n := SkipDigits();
        return n > 0;
      }
      return true;
    }

    method Hex4() returns (r: Attempt<unit>)
      requires Valid()
      modifies this
      ensures Agrees(r, ReadHex4(old(Rest()))) && i >= old(i)
    {
      hide HexValue;
      if |s| - i < 4 || !(IsHex(s[i]) && IsHex(s[i + 1]) && IsHex(s[i + 2]) && IsHex(s[i + 3])) {
        assert |s| - i >= 4 ==>
            s[i..][0] == s[i] && s[i..][1] == s[i + 1] && s[i..][2] == s[i + 2] && s[i..][3] == s[i + 3];
        return Thrown(true);
      }
      assert s[i..][4..] == s[i + 4..];
      i := i + 4;
      return Done(
          (((HexValue(s[i - 4]) * 16 + HexValue(s[i - 3])) * 16 + HexValue(s[i - 2])) * 16 + HexValue(s[i - 1])) as unit);
    }

    /** What follows a backslash. */
    method Escape() returns (r: Attempt<Text>)
      requires Valid()
      modifies this
      ensures Agrees(r, ReadEscape(old(Rest()))) && i >= old(i)
    {
      if i >= |s| {
        return Thrown(true);
      }
      var e := s[i];
      assert s[i..][1..] == s[i + 1..];
      i := i + 1;
      if e != LOWER_U {
        match SimpleEscape(e)
        case Some(c) => return Done([c]);
        case None => return Thrown(true);
      }
      var n := Hex4();
      if n.Thrown? {
        return Thrown(true);
      }
      if IsTrail(n.value) {
        return Thrown(true);
      }
      if !IsLead(n.value) {
        return Done([n.value]);
      }
      if |s| - i < 2 || s[i] != BACKSLASH || s[i + 1] != LOWER_U {
        return Thrown(true);
      }
      assert s[i..][2..] == s[i + 2..];
      i := i + 2;
      var n2 := Hex4();
      if n2.Thrown? || !IsTrail(n2.value) {
        return Thrown(true);
      }
      return Done([n.value, n2.value]);
    }

    /** A string, from after its opening quote. */
    method String() returns (r: Attempt<Text>)
      requires Valid()
      modifies this
      ensures Agrees(r, ReadString(old(Rest()))) && i >= old(i)
    {
      hide ReadEscape, ReadString, Prepend;
      var out: Text := [];
      var start := i;
      PrependNothing(ReadString(Rest()));
      assert s[start..i] == [];
      while true
        invariant Valid() && old(i) <= start <= i
        invariant ReadString(old(Rest())) == Prepend(out + s[start..i], ReadString(Rest()))
        decreases |s| - i
      {
        ghost var so := out + s[start..i];
        StringStep(Rest());
        PrependKinds(so, Rest());
        if i >= |s| {
          return Thrown(true);
        }
        var c := s[i];
        assert s[i..][0] == c && s[i..][1..] == s[i + 1..];
        if c == QUOTE {
          out := out + s[start..i];
          i := i + 1;
          return Done(out);
        }
        if c < 0x20 {
          return Thrown(true);
        }
        if c != BACKSLASH {
          PrependTwice(so, [c], ReadString(s[i + 1..]));
          LongerBy(out, s, start, i);
          i := i + 1;
          continue;
        }
        out := out + s[start..i];
        i := i + 1;
        var units := Escape();
        if units.Thrown? {
          return Thrown(units.refused);
        }
        PrependTwice(so, units.value, ReadString(Rest()));
        out := out + units.value;
        start := i;
        assert out + s[start..i] == out;
      }
    }

    method Value(nesting: nat) returns (r: Attempt<NodeJson>)
      requires Valid()
      modifies this
      ensures Agrees(r, ReadValue(old(Rest()), nesting)) && i >= old(i)
      decreases |s| - i, 1
    {
      hide ReadNumber, ReadString, ReadItems, ReadFields, ReadWord;
      Ws();
      if i >= |s| {
        return Thrown(true);
      }
      var c := s[i];
      assert c == s[i..][0];
      if c == NULL_WORD[0] {
        r := Literal(NULL_WORD, JNull);
      } else if c == TRUE_WORD[0] {
        r := Literal(TRUE_WORD, JBool(true));
      } else if c == FALSE_WORD[0] {
        r := Literal(FALSE_WORD, JBool(false));
      } else if c == QUOTE {
        assert s[i..][1..] == s[i + 1..];
        i := i + 1;
        var str := String();
        r := if str.Done? then Done(JStr(str.value)) else Thrown(str.refused);
      } else if c == OPEN_ARRAY {
        r := Array(nesting + 1);
      } else if c == OPEN_OBJECT {
        r := Object(nesting + 1);
      } else if c == MINUS || IsDigit(c) {
        r := NumberValue();
      } else {
        r := Thrown(true);
      }
    }

    method NumberValue() returns (r: Attempt<NodeJson>)
      requires Valid()
      modifies this
      ensures Agrees(r, ReadNumber(old(Rest()))) && i >= old(i)
    {
      hide AfterNumber, Canonical;
      var n := Number();
      return if n.Done? then Done(JNum(n.value)) else Thrown(true);
    }

    /** The items of an array, from its opening bracket. */
    method Array(nesting: nat) returns (r: Attempt<NodeJson>)
      requires Valid() && i < |s| && s[i] == OPEN_ARRAY && nesting > 0
      modifies this
      ensures i >= old(i)
      ensures
        var t := SkipSpace(old(Rest())[1..]);
        Agrees(r, if nesting > MAX_NESTING then Refused
                  else if t != [] && t[0] == CLOSE_ARRAY then Got(JArr([]), t[1..])
                  else ReadItems(t, nesting, []))
      decreases |s| - i, 0
    {
      hide ReadValue;
      if nesting > MAX_NESTING {
        return Thrown(true);
      }
      assert s[i..][1..] == s[i + 1..];
      i := i + 1;
      var items: seq<NodeJson> := [];
      Ws();
      if At(CLOSE_ARRAY) {
        assert s[i..][1..] == s[i + 1..];
        i := i + 1;
        return Done(JArr(items));
      }
      ghost var t := Rest();
      while true
        invariant Valid() && i > old(i)
        invariant ReadItems(t, nesting, []) == ReadItems(Rest(), nesting, items)
        decreases |s| - i
      {
        ghost var before := Rest();
        var v := Value(nesting);
        if v.Thrown? {
          return v;
        }
        assert |Rest()| < |before|;
        items := items + [v.value];
        var c := Next();
        if c == Some(CLOSE_ARRAY) {
          return Done(JArr(items));
        }
        if c != Some(COMMA) {
          return Thrown(true);
        }
      }
    }

    /** A field's key and the colon after it. */
    method Key(first: bool) returns (r: Attempt<Text>)
      requires Valid()
      modifies this
      ensures Agrees(r, ReadKey(old(Rest()), first)) && i >= old(i)
    {
      hide ReadString, PrivateTokens;
      Ws();
      if !At(QUOTE) {
        return Thrown(true);
      }
      assert s[i..][1..] == s[i + 1..];
      i := i + 1;
      r := String();
      if r.Thrown? {
        return;
      }
      if first && r.value in PrivateTokens() {
        return Thrown(false);
      }
      Ws();
      if !At(COLON) {
        return Thrown(true);
      }
      assert s[i..][1..] == s[i + 1..];
      i := i + 1;
    }

    /** One field: its key and value. */
    method Member(nesting: nat, first: bool) returns (r: Attempt<Field>)
      requires Valid()
      modifies this
      ensures Agrees(r, ReadMember(old(Rest()), nesting, first)) && i >= old(i)
      decreases |s| - i, 2
    {
      hide ReadValue, ReadKey;
      ghost var before := Rest();
      var key := Key(first);
      if key.Thrown? {
        return Thrown(key.refused);
      }
      assert |Rest()| < |before|;
      var v := Value(nesting);
      return if v.Thrown? then Thrown(v.refused) else Done(Field(key.value, v.value));
    }

    /** The fields of an object, from its opening bracket. */
    method Object(nesting: nat) returns (r: Attempt<NodeJson>)
      requires Valid() && i < |s| && s[i] == OPEN_OBJECT && nesting > 0
      modifies this
      ensures i >= old(i)
      ensures
        var t := SkipSpace(old(Rest())[1..]);
        Agrees(r, if nesting > MAX_NESTING then Refused
                  else if t != [] && t[0] == CLOSE_OBJECT then Got(JObj([]), t[1..])
                  else ReadFields(t, nesting, [], true))
      decreases |s| - i, 0
    {
      hide ReadMember;
      if nesting > MAX_NESTING {
        return Thrown(true);
      }
      assert s[i..][1..] == s[i + 1..];
      i := i + 1;
      var entries: seq<Field> := [];
      Ws();
      if At(CLOSE_OBJECT) {
        assert s[i..][1..] == s[i + 1..];
        i := i + 1;
        return Done(JObj(entries));
      }
      ghost var t := Rest();
      var first := true;
      while true
        invariant Valid() && i > old(i)
        invariant ReadFields(t, nesting, [], true) == ReadFields(Rest(), nesting, entries, first)
        decreases |s| - i
      {
        ghost var before := Rest();
        var f := Member(nesting, first);
        if f.Thrown? {
          return Thrown(f.refused);
        }
        assert |Rest()| < |before|;
        entries := SetField(entries, f.value.key, f.value.value);
        var c := Next();
        if c == Some(CLOSE_OBJECT) {
          return Done(JObj(entries));
        }
        if c != Some(COMMA) {
          return Thrown(true);
        }
        first := false;
      }
    }
  }

  /** The value a whole text is: none when it is refused. */
  method ParseText(text: Text) returns (r: Attempt<NodeJson>)
    ensures match ReadText(text)
            case Got(v, _) => r == Done(v)
            case Refused => r == Thrown(true)
            case NotReproducible => r == Thrown(false)
  {
    hide ReadValue;
    var parser := new Parser(text);
    r := parser.Value(0);
    if r.Done? {
      parser.Ws();
      if parser.i != |text| {
        r := Thrown(true);
      }
    }
  }
}
