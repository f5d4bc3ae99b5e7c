/** Reading the compact text of a value gives the value; what is read can always be written and read again. */
module JsonRoundTrip {
  import opened Text
  import opened JsonNumber
  import opened ExactDecimal
  import opened CanonicalNumber
  import opened JsonValue
  import opened JsonPrint

  lemma Assoc(a: Text, b: Text, c: Text)
    ensures (a + b) + c == a + (b + c)
  {
  }

  lemma NoSpace(t: Text)
    requires t == [] || !IsSpace(t[0])
    ensures SkipSpace(t) == t
  {
  }

  lemma WordReads(word: Text, value: NodeJson, post: Text)
    ensures ReadWord(word + post, word, value) == Got(value, post)
  {
  }

  lemma StringValueReads(s: Text, nesting: nat, post: Text)
    ensures ReadValue(PrintString(s) + post, nesting) == Got(JStr(s), post)
  {
    hide ReadString;
    var t := PrintString(s) + post;
    StringTail(s, post);
    NoSpace(t);
    StringReads(s, post);
  }

  lemma StringTail(s: Text, post: Text)
    ensures PrintString(s) + post == [QUOTE] + (EscapeAll(s) + ([QUOTE] + post))
    ensures (PrintString(s) + post)[0] == QUOTE && (PrintString(s) + post)[1..] == EscapeAll(s) + ([QUOTE] + post)
  {
    Assoc([QUOTE], EscapeAll(s) + [QUOTE], post);
    Assoc(EscapeAll(s), [QUOTE], post);
  }

  /** A printed value starts with no space and with neither closing bracket. */
  lemma PrintStarts(v: NodeJson, room: int)
    requires Readable(v, room)
    ensures Print(v) != [] && !IsSpace(Print(v)[0]) && Print(v)[0] != CLOSE_ARRAY && Print(v)[0] != CLOSE_OBJECT
  {
    if v.JNum? {
      NumberValueReads(v.n, []);
    }
  }

  /** Reading a printed value gives it back and stops where it ends. */
  lemma {:induction false} ValueReads(v: NodeJson, room: int, nesting: nat, post: Text)
    requires Readable(v, room) && nesting + room <= MAX_NESTING && Ends(post)
    ensures ReadValue(Print(v) + post, nesting) == Got(v, post)
    decreases v, 0
  {
    hide ReadNumber, ReadItems, ReadFields, KeptNumber;
    match v
    case JNull =>
      NoSpace(NULL_WORD + post);
      WordReads(NULL_WORD, JNull, post);
    case JBool(b) =>
      NoSpace(Print(v) + post);
      WordReads(TRUE_WORD, JBool(true), post);
      WordReads(FALSE_WORD, JBool(false), post);
    case JNum(n) =>
      NumberValueReads(n, post);
      NoSpace(n + post);
      assert (n + post)[0] == n[0];
    case JStr(s) => StringValueReads(s, nesting, post);
    case JArr(items) => ArrayReads(items, room, nesting, post);
    case JObj(fields) => ObjectReads(fields, room, nesting, post);
  }

  lemma {:induction false} ArrayReads(items: seq<NodeJson>, room: int, nesting: nat, post: Text)
    requires room > 0 && (forall x <- items :: Readable(x, room - 1)) && nesting + room <= MAX_NESTING
    ensures ReadValue(Print(JArr(items)) + post, nesting) == Got(JArr(items), post)
    decreases items, 2
  {
    hide ReadItems, Readable;
    var tail := PrintItems(items) + ([CLOSE_ARRAY] + post);
    Bracketed(OPEN_ARRAY, PrintItems(items), CLOSE_ARRAY, post);
    NoSpace([OPEN_ARRAY] + tail);
    if items == [] {
      assert tail == [CLOSE_ARRAY] + post;
      NoSpace(tail);
    } else {
      assert items[0] in items;
      PrintStarts(items[0], room - 1);
      assert tail[0] == Print(items[0])[0];
      NoSpace(tail);
      ItemsRead(items, room - 1, nesting + 1, [], post);
      assert [] + items == items;
    }
  }

  lemma Bracketed(open: unit, body: Text, close: unit, post: Text)
    ensures ([open] + (body + [close])) + post == [open] + (body + ([close] + post))
    ensures ([open] + (body + ([close] + post)))[1..] == body + ([close] + post)
  {
    Assoc([open], body + [close], post);
    Assoc(body, [close], post);
  }

  lemma {:induction false} ItemsRead(items: seq<NodeJson>, room: int, nesting: nat, before: seq<NodeJson>, post: Text)
    requires items != [] && (forall x <- items :: Readable(x, room)) && nesting + room <= MAX_NESTING
    ensures ReadItems(PrintItems(items) + ([CLOSE_ARRAY] + post), nesting, before) == Got(JArr(before + items), post)
    decreases items, 1
  {
    hide ReadValue, Readable, Print;
    var end := [CLOSE_ARRAY] + post;
    var v := items[0];
    if |items| == 1 {
      assert items == [v];
      assert PrintItems(items) + end == Print(v) + end;
      ValueReads(v, room, nesting, end);
      NoSpace(end);
      assert end[1..] == post;
    } else {
      var more := PrintItems(items[1..]) + end;
      ItemsRead(items[1..], room, nesting, before + [v], post);
      Assoc(Print(v), [COMMA] + PrintItems(items[1..]), end);
      Assoc([COMMA], PrintItems(items[1..]), end);
      ValueReads(v, room, nesting, [COMMA] + more);
      NoSpace([COMMA] + more);
      assert ([COMMA] + more)[1..] == more;
      assert (before + [v]) + items[1..] == before + items;
    }
  }

  lemma {:induction false} ObjectReads(fields: seq<Field>, room: int, nesting: nat, post: Text)
    requires Readable(JObj(fields), room) && nesting + room <= MAX_NESTING
    ensures ReadValue(Print(JObj(fields)) + post, nesting) == Got(JObj(fields), post)
    decreases fields, 3
  {
    hide ReadFields;
    var tail := PrintFields(fields) + ([CLOSE_OBJECT] + post);
    Bracketed(OPEN_OBJECT, PrintFields(fields), CLOSE_OBJECT, post);
    NoSpace([OPEN_OBJECT] + tail);
    if fields == [] {
      assert tail == [CLOSE_OBJECT] + post;
      NoSpace(tail);
    } else {
      assert PrintFields(fields)[0] == QUOTE;
      assert tail[0] == QUOTE;
      NoSpace(tail);
      assert [] + fields == fields;
      FieldsRead(fields, room - 1, nesting + 1, [], true, post);
    }
  }

  lemma {:induction false} SetNewField(fields: seq<Field>, key: Text, value: NodeJson)
    requires forall f <- fields :: f.key != key
    ensures SetField(fields, key, value) == fields + [Field(key, value)]
  {
    if fields != [] {
      SetNewField(fields[1..], key, value);
    }
  }

  lemma NewKey(before: seq<Field>, fields: seq<Field>)
    requires fields != [] && DistinctKeys(before + fields)
    ensures forall f <- before :: f.key != fields[0].key
    ensures (before + [fields[0]]) + fields[1..] == before + fields
  {
    forall f | f in before
      ensures f.key != fields[0].key
    {
      var i :| 0 <= i < |before| && before[i] == f;
      assert (before + fields)[i] == f && (before + fields)[|before|] == fields[0];
    }
  }

  /** The text of one field, and what is read after its key. */
  lemma FieldText(f: Field, post: Text)
    ensures PrintField(f) + post == PrintString(f.key) + ([COLON] + (Print(f.value) + post))
    ensures ([COLON] + (Print(f.value) + post))[1..] == Print(f.value) + post
    ensures PrintField(f) != [] && PrintField(f)[0] == QUOTE
  {
    Assoc(PrintString(f.key), [COLON] + Print(f.value), post);
    Assoc([COLON], Print(f.value), post);
  }

  lemma {:induction false} FieldsRead(
    fields: seq<Field>, room: int, nesting: nat, before: seq<Field>, first: bool, post: Text)
    requires fields != [] && (forall f <- fields :: Readable(f.value, room)) && nesting + room <= MAX_NESTING
    requires DistinctKeys(before + fields) && (first ==> fields[0].key !in PrivateTokens())
    ensures ReadFields(PrintFields(fields) + ([CLOSE_OBJECT] + post), nesting, before, first)
         == Got(JObj(before + fields), post)
    decreases fields, 1
  {
    hide ReadValue, Readable, ReadFields, PrintField, DistinctKeys, PrivateTokens;
    var f, end := fields[0], [CLOSE_OBJECT] + post;
    NewKey(before, fields);
    SetNewField(before, f.key, f.value);
    if |fields| == 1 {
      assert fields == [f];
      assert PrintFields(fields) + end == PrintField(f) + end;
      ValueReads(f.value, room, nesting, end);
      FieldReads(f, nesting, before, first, end);
      NoSpace(end);
      assert end[1..] == post;
    } else {
      var more := PrintFields(fields[1..]) + end;
      FieldsRead(fields[1..], room, nesting, before + [f], false, post);
      Assoc(PrintField(f), [COMMA] + PrintFields(fields[1..]), end);
      Assoc([COMMA], PrintFields(fields[1..]), end);
      ValueReads(f.value, room, nesting, [COMMA] + more);
      FieldReads(f, nesting, before, first, [COMMA] + more);
      NoSpace([COMMA] + more);
      assert ([COMMA] + more)[1..] == more;
    }
  }

  /** One field read, then on from the punctuation after it. */
  lemma FieldReads(f: Field, nesting: nat, before: seq<Field>, first: bool, post: Text)
    requires ReadValue(Print(f.value) + post, nesting) == Got(f.value, post)
    requires first ==> f.key !in PrivateTokens()
    ensures ReadFields(PrintField(f) + post, nesting, before, first) ==
            var t := SkipSpace(post);
            var fields := SetField(before, f.key, f.value);
            if t == [] then Refused
            else if t[0] == CLOSE_OBJECT then Got(JObj(fields), t[1..])
            else if t[0] == COMMA then ReadFields(t[1..], nesting, fields, false)
            else Refused
  {
    hide ReadValue, ReadString, PrintString, EscapeAll, PrivateTokens, SetField;
    var rest := [COLON] + (Print(f.value) + post);
    FieldText(f, post);
    StringTail(f.key, rest);
    StringReads(f.key, rest);
    NoSpace(PrintField(f) + post);
    NoSpace(rest);
  }

  /** A value within the node's limits, written compactly, reads as itself. */
  lemma TextReads(v: NodeJson)
    requires Readable(v, MAX_NESTING)
    ensures ReadText(Print(v)) == Got(v, [])
  {
    hide ReadValue, Readable;
    ValueReads(v, MAX_NESTING, 0, []);
    assert Print(v) + [] == Print(v);
  }

  // ---------- What is read can be written and read again ----------

  lemma TokenIsKept(t: Text)
    requires ReadNumber(t).Got?
    ensures ReadNumber(t).value.JNum? && KeptNumber(ReadNumber(t).value.n)
  {
    hide Canonical, Split, AfterNumber, JsonParts;
    NumberTokenSplits(t);
    KeptTextIsKept(t[..|t| - |AfterNumber(t).rest|]);
  }

  lemma KeptTextIsKept(token: Text)
    requires IsNumber(token) && JsonParts(Split(token).value)
    ensures KeptNumber(Canonical(token))
  {
    hide Split, Write, CanonicalParts, KeptParts, JsonParts;
    SplitIsWritten(token);
    CanonicalIsWritten(Split(token).value);
    KeptIsJson(Split(token).value);
    CanonicalIdempotent(token);
  }

  ghost predicate AllReadable(items: seq<NodeJson>, room: int) {
    forall x <- items :: Readable(x, room)
  }

  ghost predicate FieldsReadable(fields: seq<Field>, room: int) {
    && DistinctKeys(fields) && (fields != [] ==> fields[0].key !in PrivateTokens())
    && forall f <- fields :: Readable(f.value, room)
  }

  lemma {:induction false} SetFieldKeys(fields: seq<Field>, key: Text, value: NodeJson)
    ensures SetField(fields, key, value) != []
    ensures fields != [] ==> SetField(fields, key, value)[0].key == fields[0].key
    ensures fields == [] ==> SetField(fields, key, value)[0].key == key
    ensures forall f <- SetField(fields, key, value) :: f == Field(key, value) || f in fields
  {
    if fields != [] && fields[0].key != key {
      SetFieldKeys(fields[1..], key, value);
    }
  }

  lemma {:induction false} SetFieldDistinct(fields: seq<Field>, key: Text, value: NodeJson)
    requires DistinctKeys(fields)
    ensures DistinctKeys(SetField(fields, key, value))
  {
    if fields != [] && fields[0].key != key {
      var rest := SetField(fields[1..], key, value);
      assert forall i | 0 <= i < |fields| - 1 :: fields[1..][i] == fields[i + 1];
      SetFieldDistinct(fields[1..], key, value);
      SetFieldKeys(fields[1..], key, value);
      forall f | f in rest
        ensures f.key != fields[0].key
      {
        if f in fields[1..] {
          var i :| 0 <= i < |fields[1..]| && fields[1..][i] == f;
          assert fields[i + 1] == f;
        }
      }
    }
  }

  lemma SetFieldReadable(fields: seq<Field>, key: Text, value: NodeJson, room: int)
    requires FieldsReadable(fields, room) && Readable(value, room)
    requires fields == [] ==> key !in PrivateTokens()
    ensures FieldsReadable(SetField(fields, key, value), room)
  {
    hide Readable, DistinctKeys, PrivateTokens;
    SetFieldKeys(fields, key, value);
    SetFieldDistinct(fields, key, value);
  }

  /** Whatever a text reads as is within the node's limits. */
  lemma {:induction false} ReadIsReadable(text: Text, nesting: nat)
    requires ReadValue(text, nesting).Got? && nesting <= MAX_NESTING
    ensures Readable(ReadValue(text, nesting).value, MAX_NESTING - nesting)
    decreases |text|, 1
  {
    hide ReadNumber, ReadItems, ReadFields, ReadString, KeptNumber, DistinctKeys, PrivateTokens;
    var t := SkipSpace(text);
    if t[0] == OPEN_ARRAY {
      var t1 := SkipSpace(t[1..]);
      if t1 == [] || t1[0] != CLOSE_ARRAY {
        ItemsReadable(t1, nesting + 1, []);
      }
    } else if t[0] == OPEN_OBJECT {
      var t1 := SkipSpace(t[1..]);
      if t1 == [] || t1[0] != CLOSE_OBJECT {
        NoFields(MAX_NESTING - nesting - 1);
        FieldsReadReadable(t1, nesting + 1, [], true);
      } else {
        NoFields(MAX_NESTING - nesting - 1);
      }
    } else if t[0] == MINUS || IsDigit(t[0]) {
      TokenIsKept(t);
    }
  }

  lemma NoFields(room: int)
    ensures FieldsReadable([], room) && DistinctKeys([])
  {
  }

  lemma {:induction false} ItemsReadable(t: Text, nesting: nat, before: seq<NodeJson>)
    requires ReadItems(t, nesting, before).Got? && 0 < nesting <= MAX_NESTING
    requires AllReadable(before, MAX_NESTING - nesting)
    ensures Readable(ReadItems(t, nesting, before).value, MAX_NESTING - nesting + 1)
    decreases |t|, 2
  {
    hide ReadValue;
    ReadIsReadable(t, nesting);
    var v, t2 := ReadValue(t, nesting).value, SkipSpace(ReadValue(t, nesting).rest);
    assert AllReadable(before + [v], MAX_NESTING - nesting);
    if t2[0] == COMMA {
      ItemsReadable(t2[1..], nesting, before + [v]);
    }
  }

  lemma {:induction false} MemberReadable(text: Text, nesting: nat, first: bool)
    requires ReadMember(text, nesting, first).Got? && nesting <= MAX_NESTING
    ensures Readable(ReadMember(text, nesting, first).value.value, MAX_NESTING - nesting)
    ensures first ==> ReadMember(text, nesting, first).value.key !in PrivateTokens()
    decreases |text|, 2
  {
    hide ReadValue, ReadKey;
    KeyIsNotPrivate(text, first);
    ReadIsReadable(ReadKey(text, first).rest, nesting);
  }

  lemma KeyIsNotPrivate(text: Text, first: bool)
    requires ReadKey(text, first).Got?
    ensures first ==> ReadKey(text, first).value !in PrivateTokens()
  {
  }

  lemma {:induction false} FieldsReadReadable(text: Text, nesting: nat, before: seq<Field>, first: bool)
    requires ReadFields(text, nesting, before, first).Got? && 0 < nesting <= MAX_NESTING
    requires FieldsReadable(before, MAX_NESTING - nesting) && (first <==> before == [])
    ensures Readable(ReadFields(text, nesting, before, first).value, MAX_NESTING - nesting + 1)
    decreases |text|, 3
  {
    hide ReadMember, PrivateTokens, DistinctKeys;
    MemberReadable(text, nesting, first);
    var f, t2 := ReadMember(text, nesting, first).value, SkipSpace(ReadMember(text, nesting, first).rest);
    SetFieldReadable(before, f.key, f.value, MAX_NESTING - nesting);
    SetFieldKeys(before, f.key, f.value);
    if t2[0] == COMMA {
      FieldsReadReadable(t2[1..], nesting, SetField(before, f.key, f.value), false);
    }
  }

  /** So every value read, written compactly, reads as the same value. */
  lemma ReadWrittenAgain(t: Text)
    requires ReadText(t).Got?
    ensures Readable(ReadText(t).value, MAX_NESTING)
    ensures ReadText(Print(ReadText(t).value)) == Got(ReadText(t).value, [])
  {
    hide ReadValue, Readable;
    ReadIsReadable(t, 0);
    TextReads(ReadText(t).value);
  }
}
