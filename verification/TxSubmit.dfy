/** How the answer to one post of a signed transaction is classified. */
module TxSubmit {
  import opened Bytes
  import opened Text
  import opened CanonicalNumber
  import opened Nonces
  import JsonValue

  datatype TxData = TxData(txHash: Option<Text>, code: Option<int>, log: Option<Text>)

  /** What `JSON.parse` makes of an answer: the fields the submission reads, None where they are not of their type. */
  datatype Body = NotJson | JsonNull | Json(success: bool, data: Option<TxData>, error: Option<Text>)

  /** What came of one post: it threw (and may have been sent), or it was answered. */
  datatype Post = Failed | Answered(status: nat, text: Text, body: Body)

  /** A transport failure to retry, or a result. */
  datatype Attempt = Threw | Result(result: BroadcastResult)

  const HTTP_WORD: Text := [0x48, 0x54, 0x54, 0x50, 0x20]
  const COLON_SPACE: Text := [0x3A, 0x20]
  const MAX_REFUSAL_DETAIL: nat := 500

  predicate InCache(s: Text) {
    Contains(s, JsonValue.Ascii("tx already exists in cache"))
  }

  predicate IsClientError(status: nat) {
    400 <= status < 500
  }

  /** The statuses a request's body causes. */
  predicate IsBodyRefusal(status: nat) {
    status == 400 || status == 413 || status == 415 || status == 422
  }

  predicate IsOk(status: nat) {
    200 <= status < 300
  }

  /** JavaScript's white space and line ends. */
  predicate IsBlank(c: unit) {
    || 0x09 <= c <= 0x0D || c == 0x20 || c == 0xA0 || c == 0x1680 || 0x2000 <= c <= 0x200A
    || c == 0x2028 || c == 0x2029 || c == 0x202F || c == 0x205F || c == 0x3000 || c == 0xFEFF
  }

  function Trim(s: Text): Text {
    if s == [] then []
    else if IsBlank(s[0]) then Trim(s[1..])
    else if IsBlank(s[|s| - 1]) then Trim(s[..|s| - 1])
    else s
  }

  /** `HTTP <status>`, with the trimmed detail's first 500 characters. */
  function RefusalText(status: nat, detail: Text): Text {
    var trimmed := Trim(detail);
    var part := if |trimmed| > MAX_REFUSAL_DETAIL then trimmed[..MAX_REFUSAL_DETAIL] else trimmed;
    HTTP_WORD + NatText(status) + if part == [] then [] else COLON_SPACE + part
  }

  /** Pending, its log kept; the wording of its message is not part of the model. */
  function PendingResult(log: Text): BroadcastResult {
    BroadcastResult(false, true, None, None, None, Some(log))
  }

  function RefusedResult(log: Text): BroadcastResult {
    BroadcastResult(false, false, None, None, Some(log), Some(log))
  }

  /** A 4xx: a refusal only for the body of a first post. */
  function ClientError(status: nat, detail: Text, repeated: bool): BroadcastResult {
    var answer := RefusalText(status, detail);
    if repeated || !IsBodyRefusal(status) then PendingResult(answer) else RefusedResult(answer)
  }

  /** CheckTx's code and log; looking for a reason in the log of a repeat refused without one throws. */
  function Checked(data: TxData, repeated: bool): Attempt {
    if data.code.None? then Threw
    else
      var code := data.code.value;
      if code != 0 && repeated && data.log.None? then Threw
      else if code != 0 && repeated && RefusalKeepsNonce(data.log.value) then Result(PendingResult(data.log.value))
      else
        Result(BroadcastResult(
                 code == 0, false, data.txHash, if code != 0 then Some(code) else None,
                 if code != 0 then data.log else None, data.log))
  }

  /** The outcome of a post; `repeated` when an earlier post of the same bytes may have been sent. */
  function Classify(post: Post, repeated: bool): Attempt {
    match post
    case Failed => Threw
    case Answered(status, text, body) =>
      var read := if text == [] then Json(false, None, None) else body;
      if read.NotJson? then
        if !IsClientError(status) then Threw
        else if InCache(text) then Result(PendingResult(text))
        else Result(ClientError(status, text, repeated))
      else if read.JsonNull? then Threw
      else if read.error.Some? && InCache(read.error.value) then Result(PendingResult(read.error.value))
      else if IsClientError(status) then
        Result(ClientError(status, if read.error.Some? then read.error.value else text, repeated))
      else if !IsOk(status) then Threw
      else if !read.success || read.data.None? then
        if read.error.None? || read.error.value == [] then Threw else Result(RefusedResult(read.error.value))
      else Checked(read.data.value, repeated)
  }

  // ---------- When an answer gives the nonce back ----------

  /** A stretch without a line end, of two lines, is within one of them. */
  lemma WithinALine(a: Text, b: Text, i: nat, end: nat)
    requires i < end <= |a| + 1 + |b| && NEWLINE !in (a + [NEWLINE] + b)[i..end]
    ensures end <= |a| || i > |a|
    ensures end <= |a| ==> (a + [NEWLINE] + b)[i..end] == a[i..end]
    ensures i > |a| ==> (a + [NEWLINE] + b)[i..end] == b[i - |a| - 1..end - |a| - 1]
  {
    var s := a + [NEWLINE] + b;
    assert s[|a|] == NEWLINE;
    assert forall k | i <= k < end :: s[k] == s[i..end][k - i];
  }

  lemma SpotIsPrefix(s: Text, i: nat, part: Text)
    requires i <= |s|
    ensures part <= s[i..] <==> i + |part| <= |s| && s[i..i + |part|] == part
  {
    if i + |part| <= |s| {
      assert s[i..][..|part|] == s[i..i + |part|];
    }
  }

  /** Two lines contain a part without a line end exactly when one of them does. */
  lemma ContainsInLine(a: Text, b: Text, part: Text)
    requires part != [] && NEWLINE !in part
    ensures Contains(a + [NEWLINE] + b, part) <==> Contains(a, part) || Contains(b, part)
  {
    var s := a + [NEWLINE] + b;
    if Contains(s, part) {
      var i :| 0 <= i <= |s| && part <= s[i..];
      SpotIsPrefix(s, i, part);
      WithinALine(a, b, i, i + |part|);
      if i > |a| {
        SpotIsPrefix(b, i - |a| - 1, part);
      } else {
        SpotIsPrefix(a, i, part);
      }
    }
    if Contains(a, part) {
      var i :| 0 <= i <= |a| && part <= a[i..];
      assert s[i..] == a[i..] + ([NEWLINE] + b);
    }
    if Contains(b, part) {
      var i :| 0 <= i <= |b| && part <= b[i..];
      assert s[|a| + 1 + i..] == b[i..];
    }
  }

  lemma SliceOfSlice(s: Text, lo: nat, hi: nat, i: nat, j: nat)
    requires lo <= hi <= |s| && i <= j <= hi - lo
    ensures s[lo..hi][i..j] == s[lo + i..lo + j]
  {
    var part := s[lo..hi];
    assert forall k | 0 <= k < |part| :: part[k] == s[lo + k];
    assert part[i..j] == s[lo + i..lo + j];
  }

  lemma SpentShifted(s: Text, t: Text, at: nat, i: nat, j: nat)
    requires at <= |s| && i <= j <= j + 7 <= |t| && at + j + 7 <= |s|
    requires s[at + i..at + j + 7] == t[i..j + 7]
    ensures SpentAt(s, at + i, at + j) <==> SpentAt(t, i, j)
  {
    hide AllDigits;
    if i + 7 < j {
      SpotIsPrefix(s, at + i, NONCE_WORD);
      SpotIsPrefix(t, i, NONCE_WORD);
      SpotIsPrefix(s, at + j, SPENT_WORD);
      SpotIsPrefix(t, j, SPENT_WORD);
      var x, y := s[at + i..at + j + 7], t[i..j + 7];
      SliceOfSlice(s, at + i, at + j + 7, 0, 7);
      SliceOfSlice(t, i, j + 7, 0, 7);
      SliceOfSlice(s, at + i, at + j + 7, 7, j - i);
      SliceOfSlice(t, i, j + 7, 7, j - i);
      SliceOfSlice(s, at + i, at + j + 7, j - i, j - i + 7);
      SliceOfSlice(t, i, j + 7, j - i, j - i + 7);
    }
  }

  lemma SpentHasNoLineEnd(s: Text, i: int, j: int)
    requires SpentAt(s, i, j)
    ensures j + 7 <= |s| && NEWLINE !in s[i..j + 7]
  {
    SpotIsPrefix(s, i, NONCE_WORD);
    SpotIsPrefix(s, j, SPENT_WORD);
    assert s[i..j + 7] == s[i..i + 7] + s[i + 7..j] + s[j..j + 7];
    assert NEWLINE !in s[i + 7..j];
  }

  lemma SpentInLine(a: Text, b: Text)
    ensures SaysSpent(a + [NEWLINE] + b) <==> SaysSpent(a) || SaysSpent(b)
  {
    hide SpentAt;
    var s := a + [NEWLINE] + b;
    if SaysSpent(s) {
      var i, j :| 0 <= i && i + 7 < j <= |s| && SpentAt(s, i, j);
      SpentHasNoLineEnd(s, i, j);
      WithinALine(a, b, i, j + 7);
      if i > |a| {
        SpentShifted(s, b, |a| + 1, i - |a| - 1, j - |a| - 1);
      } else {
        SpentShifted(s, a, 0, i, j);
      }
    }
    if SaysSpent(a) {
      var i, j :| 0 <= i && i + 7 < j <= |a| && SpentAt(a, i, j);
      SpentHasNoLineEnd(a, i, j);
      assert s[i..j + 7] == a[i..j + 7];
      SpentShifted(s, a, 0, i, j);
    }
    if SaysSpent(b) {
      var i, j :| 0 <= i && i + 7 < j <= |b| && SpentAt(b, i, j);
      SpentHasNoLineEnd(b, i, j);
      assert s[|a| + 1 + i..|a| + 1 + j + 7] == b[i..j + 7];
      SpentShifted(s, b, |a| + 1, i, j);
    }
  }

  /** The settled log is the result's over a line end: it keeps the nonce exactly when one of its lines does. */
  lemma KeepsByLine(a: Text, b: Text)
    ensures RefusalKeepsNonce(a + [NEWLINE] + b) <==> RefusalKeepsNonce(a) || RefusalKeepsNonce(b)
  {
    hide Contains, SaysSpent;
    ContainsInLine(a, b, JsonValue.Ascii("held by a pending transaction"));
    ContainsInLine(a, b, JsonValue.Ascii("already used"));
    ContainsInLine(a, b, JsonValue.Ascii("<= base nonce"));
    SpentInLine(a, b);
  }

  lemma NoLogKeepsNothing()
    ensures !RefusalKeepsNonce([])
  {
  }

  /**
    CheckTx refused the transaction, or the API's handler did. A repeat refused by CheckTx
    counts only with a log to tell why.
  */
  ghost predicate ChainRefused(post: Post, repeated: bool) {
    && post.Answered? && post.text != [] && post.body.Json? && 200 <= post.status < 300
    && (post.body.error.Some? ==> !InCache(post.body.error.value))
    && if post.body.success && post.body.data.Some? then
         && post.body.data.value.code.Some? && post.body.data.value.code.value != 0
         && (repeated ==> post.body.data.value.log.Some?)
       else post.body.error.Some? && post.body.error.value != []
  }

  /** The API or a gateway refused this request's body. */
  ghost predicate BodyRefused(post: Post) {
    && post.Answered? && post.status in {400, 413, 415, 422}
    && (post.text != [] ==> !post.body.JsonNull?)
    && !(post.text != [] && post.body.NotJson? && InCache(post.text))
    && !(post.text != [] && post.body.Json? && post.body.error.Some? && InCache(post.body.error.value))
  }

  /** The log a refusal is judged by. */
  ghost function RefusalLog(post: Post): Text
    requires post.Answered?
  {
    var error := if post.text != [] && post.body.Json? then post.body.error else None;
    if 400 <= post.status < 500 then RefusalText(post.status, if error.Some? then error.value else post.text)
    else if post.body.Json? && post.body.success && post.body.data.Some? then
      if post.body.data.value.log.Some? then post.body.data.value.log.value else []
    else if error.Some? then error.value else []
  }

  /**
    An answer gives the nonce back if and only if it is a refusal by the chain, or of the body
    of a first post, whose log does not say the nonce is held, used or spent.
  */
  lemma GivesBackExactly(post: Post, repeated: bool)
    ensures
      Classify(post, repeated).Result? && GivesBack(Classify(post, repeated).result) <==>
      && (ChainRefused(post, repeated) || (!repeated && BodyRefused(post)))
      && !RefusalKeepsNonce(RefusalLog(post))
  {
    hide InCache, RefusalKeepsNonce, RefusalText;
    NoLogKeepsNothing();
    if post.Answered? {
      KeepsByLine(RefusalLog(post), RefusalLog(post));
    }
  }

  /** No 4xx, unless its body is JSON's `null`, is taken for more than pending when the post may repeat one already sent. */
  lemma RepeatedClientErrorKeeps(post: Post)
    requires post.Answered? && IsClientError(post.status)
    ensures Classify(post, true).Threw? <==> post.text != [] && post.body.JsonNull?
    ensures Classify(post, true).Result? ==> Classify(post, true).result.pending
    ensures Classify(post, true).Result? ==> !GivesBack(Classify(post, true).result)
  {
    hide InCache, RefusalText;
  }
}
