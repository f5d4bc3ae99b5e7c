/** Sending a signed write, retrying it, and settling its nonce. */
module Settlement {
  import opened Bytes
  import opened NonceState
  import opened Nonces
  import opened NonceRuns
  import opened TxSubmit

  /** How a send ends: a result, with the submission unless it was accepted, or an error thrown. */
  datatype Sent =
    | Returned(result: BroadcastResult, submission: bool)
    | ThrewUnsent
    | ThrewSubmission

  /** What a write does before it is sent. */
  datatype Written = FieldRefused | NoState | NoNonce(r: TakeResult) | SignFailed | Sending(nonce: int, sent: Sent)

  // ---------- The posts of one send ----------

  /** What the posts from an attempt on come to: the answer, if any, and how many attempts were made in all. */
  function Attempts(posts: nat -> Post, earlier: bool, attempt: nat, maxRetries: int): (r: (Option<BroadcastResult>, nat))
    ensures attempt <= r.1 && (attempt <= maxRetries ==> attempt < r.1 <= maxRetries + 1)
    ensures r.0.Some? ==> attempt < r.1
    decreases maxRetries + 1 - attempt
  {
    if attempt > maxRetries then (None, attempt)
    else
      match Classify(posts(attempt), earlier)
      case Result(result) => (Some(result), attempt + 1)
      case Threw => Attempts(posts, true, attempt + 1, maxRetries)
  }

  function HoldEvents(did: Did, nonce: int, clock: nat -> int, from: nat, to: nat): (es: seq<Event>)
    requires from <= to
    ensures |es| == to - from
    ensures forall i | 0 <= i < |es| :: es[i] == HoldEvent(did, nonce, clock(from + i))
  {
    seq(to - from, i requires 0 <= i < to - from => HoldEvent(did, nonce, clock(from + i)))
  }

  /** The allocator's steps a send makes; `clock(i)` is the reading at attempt `i`, and the last the settling one. */
  function SendEvents(
    did: Did, nonce: int, posts: nat -> Post, clock: nat -> int, repeated: bool, apiUrl: bool, maxRetries: int): seq<Event>
  {
    if !apiUrl || maxRetries < 0 then if repeated then [] else [ReleaseEvent(did, nonce)]
    else
      var (answer, made) := Attempts(posts, repeated, 0, maxRetries);
      HoldEvents(did, nonce, clock, 0, made)
      + if answer.Some? then [SettleEvent(did, nonce, answer.value, clock(made))] else []
  }

  /** The accounts after more steps. */
  function After(accounts: Accounts, events: seq<Event>): Accounts {
    if events == [] then accounts else Apply(After(accounts, events[..|events| - 1]), events[|events| - 1])
  }

  lemma {:induction false} AfterRun(before: seq<Event>, events: seq<Event>)
    ensures After(Run(before), events) == Run(before + events)
  {
    hide Apply;
    if events == [] {
      assert before + events == before;
    } else {
      assert (before + events)[..|before + events| - 1] == before + events[..|events| - 1];
      AfterRun(before, events[..|events| - 1]);
    }
  }

  lemma AfterMore(accounts: Accounts, events: seq<Event>, e: Event)
    ensures After(accounts, events + [e]) == Apply(After(accounts, events), e)
  {
    hide Apply;
    LastOf(events, e);
  }

  lemma AfterNothing()
    ensures forall x: Accounts :: After(x, []) == x
  {
  }

  lemma {:induction false} AfterBoth(accounts: Accounts, first: seq<Event>, second: seq<Event>)
    ensures After(After(accounts, first), second) == After(accounts, first + second)
  {
    hide Apply;
    if second == [] {
      assert first + second == first;
    } else {
      var n := |second| - 1;
      AfterBoth(accounts, first, second[..n]);
      AfterMore(accounts, first + second[..n], second[n]);
      assert first + second == (first + second[..n]) + [second[n]];
    }
  }

  // ---------- A write's steps among those of others ----------

  /** A write's own steps in order, with what the others do before, between and after them: `others(i)` before step `i`. */
  function Weave(own: seq<Event>, others: nat -> seq<Event>): seq<Event> {
    if own == [] then others(0)
    else Weave(own[..|own| - 1], others) + [own[|own| - 1]] + others(|own|)
  }

  /** What the others do from a write's second step on. */
  function Later(others: nat -> seq<Event>): nat -> seq<Event> {
    (i: nat) => others(i + 1)
  }

  lemma WeaveMore(accounts: Accounts, own: seq<Event>, e: Event, others: nat -> seq<Event>)
    ensures After(accounts, Weave(own + [e], others))
         == After(Apply(After(accounts, Weave(own, others)), e), others(|own| + 1))
  {
    hide Apply;
    assert (own + [e])[..|own|] == own;
    AfterBoth(accounts, Weave(own, others) + [e], others(|own| + 1));
    AfterMore(accounts, Weave(own, others), e);
  }

  lemma {:induction false} WeaveFirst(e: Event, rest: seq<Event>, others: nat -> seq<Event>)
    ensures Weave([e] + rest, others) == others(0) + [e] + Weave(rest, Later(others))
  {
    if rest == [] {
      assert [e] + rest == [e] && [e][..0] == [];
    } else {
      var n := |rest| - 1;
      var all := [e] + rest;
      assert all[..|all| - 1] == [e] + rest[..n] && all[|all| - 1] == rest[n];
      WeaveFirst(e, rest[..n], others);
      Regroup(others(0) + [e], Weave(rest[..n], Later(others)), [rest[n]], others(|all|));
    }
  }

  lemma Regroup(a: seq<Event>, b: seq<Event>, c: seq<Event>, d: seq<Event>)
    ensures (a + b) + c + d == a + (b + c + d)
  {
  }

  // ---------- The client ----------

  /**
    The consensus client's part in submission; `posts` are what its posts come to, `clock` the
    readings it makes, and `others` the steps other writes make of the same allocator while it
    awaits.
  */
  class ConsensusClient {
    const nonces: NonceAllocator
    const apiUrl: bool
    const maxRetries: int

    constructor (nonces: NonceAllocator, apiUrl: bool, maxRetries: int)
      ensures this.nonces == nonces && this.apiUrl == apiUrl && this.maxRetries == maxRetries
    {
      this.nonces := nonces;
      this.apiUrl := apiUrl;
      this.maxRetries := maxRetries;
    }

    /** What other writes do of the allocator until this one goes on. */
    method Await(others: seq<Event>)
      modifies nonces
      ensures nonces.accounts == After(old(nonces.accounts), others)
    {
      hide Take, Release, Hold, Settle;
      assert others[..0] == [];
      for i := 0 to |others|
        invariant nonces.accounts == After(old(nonces.accounts), others[..i])
      {
        AfterMore(old(nonces.accounts), others[..i], others[i]);
        assert others[..i + 1] == others[..i] + [others[i]];
        match others[i] {
          case TakeEvent(did, chain, now, at) =>
            var r := nonces.TakeNonce(did, chain, now, at);
          case ReleaseEvent(did, nonce) =>
            nonces.ReleaseNonce(did, nonce);
          case HoldEvent(did, nonce, at) =>
            nonces.HoldNonce(did, nonce, at);
          case SettleEvent(did, nonce, result, at) =>
            nonces.SettleNonce(did, nonce, result, at);
        }
      }
      assert others[..|others|] == others;
    }

    /** Post until an answer or the retries run out, renewing the hold before each attempt. */
    method BroadcastTransaction(
      did: Did, nonce: int, posts: nat -> Post, clock: nat -> int, repeated: bool, others: nat -> seq<Event>)
      returns (answer: Option<BroadcastResult>, made: nat)
      modifies nonces
      ensures (answer, made) == if apiUrl then Attempts(posts, repeated, 0, maxRetries) else (None, 0)
      ensures nonces.accounts == After(old(nonces.accounts), Weave(HoldEvents(did, nonce, clock, 0, made), others))
    {
      hide Apply, Classify;
      made := 0;
      ghost var start := nonces.accounts;
      Await(others(0));
      if !apiUrl {
        return None, 0;
      }
      var earlier := repeated;
      while made <= maxRetries
        invariant Attempts(posts, repeated, 0, maxRetries) == Attempts(posts, earlier, made, maxRetries)
        invariant nonces.accounts == After(start, Weave(HoldEvents(did, nonce, clock, 0, made), others))
      {
        HoldOnce(start, did, nonce, clock, made, others);
        nonces.HoldNonce(did, nonce, clock(made));
        Await(others(made + 1));
        var attempt := Classify(posts(made), earlier);
        made := made + 1;
        if attempt.Result? {
          return Some(attempt.result), made;
        }
        earlier := true;
      }
      return None, made;
    }

    /** Post a signed write and settle its nonce. */
    method SendSigned(
      did: Did, nonce: int, posts: nat -> Post, clock: nat -> int, repeated: bool, others: nat -> seq<Event>)
      returns (r: Sent)
      modifies nonces
      ensures nonces.accounts
           == After(old(nonces.accounts),
                    Weave(SendEvents(did, nonce, posts, clock, repeated, apiUrl, maxRetries), others))
      ensures r == SendOutcome(posts, repeated, apiUrl, maxRetries)
    {
      hide Attempts, Settle, Hold, Weave;
      ghost var start := nonces.accounts;
      var answer, made := BroadcastTransaction(did, nonce, posts, clock, repeated, others);
      ghost var holds := HoldEvents(did, nonce, clock, 0, made);
      var sent := made > 0;
      AttemptsMade(posts, repeated, maxRetries);
      if answer.None? {
        if !sent {
          if !repeated {
            WeaveMore(start, [], ReleaseEvent(did, nonce), others);
            assert [] + [ReleaseEvent(did, nonce)] == [ReleaseEvent(did, nonce)] && holds == [];
            nonces.ReleaseNonce(did, nonce);
            Await(others(1));
          }
          return ThrewUnsent;
        }
        assert holds + [] == holds;
        return ThrewSubmission;
      }
      WeaveMore(start, holds, SettleEvent(did, nonce, answer.value, clock(made)), others);
      nonces.SettleNonce(did, nonce, answer.value, clock(made));
      Await(others(made + 1));
      return Returned(answer.value, !answer.value.success);
    }

    /** Post a signed write again under its nonce. */
    method Resubmit(did: Did, nonce: int, posts: nat -> Post, clock: nat -> int, others: nat -> seq<Event>)
      returns (r: Sent)
      modifies nonces
      ensures nonces.accounts
           == After(old(nonces.accounts), Weave(SendEvents(did, nonce, posts, clock, true, apiUrl, maxRetries), others))
      ensures r == SendOutcome(posts, true, apiUrl, maxRetries)
    {
      r := SendSigned(did, nonce, posts, clock, true, others);
    }

    /** Take a nonce: from the state just read, or from the newest seen when the read failed. */
    method NextNonce(did: Did, read: Option<State>, now: int, at: int, others: seq<Event>)
      returns (r: Option<TakeResult>)
      modifies nonces
      ensures
        var arrived := After(old(nonces.accounts), others);
        if read.None? && AccountOf(arrived, did).latest.None? then r.None? && nonces.accounts == arrived
        else r.Some? && (nonces.accounts, r.value) == Take(arrived, did, read, now, at)
    {
      Await(others);
      if read.None? {
        if did !in nonces.accounts || nonces.accounts[did].latest.None? {
          return None;
        }
      }
      var taken := nonces.TakeNonce(did, read, now, at);
      return Some(taken);
    }

    /** Check the fields, take a nonce, sign, send. `fields` and `signs`: whether the check and the signing succeed. */
    method SubmitWithNonce(
      did: Did, fields: bool, read: Option<State>, now: int, at: int, signs: bool, posts: nat -> Post, clock: nat -> int,
      others: nat -> seq<Event>)
      returns (w: Written)
      modifies nonces
      ensures (nonces.accounts, w)
           == Submission(old(nonces.accounts), did, fields, read, now, at, signs, posts, clock, apiUrl, maxRetries, others)
    {
      hide Take, Attempts, SendEvents, Release, Weave, After;
      AfterNothing();
      if !fields {
        return FieldRefused;
      }
      ghost var start := nonces.accounts;
      var taken := NextNonce(did, read, now, at, others(0));
      if taken.None? {
        return NoState;
      }
      ghost var take := TakeEvent(did, read, now, at);
      ghost var took := nonces.accounts;
      if !taken.value.Taken? {
        TakenThen(start, take, [], others);
        WeaveShort(took, take, Later(others));
        Await(others(1));
        return NoNonce(taken.value);
      }
      var nonce := taken.value.nonce;
      if !signs {
        TakenThen(start, take, [ReleaseEvent(did, nonce)], others);
        WeaveShort(took, ReleaseEvent(did, nonce), Later(others));
        Await(others(1));
        nonces.ReleaseNonce(did, nonce);
        Await(others(2));
        return SignFailed;
      }
      TakenThen(start, take, SendEvents(did, nonce, posts, clock, false, apiUrl, maxRetries), others);
      var sent := SendSigned(did, nonce, posts, clock, false, Later(others));
      return Sending(nonce, sent);
    }
  }

  /** The accounts after a take and the steps that follow it. */
  lemma TakenThen(start: Accounts, take: Event, rest: seq<Event>, others: nat -> seq<Event>)
    ensures After(start, Weave([take] + rest, others))
         == After(Apply(After(start, others(0)), take), Weave(rest, Later(others)))
  {
    hide Apply, After, Weave;
    WeaveFirst(take, rest, others);
    AfterBoth(start, others(0) + [take], Weave(rest, Later(others)));
    AfterMore(start, others(0), take);
  }

  lemma WeaveShort(accounts: Accounts, e: Event, others: nat -> seq<Event>)
    ensures Weave([], others) == others(0)
    ensures After(accounts, Weave([e], others)) == After(Apply(After(accounts, others(0)), e), others(1))
  {
    hide Apply, After;
    WeaveMore(accounts, [], e, others);
    assert [] + [e] == [e];
  }

  lemma HoldOnce(start: Accounts, did: Did, nonce: int, clock: nat -> int, made: nat, others: nat -> seq<Event>)
    ensures After(start, Weave(HoldEvents(did, nonce, clock, 0, made + 1), others))
         == After(Hold(After(start, Weave(HoldEvents(did, nonce, clock, 0, made), others)), did, nonce, clock(made)),
                  others(made + 1))
  {
    hide Hold, Weave, After;
    var e := HoldEvent(did, nonce, clock(made));
    assert HoldEvents(did, nonce, clock, 0, made + 1) == HoldEvents(did, nonce, clock, 0, made) + [e];
    WeaveMore(start, HoldEvents(did, nonce, clock, 0, made), e, others);
  }

  lemma AttemptsMade(posts: nat -> Post, repeated: bool, maxRetries: int)
    ensures maxRetries < 0 ==> Attempts(posts, repeated, 0, maxRetries) == (None, 0)
    ensures maxRetries >= 0 ==> Attempts(posts, repeated, 0, maxRetries).1 > 0
  {
  }

  function SendOutcome(posts: nat -> Post, repeated: bool, apiUrl: bool, maxRetries: int): Sent {
    if !apiUrl || maxRetries < 0 then ThrewUnsent
    else
      match Attempts(posts, repeated, 0, maxRetries).0
      case None => ThrewSubmission
      case Some(result) => Returned(result, !result.success)
  }

  /** The allocator's steps of a new write from its take on, by what the take returned. */
  function WriteEvents(
    r: TakeResult, did: Did, read: Option<State>, now: int, at: int, signs: bool,
    posts: nat -> Post, clock: nat -> int, apiUrl: bool, maxRetries: int): seq<Event>
  {
    [TakeEvent(did, read, now, at)]
    + if !r.Taken? then []
      else if !signs then [ReleaseEvent(did, r.nonce)]
      else SendEvents(did, r.nonce, posts, clock, false, apiUrl, maxRetries)
  }

  /** The allocator's steps while a new write is made: its own, and those of others in between. */
  function SubmissionEvents(
    accounts: Accounts, did: Did, fields: bool, read: Option<State>, now: int, at: int, signs: bool,
    posts: nat -> Post, clock: nat -> int, apiUrl: bool, maxRetries: int, others: nat -> seq<Event>): seq<Event>
  {
    var arrived := After(accounts, others(0));
    if !fields then []
    else if read.None? && AccountOf(arrived, did).latest.None? then others(0)
    else
      Weave(WriteEvents(
              Take(arrived, did, read, now, at).1, did, read, now, at, signs, posts, clock, apiUrl, maxRetries), others)
  }

  /** What a new write does to the accounts, and how it ends. */
  function Submission(
    accounts: Accounts, did: Did, fields: bool, read: Option<State>, now: int, at: int, signs: bool,
    posts: nat -> Post, clock: nat -> int, apiUrl: bool, maxRetries: int, others: nat -> seq<Event>): (Accounts, Written)
  {
    var arrived := After(accounts, others(0));
    var r := Take(arrived, did, read, now, at).1;
    (After(accounts,
           SubmissionEvents(accounts, did, fields, read, now, at, signs, posts, clock, apiUrl, maxRetries, others)),
     if !fields then FieldRefused
     else if read.None? && AccountOf(arrived, did).latest.None? then NoState
     else if !r.Taken? then NoNonce(r)
     else if !signs then SignFailed
     else Sending(r.nonce, SendOutcome(posts, false, apiUrl, maxRetries)))
  }

  // ---------- When a nonce is given back ----------

  /** The last post made, and whether an earlier one may have been sent. */
  lemma {:induction false} AnswerIsLast(posts: nat -> Post, earlier: bool, attempt: nat, maxRetries: int)
    ensures
      var (answer, made) := Attempts(posts, earlier, attempt, maxRetries);
      && (forall i | attempt <= i < (if answer.Some? then made - 1 else made) ::
            Classify(posts(i), earlier || i > attempt).Threw?)
      && (answer.Some? ==>
            Classify(posts(made - 1), earlier || made - 1 > attempt) == Result(answer.value))
      && (answer.None? && attempt <= maxRetries ==> made == maxRetries + 1)
    decreases maxRetries + 1 - attempt
  {
    hide Classify;
    if attempt <= maxRetries && Classify(posts(attempt), earlier).Threw? {
      AnswerIsLast(posts, true, attempt + 1, maxRetries);
    }
  }

  /** The send gives the nonce back: nothing was sent of a new write, or the settling answer is a refusal that frees it. */
  ghost predicate SendFrees(posts: nat -> Post, repeated: bool, apiUrl: bool, maxRetries: int) {
    if !apiUrl || maxRetries < 0 then !repeated
    else
      var (answer, made) := Attempts(posts, repeated, 0, maxRetries);
      && answer.Some?
      && var last := posts(made - 1);
         && (ChainRefused(last, repeated || made > 1) || (!repeated && made == 1 && BodyRefused(last)))
         && !RefusalKeepsNonce(RefusalLog(last))
  }

  /**
    A send gives its nonce back if and only if nothing was sent (of a new write), or the last
    post was answered with a refusal whose log does not keep the nonce: one by the chain, or
    one of the body when no post was made before it. Otherwise it leaves the nonce held from
    its last step on.
  */
  lemma SendSettles(
    before: seq<Event>, did: Did, nonce: int, posts: nat -> Post, clock: nat -> int,
    repeated: bool, apiUrl: bool, maxRetries: int)
    ensures
      var events := SendEvents(did, nonce, posts, clock, repeated, apiUrl, maxRetries);
      var held := HeldSince(before + events, did, nonce);
      && ((exists e <- events :: Frees(e, did, nonce)) <==> SendFrees(posts, repeated, apiUrl, maxRetries))
      && (SendFrees(posts, repeated, apiUrl, maxRetries) ==> held.None?)
      && (!SendFrees(posts, repeated, apiUrl, maxRetries) && apiUrl && maxRetries >= 0 ==>
            var (answer, made) := Attempts(posts, repeated, 0, maxRetries);
            held == Some(clock(if answer.Some? then made else maxRetries)))
  {
    hide Classify, ChainRefused, BodyRefused, RefusalKeepsNonce, RefusalLog, GivesBack, TakeAfter, Attempts;
    var events := SendEvents(did, nonce, posts, clock, repeated, apiUrl, maxRetries);
    if !apiUrl || maxRetries < 0 {
      LastOf(before, ReleaseEvent(did, nonce));
      if !repeated {
        assert Frees(events[0], did, nonce);
      }
    } else {
      var (answer, made) := Attempts(posts, repeated, 0, maxRetries);
      AnswerIsLast(posts, repeated, 0, maxRetries);
      AttemptsMade(posts, repeated, maxRetries);
      var holds := HoldEvents(did, nonce, clock, 0, made);
      HoldsOnly(before, did, nonce, clock, made);
      if answer.Some? {
        GivesBackExactly(posts(made - 1), repeated || made > 1);
        var settle := SettleEvent(did, nonce, answer.value, clock(made));
        assert before + events == (before + holds) + [settle];
        LastOf(before + holds, settle);
        assert events == holds + [settle];
        LastIn(holds, settle);
        assert Frees(settle, did, nonce) <==> SendFrees(posts, repeated, apiUrl, maxRetries);
        assert settle in events;
      } else {
        assert holds + [] == holds;
      }
    }
  }

  lemma LastIn(events: seq<Event>, e: Event)
    ensures forall x :: x in events + [e] <==> x in events || x == e
  {
    assert (events + [e])[|events|] == e;
  }

  lemma HoldsOnly(before: seq<Event>, did: Did, nonce: int, clock: nat -> int, made: nat)
    requires made > 0
    ensures forall e <- HoldEvents(did, nonce, clock, 0, made) :: !Frees(e, did, nonce)
    ensures HeldSince(before + HoldEvents(did, nonce, clock, 0, made), did, nonce) == Some(clock(made - 1))
  {
    hide GivesBack, TakeAfter;
    var e := HoldEvent(did, nonce, clock(made - 1));
    var holds := HoldEvents(did, nonce, clock, 0, made);
    assert before + holds == (before + holds[..made - 1]) + [e];
    LastOf(before + holds[..made - 1], e);
  }

  /** The send makes a step that gives the nonce back. */
  ghost predicate GivesBackIn(
    did: Did, nonce: int, posts: nat -> Post, clock: nat -> int, repeated: bool, apiUrl: bool, maxRetries: int)
  {
    exists e <- SendEvents(did, nonce, posts, clock, repeated, apiUrl, maxRetries) :: Frees(e, did, nonce)
  }

  /**
    A send whose first post threw, or a resubmission, that gives the nonce back was last
    answered otherwise than by a 4xx.
  */
  lemma NoClientErrorFreesARepeat(
    did: Did, nonce: int, posts: nat -> Post, clock: nat -> int, repeated: bool, apiUrl: bool, maxRetries: int)
    requires apiUrl && maxRetries >= 0 && GivesBackIn(did, nonce, posts, clock, repeated, apiUrl, maxRetries)
    requires repeated || Classify(posts(0), false).Threw?
    ensures
      var made := Attempts(posts, repeated, 0, maxRetries).1;
      made > 0 && posts(made - 1).Answered? && !IsClientError(posts(made - 1).status)
  {
    hide Classify, RefusalKeepsNonce, RefusalLog, InCache, Frees, SendEvents;
    SendSettles([], did, nonce, posts, clock, repeated, apiUrl, maxRetries);
    AnswerIsLast(posts, repeated, 0, maxRetries);
  }

  /**
    A resubmission gives the nonce back if and only if the chain itself refused the write
    with a log that does not keep the nonce; whatever else comes of it, nothing it does frees
    the nonce.
  */
  lemma ResubmitFreesOnlyOnRefusal(
    did: Did, nonce: int, posts: nat -> Post, clock: nat -> int, apiUrl: bool, maxRetries: int)
    ensures
      GivesBackIn(did, nonce, posts, clock, true, apiUrl, maxRetries) <==>
      && apiUrl && maxRetries >= 0
      && var (answer, made) := Attempts(posts, true, 0, maxRetries);
         answer.Some? && ChainRefused(posts(made - 1), true) && !RefusalKeepsNonce(RefusalLog(posts(made - 1)))
  {
    hide Attempts, ChainRefused, BodyRefused, RefusalKeepsNonce, RefusalLog, SendEvents, Frees;
    SendSettles([], did, nonce, posts, clock, true, apiUrl, maxRetries);
  }

  // ---------- A client's writes are a run of the allocator ----------

  /** So what every run of the allocator keeps, a run of writes keeps, whatever others do in between. */
  lemma SubmissionIsARun(
    before: seq<Event>, did: Did, fields: bool, read: Option<State>, now: int, at: int, signs: bool,
    posts: nat -> Post, clock: nat -> int, apiUrl: bool, maxRetries: int, others: nat -> seq<Event>)
    ensures
      Run(before + SubmissionEvents(
                     Run(before), did, fields, read, now, at, signs, posts, clock, apiUrl, maxRetries, others))
      == Submission(Run(before), did, fields, read, now, at, signs, posts, clock, apiUrl, maxRetries, others).0
  {
    hide Take, SubmissionEvents, After, Run;
    AfterRun(
      before,
      SubmissionEvents(Run(before), did, fields, read, now, at, signs, posts, clock, apiUrl, maxRetries, others));
  }

  /** A write refused before it was sent leaves its nonce free to the next. */
  lemma UnsentWriteFrees(
    before: seq<Event>, did: Did, read: Option<State>, now: int, at: int, signs: bool,
    posts: nat -> Post, clock: nat -> int, apiUrl: bool, maxRetries: int)
    requires Take(Run(before), did, read, now, at).1.Taken?
    requires !signs || !apiUrl || maxRetries < 0
    ensures
      var r := Take(Run(before), did, read, now, at).1;
      var events := WriteEvents(r, did, read, now, at, signs, posts, clock, apiUrl, maxRetries);
      HeldSince(before + events, did, r.nonce).None?
  {
    hide Take, GivesBack;
    var r := Take(Run(before), did, read, now, at).1;
    var events := WriteEvents(r, did, read, now, at, signs, posts, clock, apiUrl, maxRetries);
    var take, release := TakeEvent(did, read, now, at), ReleaseEvent(did, r.nonce);
    assert events == [take, release];
    assert before + events == (before + [take]) + [release];
    LastOf(before + [take], release);
  }

  /**
    A write that took a nonce makes a step giving it back if and only if the signing failed
    or the send gives it back, and then leaves it free; otherwise it leaves it held.
  */
  lemma WriteSettles(
    before: seq<Event>, did: Did, read: Option<State>, now: int, at: int, signs: bool,
    posts: nat -> Post, clock: nat -> int, apiUrl: bool, maxRetries: int)
    requires Take(Run(before), did, read, now, at).1.Taken?
    ensures
      var r := Take(Run(before), did, read, now, at).1;
      var events := WriteEvents(r, did, read, now, at, signs, posts, clock, apiUrl, maxRetries);
      var frees := !signs || SendFrees(posts, false, apiUrl, maxRetries);
      && ((exists e <- events :: Frees(e, did, r.nonce)) <==> frees)
      && (HeldSince(before + events, did, r.nonce).None? <==> frees)
  {
    hide Take, SendFrees, SendEvents, Attempts, HeldSince;
    var r := Take(Run(before), did, read, now, at).1;
    var events := WriteEvents(r, did, read, now, at, signs, posts, clock, apiUrl, maxRetries);
    var take := TakeEvent(did, read, now, at);
    if signs {
      var sent := SendEvents(did, r.nonce, posts, clock, false, apiUrl, maxRetries);
      SendSettles(before + [take], did, r.nonce, posts, clock, false, apiUrl, maxRetries);
      SendHolds(posts, apiUrl, maxRetries);
      assert events == [take] + sent;
      assert before + events == (before + [take]) + sent;
      assert forall e :: e in events <==> e == take || e in sent;
    } else {
      UnsentWriteFrees(before, did, read, now, at, signs, posts, clock, apiUrl, maxRetries);
      assert Frees(events[1], did, r.nonce);
    }
  }

  lemma SendHolds(posts: nat -> Post, apiUrl: bool, maxRetries: int)
    ensures !SendFrees(posts, false, apiUrl, maxRetries) ==> apiUrl && maxRetries >= 0
  {
  }
}
