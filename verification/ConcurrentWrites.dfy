/** Writes in flight at once, and exactly when no two of them ever hold one nonce. */
module ConcurrentWrites {
  import opened Bytes
  import opened Text
  import opened NonceState
  import Powers
  import JsonValue
  import opened Nonces
  import opened NonceRuns
  import opened TxSubmit
  import opened Settlement

  /** A new write, or a signed one posted again under its nonce. */
  datatype Write =
    | NewWrite(
        did: Did, read: Option<State>, now: int, at: int, signs: bool,
        posts: nat -> Post, clock: nat -> int, apiUrl: bool, maxRetries: int)
    | Resubmission(did: Did, nonce: int, posts: nat -> Post, clock: nat -> int, apiUrl: bool, maxRetries: int)

  /** One step of one write, and when it is made. */
  datatype Step = Step(writer: nat, event: Event, at: int)

  type Trace = seq<Step>

  // ---------- A trace, seen whole and write by write ----------

  function Events(trace: Trace): seq<Event> {
    if trace == [] then [] else Events(trace[..|trace| - 1]) + [trace[|trace| - 1].event]
  }

  /** The steps of one write, in order. */
  function Own(trace: Trace, w: nat): seq<Event> {
    if trace == [] then []
    else
      var before, s := Own(trace[..|trace| - 1], w), trace[|trace| - 1];
      if s.writer == w then before + [s.event] else before
  }

  /** What the write's take returned, once it has been made. */
  function TakenBy(trace: Trace, w: nat): Option<TakeResult> {
    if trace == [] then None
    else
      var before, s := trace[..|trace| - 1], trace[|trace| - 1];
      if s.writer == w && s.event.TakeEvent? then Some(TakeAfter(Events(before), s.event)) else TakenBy(before, w)
  }

  /** When the write made its last step. */
  function LastAt(trace: Trace, w: nat): int {
    if trace == [] then 0
    else if trace[|trace| - 1].writer == w then trace[|trace| - 1].at
    else LastAt(trace[..|trace| - 1], w)
  }

  function TimeAfter(trace: Trace, start: int): int {
    if trace == [] then start else trace[|trace| - 1].at
  }

  /** The step is the next of its write's own, whatever the others have done in between. */
  ghost predicate IsNext(before: Trace, s: Step, write: Write) {
    var own := Own(before, s.writer);
    match write
    case NewWrite(did, read, now, at, signs, posts, clock, apiUrl, maxRetries) =>
      if own == [] then s.event == TakeEvent(did, read, now, at)
      else
        var r := TakenBy(before, s.writer);
        r.Some? && own + [s.event] <= WriteEvents(r.value, did, read, now, at, signs, posts, clock, apiUrl, maxRetries)
    case Resubmission(did, nonce, posts, clock, apiUrl, maxRetries) =>
      own + [s.event] <= SendEvents(did, nonce, posts, clock, true, apiUrl, maxRetries)
  }

  /** Each write makes its own steps in their order; `writes` are all there are. */
  ghost predicate Interleaves(trace: Trace, writes: nat -> Write) {
    trace != [] ==>
      var before, s := trace[..|trace| - 1], trace[|trace| - 1];
      Interleaves(before, writes) && IsNext(before, s, writes(s.writer))
  }

  /** The clock never goes back, and a step that reads it reads the time it is made at. */
  ghost predicate Timed(trace: Trace, start: int) {
    trace != [] ==>
      var before, s := trace[..|trace| - 1], trace[|trace| - 1];
      && Timed(before, start) && TimeAfter(before, start) <= s.at
      && (ReadsClock(s.event) ==> TimeAfter(before, start) <= FirstReading(s.event) <= s.event.at == s.at)
  }

  /** The write has a nonce and has not settled it, and its last step is less than 120 s ago. */
  ghost predicate InFlight(trace: Trace, w: nat, write: Write, now: int) {
    && NonceOf(trace, w, write).Some? && !Ended(trace, w)
    && now - LastAt(trace, w) < NONCE_HOLD_MS
  }

  function NonceOf(trace: Trace, w: nat, write: Write): Option<int> {
    if Own(trace, w) == [] then None
    else if write.Resubmission? then Some(write.nonce)
    else
      var r := TakenBy(trace, w);
      if r.Some? && r.value.Taken? then Some(r.value.nonce) else None
  }

  predicate Ended(trace: Trace, w: nat) {
    var own := Own(trace, w);
    own != [] && (own[|own| - 1].ReleaseEvent? || own[|own| - 1].SettleEvent?)
  }

  /** Another write in flight has the nonce. */
  ghost predicate Occupied(trace: Trace, writes: nat -> Write, did: Did, nonce: int, now: int) {
    exists v: nat ::
      InFlight(trace, v, writes(v), now) && writes(v).did == did && NonceOf(trace, v, writes(v)) == Some(nonce)
  }

  /** The step settles its nonce and keeps it held. */
  predicate Keeps(e: Event) {
    e.SettleEvent? && !GivesBack(e.result)
  }

  /**
    A write that is not in flight (a resubmission before its first step, or any write 120 s
    or more after its last) holds or gives back a nonce only while no write in flight has it.
  */
  ghost predicate EntersIdle(trace: Trace, writes: nat -> Write) {
    trace != [] ==>
      var before, s := trace[..|trace| - 1], trace[|trace| - 1];
      && EntersIdle(before, writes)
      && (!s.event.TakeEvent? && !Keeps(s.event) && !InFlight(before, s.writer, writes(s.writer), s.at) ==>
            !Occupied(before, writes, s.event.did, s.event.nonce, s.at))
  }

  /** Every write makes its next step within 120 s of the one before: a post and the wait after it end sooner. */
  ghost predicate Timely(trace: Trace) {
    trace != [] ==>
      var before, s := trace[..|trace| - 1], trace[|trace| - 1];
      Timely(before) && (Own(before, s.writer) != [] ==> s.at - LastAt(before, s.writer) < NONCE_HOLD_MS)
  }

  /** A resubmission begins only when no write in flight has its nonce. */
  ghost predicate ResubmitsIdle(trace: Trace, writes: nat -> Write) {
    trace != [] ==>
      var before, s := trace[..|trace| - 1], trace[|trace| - 1];
      && ResubmitsIdle(before, writes)
      && (writes(s.writer).Resubmission? && Own(before, s.writer) == [] ==>
            !Occupied(before, writes, writes(s.writer).did, writes(s.writer).nonce, s.at))
  }

  // ---------- The shape of a write's steps ----------

  /** A step after a write's first: of its account and nonce, no take, and nothing comes after a settling one. */
  ghost predicate IsLater(e: Event, did: Did, nonce: int) {
    e.did == did && !e.TakeEvent? && e.nonce == nonce
  }

  lemma SendShape(
    did: Did, nonce: int, posts: nat -> Post, clock: nat -> int, repeated: bool, apiUrl: bool, maxRetries: int, i: nat)
    requires i < |SendEvents(did, nonce, posts, clock, repeated, apiUrl, maxRetries)|
    ensures
      var events := SendEvents(did, nonce, posts, clock, repeated, apiUrl, maxRetries);
      && IsLater(events[i], did, nonce)
      && (i + 1 < |events| ==> events[i].HoldEvent?)
      && (repeated && i == 0 ==> events[i].HoldEvent?)
  {
    hide Classify;
    AttemptsMade(posts, repeated, maxRetries);
  }

  lemma WriteShape(
    r: TakeResult, did: Did, read: Option<State>, now: int, at: int, signs: bool,
    posts: nat -> Post, clock: nat -> int, apiUrl: bool, maxRetries: int, i: nat)
    requires 0 < i < |WriteEvents(r, did, read, now, at, signs, posts, clock, apiUrl, maxRetries)|
    ensures
      var events := WriteEvents(r, did, read, now, at, signs, posts, clock, apiUrl, maxRetries);
      r.Taken? && IsLater(events[i], did, r.nonce) && (i + 1 < |events| ==> events[i].HoldEvent?)
  {
    hide SendEvents;
    if signs {
      SendShape(did, r.nonce, posts, clock, false, apiUrl, maxRetries, i - 1);
    }
  }

  /** A write's step after its first: its write had not ended, and the step is of its nonce. */
  lemma LaterStep(before: Trace, s: Step, write: Write)
    requires IsNext(before, s, write) && Own(before, s.writer) != []
    requires Own(before, s.writer)[0].TakeEvent? <==> write.NewWrite?
    ensures NonceOf(before, s.writer, write).Some?
    ensures IsLater(s.event, write.did, NonceOf(before, s.writer, write).value)
    ensures !Ended(before, s.writer)
  {
    hide SendEvents, WriteEvents, TakenBy, Own;
    var own := Own(before, s.writer);
    var n := |own|;
    assert (own + [s.event])[n] == s.event && (own + [s.event])[n - 1] == own[n - 1];
    match write
    case NewWrite(did, read, now, at, signs, posts, clock, apiUrl, maxRetries) =>
      var r := TakenBy(before, s.writer).value;
      WriteShape(r, did, read, now, at, signs, posts, clock, apiUrl, maxRetries, n);
      if n > 1 {
        WriteShape(r, did, read, now, at, signs, posts, clock, apiUrl, maxRetries, n - 1);
      }
    case Resubmission(did, nonce, posts, clock, apiUrl, maxRetries) =>
      SendShape(did, nonce, posts, clock, true, apiUrl, maxRetries, n);
      SendShape(did, nonce, posts, clock, true, apiUrl, maxRetries, n - 1);
  }

  // ---------- One step more ----------

  lemma OneMore(before: Trace, s: Step)
    ensures
      var trace := before + [s];
      && trace[..|trace| - 1] == before && trace[|trace| - 1] == s
      && Events(trace) == Events(before) + [s.event]
  {
    var trace := before + [s];
    assert trace[..|trace| - 1] == before;
  }

  lemma OwnMore(before: Trace, s: Step, w: nat)
    ensures
      var trace := before + [s];
      && Own(trace, w) == (if s.writer == w then Own(before, w) + [s.event] else Own(before, w))
      && LastAt(trace, w) == (if s.writer == w then s.at else LastAt(before, w))
      && TakenBy(trace, w)
         == if s.writer == w && s.event.TakeEvent? then Some(TakeAfter(Events(before), s.event)) else TakenBy(before, w)
  {
    hide Take;
    OneMore(before, s);
  }

  /** The steps of others change nothing of a write's standing. */
  lemma OthersStep(before: Trace, s: Step, w: nat, write: Write, now: int)
    requires s.writer != w
    ensures NonceOf(before + [s], w, write) == NonceOf(before, w, write)
    ensures InFlight(before + [s], w, write, now) <==> InFlight(before, w, write, now)
  {
    hide Own, LastAt, TakenBy;
    OwnMore(before, s, w);
  }

  lemma {:induction false} FirstOfOwn(trace: Trace, writes: nat -> Write, w: nat)
    requires Interleaves(trace, writes) && Own(trace, w) != []
    ensures Own(trace, w)[0].TakeEvent? <==> writes(w).NewWrite?
    decreases |trace|
  {
    hide SendEvents, WriteEvents, TakenBy;
    var before, s := trace[..|trace| - 1], trace[|trace| - 1];
    if s.writer == w && Own(before, w) == [] {
      assert Own(trace, w) == [s.event];
      var write := writes(w);
      if write.Resubmission? {
        assert ([] + [s.event])[0] == s.event;
        SendShape(write.did, write.nonce, write.posts, write.clock, true, write.apiUrl, write.maxRetries, 0);
      }
    } else {
      FirstOfOwn(before, writes, w);
    }
  }

  lemma {:induction false} TimedIsClocked(trace: Trace, start: int)
    requires Timed(trace, start)
    ensures Clocked(Events(trace), start) && ClockAfter(Events(trace), start) <= TimeAfter(trace, start)
    decreases |trace|
  {
    if trace != [] {
      var before, s := trace[..|trace| - 1], trace[|trace| - 1];
      TimedIsClocked(before, start);
      LastOf(Events(before), s.event);
    }
  }

  /** A nonce a take returns is not held, or has not been for 120 s. */
  lemma TakenIsFree(events: seq<Event>, e: Event, nonce: int, start: int)
    requires e.TakeEvent? && Clocked(events + [e], start) && ValidReports(events + [e])
    requires TakeAfter(events, e) == Taken(nonce)
    ensures !Blocking(HeldSince(events, e.did, nonce), e.now)
  {
    hide Clocked, HeldSince, HighestBase, ReportedUsed, MergeAll;
    TakeIsLowestFree(events, e, start);
    ReportsValid(events + [e], e.did);
    MergeAllIsUnion(Reports(events + [e], e.did));
  }

  // ---------- Exclusion ----------

  /** No two writes in flight have one account's nonce, and each still holds its own. */
  ghost predicate Exclusive(trace: Trace, writes: nat -> Write, now: int) {
    && (forall v: nat, w: nat | v != w && InFlight(trace, v, writes(v), now) && InFlight(trace, w, writes(w), now)
                                && writes(v).did == writes(w).did ::
          NonceOf(trace, v, writes(v)) != NonceOf(trace, w, writes(w)))
    && forall w: nat | InFlight(trace, w, writes(w), now) :: Held(trace, w, writes(w))
  }

  /** The write's nonce is held, and has been since no earlier than its last step. */
  ghost predicate Held(trace: Trace, w: nat, write: Write)
    requires NonceOf(trace, w, write).Some?
  {
    var held := HeldSince(Events(trace), write.did, NonceOf(trace, w, write).value);
    held.Some? && LastAt(trace, w) <= held.value
  }

  /** Exclusive after every step so far. */
  ghost predicate AlwaysExclusive(trace: Trace, writes: nat -> Write, start: int) {
    && Exclusive(trace, writes, TimeAfter(trace, start))
    && (trace != [] ==> AlwaysExclusive(trace[..|trace| - 1], writes, start))
  }

  /** The step gives the nonce out, holds it or gives it back. */
  ghost predicate Touches(events: seq<Event>, e: Event, did: Did, nonce: int) {
    e.did == did && if e.TakeEvent? then TakeAfter(events, e) == Taken(nonce) else e.nonce == nonce
  }

  lemma HeldMore(events: seq<Event>, e: Event, did: Did, nonce: int)
    ensures !Touches(events, e, did, nonce) ==> HeldSince(events + [e], did, nonce) == HeldSince(events, did, nonce)
    ensures Touches(events, e, did, nonce) && ReadsClock(e) && (e.SettleEvent? ==> Keeps(e)) ==>
              HeldSince(events + [e], did, nonce) == Some(e.at)
    ensures Touches(events, e, did, nonce) && !e.TakeEvent? && !e.HoldEvent? && !Keeps(e) ==>
              HeldSince(events + [e], did, nonce) == None
  {
    hide TakeAfter, GivesBack;
    LastOf(events, e);
  }

  /** The writes' own steps interleaved, each at its time, with reports a chain can make. */
  ghost predicate Possible(trace: Trace, writes: nat -> Write, start: int) {
    Interleaves(trace, writes) && Timed(trace, start) && ValidReports(Events(trace))
  }

  lemma PossibleBefore(before: Trace, s: Step, writes: nat -> Write, start: int)
    requires Possible(before + [s], writes, start)
    ensures Possible(before, writes, start) && TimeAfter(before, start) <= s.at
    ensures IsNext(before, s, writes(s.writer)) && (ReadsClock(s.event) ==> s.event.at == s.at)
    ensures TimeAfter(before + [s], start) == s.at
  {
    hide IsNext, Own, LastAt;
    OneMore(before, s);
    assert forall e <- Events(before) :: e in Events(before + [s]);
  }

  lemma {:induction false} LastIsPast(trace: Trace, writes: nat -> Write, w: nat, start: int)
    requires Possible(trace, writes, start) && Own(trace, w) != []
    ensures LastAt(trace, w) <= TimeAfter(trace, start)
    decreases |trace|
  {
    hide Possible;
    var before, s := trace[..|trace| - 1], trace[|trace| - 1];
    assert trace == before + [s];
    PossibleBefore(before, s, writes, start);
    if s.writer != w {
      LastIsPast(before, writes, w, start);
    }
  }

  /** A take's nonce is no write's in flight. */
  lemma TakeFindsFree(before: Trace, s: Step, writes: nat -> Write, start: int, v: nat)
    requires Possible(before + [s], writes, start) && s.event.TakeEvent?
    requires InFlight(before, v, writes(v), s.at) && Held(before, v, writes(v)) && writes(v).did == s.event.did
    ensures !Touches(Events(before), s.event, writes(v).did, NonceOf(before, v, writes(v)).value)
  {
    hide Interleaves, TakeAfter, NonceOf, Ended, LastAt;
    OneMore(before, s);
    TimedIsClocked(before + [s], start);
    var nonce := NonceOf(before, v, writes(v)).value;
    if TakeAfter(Events(before), s.event) == Taken(nonce) {
      TakenIsFree(Events(before), s.event, nonce, start);
    }
  }

  /**
    What a step is of its own write: of its account; a take exactly when a new write begins;
    and of its nonce, the write in flight after it exactly when it takes a nonce or holds one.
  */
  lemma StepIsOwn(before: Trace, s: Step, writes: nat -> Write, start: int)
    requires Possible(before + [s], writes, start)
    ensures s.event.did == writes(s.writer).did
    ensures s.event.TakeEvent? <==> writes(s.writer).NewWrite? && Own(before, s.writer) == []
    ensures
      var trace, write := before + [s], writes(s.writer);
      && (InFlight(trace, s.writer, write, s.at) <==>
            if s.event.TakeEvent? then TakeAfter(Events(before), s.event).Taken? else s.event.HoldEvent?)
      && (InFlight(trace, s.writer, write, s.at) ==>
            Touches(Events(before), s.event, write.did, NonceOf(trace, s.writer, write).value))
      && LastAt(trace, s.writer) == s.at
    ensures !s.event.TakeEvent? && Own(before, s.writer) != [] ==>
              !Ended(before, s.writer) && NonceOf(before, s.writer, writes(s.writer)) == Some(s.event.nonce)
    ensures !s.event.TakeEvent? && Own(before, s.writer) == [] ==>
              s.event.HoldEvent? && writes(s.writer).nonce == s.event.nonce
  {
    hide TakeAfter, HeldSince, WriteEvents, SendEvents, Own, TakenBy, LastAt, Clocked;
    var w, write := s.writer, writes(s.writer);
    PossibleBefore(before, s, writes, start);
    OneMore(before, s);
    OwnMore(before, s, w);
    var own := Own(before, w);
    assert (own + [s.event])[|own|] == s.event;
    if own != [] {
      FirstOfOwn(before, writes, w);
      LaterStep(before, s, write);
    } else if write.Resubmission? {
      SendShape(write.did, write.nonce, write.posts, write.clock, true, write.apiUrl, write.maxRetries, 0);
      assert [] + [s.event] == [s.event];
    }
  }

  /** A step leaves the nonces of the other writes in flight alone, or held from now on. */
  lemma StepSparesOthers(before: Trace, s: Step, writes: nat -> Write, start: int, v: nat)
    requires Possible(before + [s], writes, start) && Exclusive(before, writes, s.at)
    requires EntersIdle(before + [s], writes) && v != s.writer && InFlight(before, v, writes(v), s.at)
    ensures Touches(Events(before), s.event, writes(v).did, NonceOf(before, v, writes(v)).value) ==> Keeps(s.event)
  {
    hide Possible, TakeAfter, InFlight, NonceOf, Ended, LastAt, Own, TakenBy;
    StepIsOwn(before, s, writes, start);
    OneMore(before, s);
    InFlightBegan(before, v, writes(v), s.at);
    if s.event.did == writes(v).did {
      if s.event.TakeEvent? {
        TakeFindsFree(before, s, writes, start, v);
      } else if InFlight(before, s.writer, writes(s.writer), s.at) {
        InFlightBegan(before, s.writer, writes(s.writer), s.at);
        assert NonceOf(before, v, writes(v)) != NonceOf(before, s.writer, writes(s.writer));
      } else if !Keeps(s.event) {
        assert !Occupied(before, writes, s.event.did, s.event.nonce, s.at);
      }
    }
  }

  lemma InFlightBegan(trace: Trace, w: nat, write: Write, now: int)
    requires InFlight(trace, w, write, now)
    ensures Own(trace, w) != [] && NonceOf(trace, w, write).Some?
  {
  }

  lemma StepKeeps(before: Trace, s: Step, writes: nat -> Write, start: int)
    requires Possible(before + [s], writes, start) && Exclusive(before, writes, s.at)
    requires EntersIdle(before + [s], writes)
    ensures Exclusive(before + [s], writes, s.at)
  {
    hide Possible, EntersIdle, Touches, GivesBack, HeldSince, NonceOf, Ended, LastAt, Own, TakenBy;
    var trace := before + [s];
    StepIsOwn(before, s, writes, start);
    PossibleBefore(before, s, writes, start);
    OneMore(before, s);
    forall w: nat | InFlight(trace, w, writes(w), s.at)
      ensures Held(trace, w, writes(w))
      ensures w != s.writer ==>
                && InFlight(before, w, writes(w), s.at)
                && NonceOf(trace, w, writes(w)) == NonceOf(before, w, writes(w))
                && (Touches(Events(before), s.event, writes(w).did, NonceOf(before, w, writes(w)).value) ==> Keeps(s.event))
    {
      HeldMore(Events(before), s.event, writes(w).did, NonceOf(trace, w, writes(w)).value);
      OwnMore(before, s, w);
      if w != s.writer {
        OthersStep(before, s, w, writes(w), s.at);
        StepSparesOthers(before, s, writes, start, w);
        InFlightBegan(before, w, writes(w), s.at);
        LastIsPast(before, writes, w, start);
      }
    }
  }

  /** With time alone, writes only drop out of flight. */
  lemma ExclusiveLater(trace: Trace, writes: nat -> Write, now: int, later: int)
    requires Exclusive(trace, writes, now) && now <= later
    ensures Exclusive(trace, writes, later)
  {
    hide NonceOf, Ended, LastAt, Held;
    assert forall w: nat | InFlight(trace, w, writes(w), later) :: InFlight(trace, w, writes(w), now);
  }

  /** A write that holds or gives back the nonce of another in flight, itself not in flight, breaks exclusion. */
  lemma IntruderShares(before: Trace, s: Step, writes: nat -> Write, start: int)
    requires Possible(before + [s], writes, start) && Exclusive(before + [s], writes, s.at)
    requires !s.event.TakeEvent? && !Keeps(s.event) && !InFlight(before, s.writer, writes(s.writer), s.at)
    ensures !Occupied(before, writes, s.event.did, s.event.nonce, s.at)
  {
    hide Possible, Keeps, TakeAfter, HeldSince, NonceOf, Ended, LastAt, Own, TakenBy;
    var trace := before + [s];
    StepIsOwn(before, s, writes, start);
    OneMore(before, s);
    forall v: nat | InFlight(before, v, writes(v), s.at) && writes(v).did == s.event.did
      ensures NonceOf(before, v, writes(v)) != Some(s.event.nonce)
    {
      OthersStep(before, s, v, writes(v), s.at);
      if NonceOf(before, v, writes(v)) == Some(s.event.nonce) {
        HeldMore(Events(before), s.event, writes(v).did, s.event.nonce);
      }
    }
  }

  /**
    However writes interleave: no two in flight ever have one account's nonce and none in
    flight ever loses its hold, if and only if a write not in flight never holds or gives
    back a nonce that a write in flight has.
  */
  lemma {:induction false} ExclusiveIffEntersIdle(trace: Trace, writes: nat -> Write, start: int)
    requires Possible(trace, writes, start)
    ensures AlwaysExclusive(trace, writes, start) <==> EntersIdle(trace, writes)
    decreases |trace|
  {
    hide Possible, Exclusive, InFlight, Occupied, Keeps;
    if trace == [] {
      NothingIsExclusive(writes, start);
    } else {
      var before, s := trace[..|trace| - 1], trace[|trace| - 1];
      assert trace == before + [s];
      PossibleBefore(before, s, writes, start);
      ExclusiveIffEntersIdle(before, writes, start);
      if EntersIdle(trace, writes) {
        ExclusiveLater(before, writes, TimeAfter(before, start), s.at);
        StepKeeps(before, s, writes, start);
      } else if AlwaysExclusive(trace, writes, start) {
        IntruderShares(before, s, writes, start);
      }
    }
  }

  lemma NothingIsExclusive(writes: nat -> Write, now: int)
    ensures Exclusive([], writes, now)
  {
  }

  /** Of timely writes, only a resubmission's first step is made out of flight, and it holds the nonce. */
  lemma {:induction false} TimelyEntersByResubmission(trace: Trace, writes: nat -> Write, start: int)
    requires Possible(trace, writes, start) && Timely(trace)
    ensures EntersIdle(trace, writes) <==> ResubmitsIdle(trace, writes)
    decreases |trace|
  {
    hide Possible, Occupied, NonceOf, Ended, LastAt, Own;
    if trace != [] {
      var before, s := trace[..|trace| - 1], trace[|trace| - 1];
      assert trace == before + [s];
      PossibleBefore(before, s, writes, start);
      TimelyEntersByResubmission(before, writes, start);
      StepIsOwn(before, s, writes, start);
      if Own(before, s.writer) == [] && InFlight(before, s.writer, writes(s.writer), s.at) {
        InFlightBegan(before, s.writer, writes(s.writer), s.at);
      }
    }
  }

  /**
    So writes that make their steps within 120 s of one another are exclusive if and only if
    a resubmission begins only while no write in flight has its nonce.
  */
  lemma TimelyWritesAreExclusive(trace: Trace, writes: nat -> Write, start: int)
    requires Possible(trace, writes, start) && Timely(trace)
    ensures AlwaysExclusive(trace, writes, start) <==> ResubmitsIdle(trace, writes)
  {
    hide Possible, AlwaysExclusive, EntersIdle, ResubmitsIdle;
    ExclusiveIffEntersIdle(trace, writes, start);
    TimelyEntersByResubmission(trace, writes, start);
  }

  // ---------- A resubmission among writes in flight ----------

  const REFUSAL: Text := [0x78]

  /** An answer of the API's handler that refuses the write for a reason of its own. */
  const REFUSED: Post := Answered(200, REFUSAL, Json(false, None, Some(REFUSAL)))

  const FRESH: State := State(0, 0)

  function SomeWrites(did: Did): nat -> Write {
    (w: nat) =>
      if w == 1 then Resubmission(did, 1, (i: nat) => REFUSED, (i: nat) => 0, true, 0)
      else NewWrite(did, Some(FRESH), 0, 0, true, (i: nat) => Failed, (i: nat) => 0, true, 0)
  }

  lemma ShortHasNo(s: Text, part: Text)
    requires |s| < |part|
    ensures !Contains(s, part)
  {
  }

  lemma RefusalFrees()
    ensures Classify(REFUSED, true) == Result(RefusedResult(REFUSAL)) && GivesBack(RefusedResult(REFUSAL))
  {
    hide Contains, SaysSpent;
    ShortHasNo(REFUSAL, JsonValue.Ascii("tx already exists in cache"));
    ShortHasNo(REFUSAL, JsonValue.Ascii("held by a pending transaction"));
    ShortHasNo(REFUSAL, JsonValue.Ascii("already used"));
    ShortHasNo(REFUSAL, JsonValue.Ascii("<= base nonce"));
    NotSpent(REFUSAL);
    GivesBackExactly(REFUSED, true);
  }

  lemma NotSpent(s: Text)
    requires |s| < 9
    ensures !SaysSpent(s)
  {
    hide AllDigits;
  }

  lemma FreshIsValid()
    ensures FRESH.Valid()
  {
    Powers.PowOfInt(2, NONCE_WINDOW);
  }

  lemma FirstIsFree(accounts: Accounts, did: Did)
    requires AccountOf(accounts, did).taken == map[] && AccountOf(accounts, did).latest in {None, Some(FRESH)}
    ensures Take(accounts, did, Some(FRESH), 0, 0).1 == Taken(1)
    ensures
      AccountOf(Take(accounts, did, Some(FRESH), 0, 0).0, did) == Account(map[1 := 0], Some(FRESH))
  {
    FreshIsValid();
    MergeIsJoin(FRESH, FRESH, FRESH);
    var account := Refreshed(AccountOf(accounts, did), Some(FRESH), 0);
    assert account.taken == map[];
    assert !IsUsed(FRESH, 1);
  }

  /** Nonce 1 is taken, held, given back and taken again. */
  lemma TakenTwice(did: Did)
    ensures
      var take, hold := TakeEvent(did, Some(FRESH), 0, 0), HoldEvent(did, 1, 0);
      var settle := SettleEvent(did, 1, RefusedResult(REFUSAL), 0);
      TakeAfter([], take) == Taken(1) && TakeAfter([take, hold, settle], take) == Taken(1)
  {
    hide Take, GivesBack;
    var take, hold := TakeEvent(did, Some(FRESH), 0, 0), HoldEvent(did, 1, 0);
    var settle := SettleEvent(did, 1, RefusedResult(REFUSAL), 0);
    RefusalFrees();
    FirstIsFree(map[], did);
    assert [take, hold, settle][..2] == [take, hold] && [take, hold][..1] == [take] && [take][..0] == [];
    assert Run([take]) == Take(map[], did, Some(FRESH), 0, 0).0;
    assert AccountOf(Run([take, hold]), did) == Account(map[1 := 0], Some(FRESH));
    assert AccountOf(Run([take, hold, settle]), did) == Account(map[], Some(FRESH));
    FirstIsFree(Run([take, hold, settle]), did);
  }

  lemma RefusedSteps(did: Did)
    ensures
      SendEvents(did, 1, (i: nat) => REFUSED, (i: nat) => 0, true, true, 0)
      == [HoldEvent(did, 1, 0), SettleEvent(did, 1, RefusedResult(REFUSAL), 0)]
  {
    hide Classify;
    RefusalFrees();
    var posts := (i: nat) => REFUSED;
    assert Attempts(posts, true, 0, 0) == (Some(RefusedResult(REFUSAL)), 1);
  }

  /**
    The condition on resubmissions may fail. A write takes nonce 1; a signed write of the
    same nonce is posted again meanwhile and refused, which gives nonce 1 back; the next
    write takes nonce 1 too, and two new writes are in flight under one nonce.
  */
  lemma ResubmissionMayShare(did: Did)
    ensures
      exists trace ::
        && Possible(trace, SomeWrites(did), 0) && Timely(trace)
        && !AlwaysExclusive(trace, SomeWrites(did), 0)
  {
    hide Take, SendEvents, TakeAfter, IsNext, Own, LastAt, TakenBy;
    var writes := SomeWrites(did);
    var take, hold := TakeEvent(did, Some(FRESH), 0, 0), HoldEvent(did, 1, 0);
    var settle := SettleEvent(did, 1, RefusedResult(REFUSAL), 0);
    var s0, s1, s2, s3 := Step(0, take, 0), Step(1, hold, 0), Step(1, settle, 0), Step(2, take, 0);
    TakenTwice(did);
    RefusedSteps(did);
    FreshIsValid();
    OwnNothing();
    var t0: Trace := [];
    var t1 := t0 + [s0];
    var t2 := t1 + [s1];
    var t3 := t2 + [s2];
    var t4 := t3 + [s3];
    Grow(t0, s0);
    Grow(t1, s1);
    Grow(t2, s2);
    Grow(t3, s3);
    assert Events(t3) == [take, hold, settle] && ValidReports(Events(t4));
    NextTake(t0, s0, writes(0));
    NextTake(t3, s3, writes(2));
    assert IsNext(t1, s1, writes(1)) && IsNext(t2, s2, writes(1)) by {
      NextOfSend(t1, s1, writes(1), [settle]);
      NextOfSend(t2, s2, writes(1), []);
    }
    Extend(t0, s0, writes);
    Extend(t1, s1, writes);
    Extend(t2, s2, writes);
    Extend(t3, s3, writes);
    assert InFlight(t4, 0, writes(0), 0) && InFlight(t4, 2, writes(2), 0);
    assert NonceOf(t4, 0, writes(0)) == NonceOf(t4, 2, writes(2)) == Some(1);
  }

  lemma OwnNothing()
    ensures forall w: nat :: Own([], w) == []
  {
  }

  lemma Grow(before: Trace, s: Step)
    ensures (before + [s])[..|before + [s]| - 1] == before && (before + [s])[|before + [s]| - 1] == s
    ensures Events(before + [s]) == Events(before) + [s.event]
    ensures forall w: nat ::
              Own(before + [s], w) == if s.writer == w then Own(before, w) + [s.event] else Own(before, w)
    ensures forall w: nat :: LastAt(before + [s], w) == if s.writer == w then s.at else LastAt(before, w)
    ensures forall w: nat ::
              TakenBy(before + [s], w)
              == if s.writer == w && s.event.TakeEvent? then Some(TakeAfter(Events(before), s.event))
                 else TakenBy(before, w)
  {
    hide Take;
    OneMore(before, s);
  }

  lemma Extend(before: Trace, s: Step, writes: nat -> Write)
    requires Interleaves(before, writes) && Timed(before, 0) && Timely(before) && IsNext(before, s, writes(s.writer))
    requires s.at == 0 == TimeAfter(before, 0) && (ReadsClock(s.event) ==> FirstReading(s.event) == s.event.at == 0)
    requires Own(before, s.writer) != [] ==> LastAt(before, s.writer) == 0
    ensures Interleaves(before + [s], writes) && Timed(before + [s], 0) && Timely(before + [s])
    ensures TimeAfter(before + [s], 0) == 0
  {
    hide Own, LastAt, IsNext;
    OneMore(before, s);
  }

  lemma NextTake(before: Trace, s: Step, write: Write)
    requires Own(before, s.writer) == [] && write.NewWrite?
    requires s.event == TakeEvent(write.did, write.read, write.now, write.at)
    ensures IsNext(before, s, write)
  {
  }

  lemma NextOfSend(before: Trace, s: Step, write: Write, rest: seq<Event>)
    requires write.Resubmission?
    requires Own(before, s.writer) + [s.event] + rest
          == SendEvents(write.did, write.nonce, write.posts, write.clock, true, write.apiUrl, write.maxRetries)
    ensures IsNext(before, s, write)
  {
    hide SendEvents;
  }
}
