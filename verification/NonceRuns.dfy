/** Nonce safety over every run of the allocator's steps, in any interleaving of writes. */
module NonceRuns {
  import opened Bytes
  import opened NonceState
  import opened Nonces

  /** One step, with the clock's readings in it. */
  datatype Event =
    | TakeEvent(did: Did, chain: Option<State>, now: int, at: int)
    | ReleaseEvent(did: Did, nonce: int)
    | HoldEvent(did: Did, nonce: int, at: int)
    | SettleEvent(did: Did, nonce: int, result: BroadcastResult, at: int)

  function Apply(accounts: Accounts, e: Event): Accounts {
    match e
    case TakeEvent(did, chain, now, at) => Take(accounts, did, chain, now, at).0
    case ReleaseEvent(did, nonce) => Release(accounts, did, nonce)
    case HoldEvent(did, nonce, at) => Hold(accounts, did, nonce, at)
    case SettleEvent(did, nonce, result, at) => Settle(accounts, did, nonce, result, at)
  }

  function Run(events: seq<Event>): Accounts {
    if events == [] then map[] else Apply(Run(events[..|events| - 1]), events[|events| - 1])
  }

  /** What a take after these events returns. */
  function TakeAfter(events: seq<Event>, e: Event): TakeResult
    requires e.TakeEvent?
  {
    Take(Run(events), e.did, e.chain, e.now, e.at).1
  }

  // ---------- The run's history, told by its events alone ----------

  /** The clock's first and last readings in an event, none in a release. */
  predicate ReadsClock(e: Event) {
    !e.ReleaseEvent?
  }

  function FirstReading(e: Event): int
    requires ReadsClock(e)
  {
    if e.TakeEvent? then e.now else e.at
  }

  /** The clock's last reading. */
  function ClockAfter(events: seq<Event>, start: int): int {
    if events == [] then start
    else
      var e := events[|events| - 1];
      if ReadsClock(e) then e.at else ClockAfter(events[..|events| - 1], start)
  }

  /** The clock never goes back. */
  predicate Clocked(events: seq<Event>, start: int) {
    if events == [] then true
    else
      var before, e := events[..|events| - 1], events[|events| - 1];
      && Clocked(before, start)
      && (ReadsClock(e) ==> ClockAfter(before, start) <= FirstReading(e) <= e.at)
  }

  /** The reports of the account's state, in the order they came. */
  function Reports(events: seq<Event>, did: Did): seq<State> {
    if events == [] then []
    else
      var before, e := Reports(events[..|events| - 1], did), events[|events| - 1];
      if e.TakeEvent? && e.did == did && e.chain.Some? then before + [e.chain.value] else before
  }

  /** When the nonce was last handed out or held, if it has not been given back since. */
  function HeldSince(events: seq<Event>, did: Did, nonce: int): Option<int> {
    if events == [] then None
    else
      var before, e := events[..|events| - 1], events[|events| - 1];
      if e.did != did then HeldSince(before, did, nonce)
      else
        match e
        case TakeEvent(_, _, _, at) =>
          if TakeAfter(before, e) == Taken(nonce) then Some(at) else HeldSince(before, did, nonce)
        case ReleaseEvent(_, n) => if n == nonce then None else HeldSince(before, did, nonce)
        case HoldEvent(_, n, at) => if n == nonce then Some(at) else HeldSince(before, did, nonce)
        case SettleEvent(_, n, result, at) =>
          if n != nonce then HeldSince(before, did, nonce) else if GivesBack(result) then None else Some(at)
  }

  ghost predicate ValidReports(events: seq<Event>) {
    forall e <- events :: e.TakeEvent? && e.chain.Some? ==> e.chain.value.Valid()
  }

  // ---------- The allocator's state against the history ----------

  /** The hold still counts against a take at `now`. */
  predicate Blocking(held: Option<int>, now: int) {
    held.Some? && now - held.value < NONCE_HOLD_MS
  }

  function LatestOf(reports: seq<State>): Option<State> {
    if reports == [] then None else Some(MergeAll(reports))
  }

  /** A nonce is dropped only once seen used, or once its hold has run out. */
  ghost predicate TracksNonce(account: Account, reports: seq<State>, held: Option<int>, nonce: int, clock: int) {
    && (nonce in account.taken ==> held == Some(account.taken[nonce]))
    && (held.Some? && nonce !in account.taken ==> ReportedUsed(reports, nonce) || clock - held.value >= NONCE_HOLD_MS)
  }

  ghost predicate Tracks(account: Account, events: seq<Event>, did: Did, start: int) {
    && account.latest == LatestOf(Reports(events, did))
    && forall nonce ::
         TracksNonce(account, Reports(events, did), HeldSince(events, did, nonce), nonce, ClockAfter(events, start))
  }

  lemma LastOf(before: seq<Event>, e: Event)
    ensures (before + [e])[..|before + [e]| - 1] == before && (before + [e])[|before + [e]| - 1] == e
  {
  }

  lemma {:induction false} ReportsValid(events: seq<Event>, did: Did)
    requires ValidReports(events)
    ensures AllValid(Reports(events, did))
  {
    if events != [] {
      var n := |events| - 1;
      assert events[n] in events;
      ReportsValid(events[..n], did);
    }
  }

  lemma LatestGrows(reports: seq<State>, chain: Option<State>)
    ensures Latest(LatestOf(reports), chain) == LatestOf(if chain.Some? then reports + [chain.value] else reports)
  {
    if chain.Some? {
      var all := reports + [chain.value];
      assert all[..|all| - 1] == reports && all[|all| - 1] == chain.value;
    }
  }

  /** The account, refreshed, tracks the history with the new report. */
  lemma RefreshTracks(
    account: Account, reports: seq<State>, chain: Option<State>, held: Option<int>, nonce: int, clock: int, now: int)
    requires account.latest == LatestOf(reports) && TracksNonce(account, reports, held, nonce, clock) && clock <= now
    requires AllValid(reports) && (chain.Some? ==> chain.value.Valid())
    ensures
      var all := if chain.Some? then reports + [chain.value] else reports;
      var refreshed := Refreshed(account, chain, now);
      && refreshed.latest == LatestOf(all)
      && TracksNonce(refreshed, all, held, nonce, now)
      && (all != [] ==> (nonce in refreshed.taken <==> Blocking(held, now) && !ReportedUsed(all, nonce)))
  {
    hide MergeAll, IsUsed, MergeStates, State.Valid;
    var all := if chain.Some? then reports + [chain.value] else reports;
    LatestGrows(reports, chain);
    if chain.Some? {
      MoreReported(reports, chain.value, nonce);
    }
    if all != [] {
      MergeAllIsUnion(all);
    }
  }

  lemma {:induction false} LowestFreeIsLowest(latest: State, taken: map<int, int>, n: int, end: int)
    ensures
      match LowestFree(latest, taken, n, end)
      case Some(m) =>
        && n <= m <= end && !IsUsed(latest, m) && m !in taken
        && forall k | n <= k < m :: IsUsed(latest, k) || k in taken
      case None => forall k | n <= k <= end :: IsUsed(latest, k) || k in taken
    decreases end - n
  {
    hide IsUsed;
    if n <= end {
      LowestFreeIsLowest(latest, taken, n + 1, end);
    }
  }

  /** The allocator's state is what the history says, after every run. */
  lemma {:induction false} RunTracks(events: seq<Event>, did: Did, start: int)
    requires Clocked(events, start) && ValidReports(events)
    ensures Tracks(AccountOf(Run(events), did), events, did, start)
    ensures did !in Run(events) ==> Reports(events, did) == []
  {
    hide Refreshed, LowestFree, GivesBack, State.Valid, MergeAll, ReportedUsed;
    if events != [] {
      var n := |events| - 1;
      var before, e := events[..n], events[n];
      assert e in events;
      RunTracks(before, did, start);
      ReportsValid(before, did);
      if e.did == did {
        if e.TakeEvent? {
          TakeTracks(before, e, start);
        } else {
          OtherTracks(before, e, start);
        }
      } else {
        StrangerTracks(before, e, did, start);
      }
      assert events == before + [e];
    }
  }

  lemma TakeTracks(before: seq<Event>, e: Event, start: int)
    requires e.TakeEvent? && Tracks(AccountOf(Run(before), e.did), before, e.did, start)
    requires AllValid(Reports(before, e.did)) && (e.chain.Some? ==> e.chain.value.Valid())
    requires ClockAfter(before, start) <= e.now <= e.at
    ensures Tracks(AccountOf(Apply(Run(before), e), e.did), before + [e], e.did, start)
  {
    hide State.Valid, MergeAll, ReportedUsed, Refreshed, LowestFree;
    var events := before + [e];
    LastOf(before, e);
    var account := AccountOf(Run(before), e.did);
    var reports := Reports(before, e.did);
    var refreshed := Refreshed(account, e.chain, e.now);
    var after := AccountOf(Apply(Run(before), e), e.did);
    RefreshTracks(account, reports, e.chain, HeldSince(before, e.did, 0), 0, ClockAfter(before, start), e.now);
    forall nonce
      ensures TracksNonce(after, Reports(events, e.did), HeldSince(events, e.did, nonce), nonce, ClockAfter(events, start))
    {
      RefreshTracks(account, reports, e.chain, HeldSince(before, e.did, nonce), nonce, ClockAfter(before, start), e.now);
      assert TracksNonce(refreshed, Reports(events, e.did), HeldSince(before, e.did, nonce), nonce, e.now);
    }
  }

  /** Another account's step changes nothing but the time. */
  lemma StrangerTracks(before: seq<Event>, e: Event, did: Did, start: int)
    requires e.did != did && Tracks(AccountOf(Run(before), did), before, did, start)
    requires ReadsClock(e) ==> ClockAfter(before, start) <= FirstReading(e) <= e.at
    ensures Tracks(AccountOf(Apply(Run(before), e), did), before + [e], did, start)
  {
    hide MergeAll, ReportedUsed, GivesBack, Refreshed, LowestFree;
    LastOf(before, e);
    var events := before + [e];
    var account := AccountOf(Run(before), did);
    assert AccountOf(Apply(Run(before), e), did) == account;
    forall nonce
      ensures TracksNonce(account, Reports(events, did), HeldSince(events, did, nonce), nonce, ClockAfter(events, start))
    {
      assert TracksNonce(account, Reports(before, did), HeldSince(before, did, nonce), nonce, ClockAfter(before, start));
    }
  }

  lemma OtherTracks(before: seq<Event>, e: Event, start: int)
    requires !e.TakeEvent? && Tracks(AccountOf(Run(before), e.did), before, e.did, start)
    requires ReadsClock(e) ==> ClockAfter(before, start) <= FirstReading(e) <= e.at
    ensures Tracks(AccountOf(Apply(Run(before), e), e.did), before + [e], e.did, start)
  {
    hide MergeAll, ReportedUsed, GivesBack;
    LastOf(before, e);
    var events := before + [e];
    var account, after := AccountOf(Run(before), e.did), AccountOf(Apply(Run(before), e), e.did);
    forall nonce
      ensures TracksNonce(after, Reports(events, e.did), HeldSince(events, e.did, nonce), nonce, ClockAfter(events, start))
    {
      assert TracksNonce(account, Reports(before, e.did), HeldSince(before, e.did, nonce), nonce, ClockAfter(before, start));
    }
  }

  // ---------- What a take returns ----------

  /** Not free for a take at `now`: reported used, or held for less than 120 s and not given back. */
  ghost predicate Blocked(events: seq<Event>, reports: seq<State>, did: Did, nonce: int, now: int) {
    ReportedUsed(reports, nonce) || Blocking(HeldSince(events, did, nonce), now)
  }

  /** The nonce taken is the first above the base that is not blocked; none of the 24 is free otherwise. */
  ghost predicate LowestOrNone(
    events: seq<Event>, reports: seq<State>, did: Did, now: int, base: nat, result: TakeResult)
  {
    match result
    case Taken(nonce) =>
      && base < nonce <= base + NONCE_WINDOW && !Blocked(events, reports, did, nonce, now)
      && forall n | base < n < nonce :: Blocked(events, reports, did, n, now)
    case WindowFull => forall n | base < n <= base + NONCE_WINDOW :: Blocked(events, reports, did, n, now)
    case StateUnknown => false
  }

  /**
    After any run, a take returns the lowest nonce of the 24 above the highest base reported
    that is not blocked; it says the window is full only when all 24 are blocked, and that
    the state is unknown only when nothing has been reported.
  */
  lemma TakeIsLowestFree(events: seq<Event>, e: Event, start: int)
    requires e.TakeEvent? && Clocked(events + [e], start) && ValidReports(events + [e])
    ensures
      var reports := Reports(events + [e], e.did);
      var result := TakeAfter(events, e);
      && (result.StateUnknown? <==> reports == [])
      && forall base: nat | HighestBase(reports, base) :: LowestOrNone(events, reports, e.did, e.now, base, result)
  {
    hide State.Valid, MergeAll, ReportedUsed, Refreshed, LowestFree, IsUsed, Blocking, HeldSince;
    var all := events + [e];
    LastOf(events, e);
    assert forall x <- events :: x in all;
    RunTracks(events, e.did, start);
    ReportsValid(events, e.did);
    ReportsValid(all, e.did);
    var account := AccountOf(Run(events), e.did);
    var refreshed := Refreshed(account, e.chain, e.now);
    var reports := Reports(all, e.did);
    assert e in all;
    RefreshTracks(
      account, Reports(events, e.did), e.chain, HeldSince(events, e.did, 0), 0, ClockAfter(events, start), e.now);
    assert refreshed.latest == LatestOf(reports);
    forall n
      ensures reports != [] ==>
                (n in refreshed.taken <==> Blocking(HeldSince(events, e.did, n), e.now) && !ReportedUsed(reports, n))
    {
      RefreshTracks(
        account, Reports(events, e.did), e.chain, HeldSince(events, e.did, n), n, ClockAfter(events, start), e.now);
    }
    if reports != [] {
      MergeAllIsUnion(reports);
      var latest := MergeAll(reports);
      LowestFreeIsLowest(latest, refreshed.taken, latest.base + 1, latest.base + NONCE_WINDOW);
      forall n
        ensures Blocked(events, reports, e.did, n, e.now) <==> IsUsed(latest, n) || n in refreshed.taken
      {
      }
      assert forall base: nat | HighestBase(reports, base) :: base == latest.base;
      assert LowestOrNone(events, reports, e.did, e.now, latest.base, TakeAfter(events, e));
    }
  }

  // ---------- Distinctness ----------

  /** The event gives the nonce back. */
  predicate Frees(e: Event, did: Did, nonce: int) {
    && e.did == did
    && ((e.ReleaseEvent? && e.nonce == nonce) || (e.SettleEvent? && e.nonce == nonce && GivesBack(e.result)))
  }

  /** A nonce handed out and not given back since was last held no earlier than that. */
  lemma {:induction false} HeldOnward(before: seq<Event>, e: Event, after: seq<Event>, nonce: int, start: int)
    requires e.TakeEvent? && TakeAfter(before, e) == Taken(nonce) && Clocked(before + [e] + after, start)
    requires forall x <- after :: !Frees(x, e.did, nonce)
    ensures HeldSince(before + [e] + after, e.did, nonce).Some?
    ensures e.at <= HeldSince(before + [e] + after, e.did, nonce).value
    ensures e.at <= ClockAfter(before + [e] + after, start)
    decreases |after|
  {
    hide Take, GivesBack;
    var all := before + [e] + after;
    var n := |all| - 1;
    if after == [] {
      assert all[..n] == before && all[n] == e;
    } else {
      assert all[..n] == before + [e] + after[..|after| - 1] && all[n] == after[|after| - 1];
      assert after[|after| - 1] in after;
      HeldOnward(before, e, after[..|after| - 1], nonce, start);
    }
  }

  /**
    No two writes share a nonce: when a run hands the same nonce out twice, it was given back
    in between, or 120 s had passed since it was last held (and so since it was handed out).
  */
  lemma NoncesAreDistinct(before: seq<Event>, first: Event, between: seq<Event>, second: Event, nonce: int, start: int)
    requires first.TakeEvent? && second.TakeEvent? && first.did == second.did
    requires TakeAfter(before, first) == Taken(nonce)
    requires TakeAfter(before + [first] + between, second) == Taken(nonce)
    requires Clocked(before + [first] + between + [second], start) && ValidReports(before + [first] + between + [second])
    ensures (exists x <- between :: Frees(x, first.did, nonce)) ||
            var held := HeldSince(before + [first] + between, first.did, nonce);
            held.Some? && held.value >= first.at && second.now - held.value >= NONCE_HOLD_MS
  {
    hide Clocked, Frees, HeldSince, HighestBase, ReportedUsed, MergeAll;
    var events := before + [first] + between;
    ClockedPrefix(events, second, start);
    if forall x <- between :: !Frees(x, first.did, nonce) {
      HeldOnward(before, first, between, nonce, start);
      TakeIsLowestFree(events, second, start);
      ReportsValid(events + [second], first.did);
      MergeAllIsUnion(Reports(events + [second], first.did));
    }
  }

  lemma ClockedPrefix(events: seq<Event>, e: Event, start: int)
    requires Clocked(events + [e], start)
    ensures Clocked(events, start)
  {
    LastOf(events, e);
  }

  // ---------- The base ----------

  function BaseOf(accounts: Accounts, did: Did): Option<nat> {
    var latest := AccountOf(accounts, did).latest;
    if latest.None? then None else Some(latest.value.base)
  }

  lemma BaseStays(accounts: Accounts, e: Event, did: Did)
    requires BaseOf(accounts, did).Some?
    ensures BaseOf(Apply(accounts, e), did).Some?
    ensures BaseOf(accounts, did).value <= BaseOf(Apply(accounts, e), did).value
  {
    hide GivesBack, LowestFree, StaysTaken, UsedAbove, Or;
  }

  /** A base once seen is never lost or lowered. */
  lemma {:induction false} BaseNeverDrops(before: seq<Event>, after: seq<Event>, did: Did)
    requires BaseOf(Run(before), did).Some?
    ensures BaseOf(Run(before + after), did).Some?
    ensures BaseOf(Run(before), did).value <= BaseOf(Run(before + after), did).value
    decreases |after|
  {
    hide Apply, BaseOf;
    if after == [] {
      assert before + after == before;
    } else {
      var n := |before + after| - 1;
      assert (before + after)[..n] == before + after[..|after| - 1];
      BaseNeverDrops(before, after[..|after| - 1], did);
      BaseStays(Run((before + after)[..n]), (before + after)[n], did);
    }
  }
}
