/** The nonce allocator: its steps as functions, and the class that runs them. */
module Nonces {
  import opened Bytes
  import opened Text
  import opened NonceState
  import JsonValue

  type Did = Text

  /** How long a nonce handed out and not seen to land stays taken, in ms. */
  const NONCE_HOLD_MS: int := 120_000

  /** The answer to a submission; None for a field that is absent. */
  datatype BroadcastResult = BroadcastResult(
    success: bool, pending: bool, txHash: Option<Text>, errorCode: Option<int>,
    errorMessage: Option<Text>, rawLog: Option<Text>)

  /** The nonces handed out and when each was last held, and the newest state reported. */
  datatype Account = Account(taken: map<int, int>, latest: Option<State>)

  datatype TakeResult = Taken(nonce: int) | WindowFull | StateUnknown

  type Accounts = map<Did, Account>

  const NEW_ACCOUNT := Account(map[], None)

  // ---------- What a refusal's log says of the nonce ----------

  predicate Contains(s: Text, part: Text) {
    exists i | 0 <= i <= |s| :: part <= s[i..]
  }

  const NONCE_WORD: Text := JsonValue.Ascii("(nonce ")
  const SPENT_WORD: Text := JsonValue.Ascii(" spent)")

  /** `(nonce N spent)` from `i`, N one or more digits that end at `j`. */
  predicate SpentAt(s: Text, i: int, j: int) {
    0 <= i && i + 7 < j <= |s| && NONCE_WORD <= s[i..] && AllDigits(s[i + 7..j]) && SPENT_WORD <= s[j..]
  }

  predicate SaysSpent(s: Text) {
    exists i, j | 0 <= i && i + 7 < j <= |s| :: SpentAt(s, i, j)
  }

  predicate RefusalKeepsNonce(log: Text) {
    || Contains(log, JsonValue.Ascii("held by a pending transaction"))
    || Contains(log, JsonValue.Ascii("already used"))
    || Contains(log, JsonValue.Ascii("<= base nonce")) || SaysSpent(log)
  }

  const NEWLINE: unit := 0x0A

  function LogOf(result: BroadcastResult): Text {
    (if result.rawLog.Some? then result.rawLog.value else []) + [NEWLINE]
    + (if result.errorMessage.Some? then result.errorMessage.value else [])
  }

  /** The outcome frees the nonce: a refusal, not pending, whose log does not keep it. */
  predicate GivesBack(result: BroadcastResult) {
    !result.success && !result.pending && !RefusalKeepsNonce(LogOf(result))
  }

  // ---------- The steps ----------

  function AccountOf(accounts: Accounts, did: Did): Account {
    if did in accounts then accounts[did] else NEW_ACCOUNT
  }

  function Latest(latest: Option<State>, chain: Option<State>): Option<State> {
    if chain.None? then latest
    else if latest.None? then chain
    else Some(MergeStates(latest.value, chain.value))
  }

  /** A nonce stays taken: not seen used, its hold not run out. */
  predicate StaysTaken(latest: State, nonce: int, at: int, now: int) {
    !IsUsed(latest, nonce) && now - at < NONCE_HOLD_MS
  }

  function Refreshed(account: Account, chain: Option<State>, now: int): Account {
    var latest := Latest(account.latest, chain);
    if latest.None? then account
    else
      Account(map n | n in account.taken && StaysTaken(latest.value, n, account.taken[n], now) :: account.taken[n], latest)
  }

  /** The lowest free nonce from `n` up to and with `end`. */
  function LowestFree(latest: State, taken: map<int, int>, n: int, end: int): Option<int>
    decreases end - n
  {
    if n > end then None
    else if !IsUsed(latest, n) && n !in taken then Some(n)
    else LowestFree(latest, taken, n + 1, end)
  }

  function Take(accounts: Accounts, did: Did, chain: Option<State>, now: int, at: int): (Accounts, TakeResult) {
    var account := Refreshed(AccountOf(accounts, did), chain, now);
    if account.latest.None? then (accounts[did := account], StateUnknown)
    else
      var base := account.latest.value.base;
      match LowestFree(account.latest.value, account.taken, base + 1, base + NONCE_WINDOW)
      case Some(n) => (accounts[did := account.(taken := account.taken[n := at])], Taken(n))
      case None => (accounts[did := account], WindowFull)
  }

  function Release(accounts: Accounts, did: Did, nonce: int): Accounts {
    if did in accounts then accounts[did := accounts[did].(taken := accounts[did].taken - {nonce})] else accounts
  }

  function Hold(accounts: Accounts, did: Did, nonce: int, at: int): Accounts {
    var account := AccountOf(accounts, did);
    accounts[did := account.(taken := account.taken[nonce := at])]
  }

  function Settle(accounts: Accounts, did: Did, nonce: int, result: BroadcastResult, at: int): Accounts {
    if GivesBack(result) then Release(accounts, did, nonce) else Hold(accounts, did, nonce, at)
  }

  lemma SomeNonce(nonces: set<int>)
    ensures nonces == {} || exists n :: n in nonces
  {
    if forall n :: n !in nonces {
      assert nonces == {};
    }
  }

  // ---------- The allocator ----------

  /** `now` and `at` are the clock's readings. */
  class NonceAllocator {
    var accounts: Accounts

    constructor ()
      ensures accounts == map[]
    {
      accounts := map[];
    }

    method Open(did: Did)
      modifies this
      ensures accounts == old(accounts)[did := AccountOf(old(accounts), did)]
    {
      if did !in accounts {
        accounts := accounts[did := NEW_ACCOUNT];
      }
    }

    /** Merge the report in, then drop the nonces seen used and the holds that ran out. */
    method RefreshAccount(did: Did, chain: Option<State>, now: int) returns (known: bool)
      modifies this
      ensures accounts == old(accounts)[did := Refreshed(AccountOf(old(accounts), did), chain, now)]
      ensures known == accounts[did].latest.Some?
    {
      hide IsUsed, MergeStates;
      Open(did);
      var seen := accounts[did].latest;
      if chain.Some? {
        var latest := if seen.Some? then MergeStates(seen.value, chain.value) else chain.value;
        accounts := accounts[did := accounts[did].(latest := Some(latest))];
      }
      if accounts[did].latest.None? {
        return false;
      }
      var latest := accounts[did].latest.value;
      var taken := accounts[did].taken;
      var kept := taken;
      var rest := taken.Keys;
      ghost var merged := accounts;
      while rest != {}
        invariant accounts == merged && rest <= taken.Keys
        invariant kept == map n | n in taken && (n in rest || StaysTaken(latest, n, taken[n], now)) :: taken[n]
      {
        SomeNonce(rest);
        var n :| n in rest;
        rest := rest - {n};
        if IsUsed(latest, n) || now - taken[n] >= NONCE_HOLD_MS {
          kept := kept - {n};
        }
      }
      assert kept == Refreshed(AccountOf(old(accounts), did), chain, now).taken;
      accounts := accounts[did := accounts[did].(taken := kept)];
      assert accounts == old(accounts)[did := accounts[did]];
      return true;
    }

    method TakeNonce(did: Did, chain: Option<State>, now: int, at: int) returns (r: TakeResult)
      modifies this
      ensures (accounts, r) == Take(old(accounts), did, chain, now, at)
    {
      var known := RefreshAccount(did, chain, now);
      if !known {
        return StateUnknown;
      }
      var account := accounts[did];
      var latest := account.latest.value;
      var n := latest.base + 1;
      while n <= latest.base + NONCE_WINDOW
        invariant LowestFree(latest, account.taken, latest.base + 1, latest.base + NONCE_WINDOW)
               == LowestFree(latest, account.taken, n, latest.base + NONCE_WINDOW)
      {
        if !IsUsed(latest, n) && n !in account.taken {
          accounts := accounts[did := account.(taken := account.taken[n := at])];
          assert accounts == old(accounts)[did := accounts[did]];
          return Taken(n);
        }
        n := n + 1;
      }
      return WindowFull;
    }

    method ReleaseNonce(did: Did, nonce: int)
      modifies this
      ensures accounts == Release(old(accounts), did, nonce)
    {
      if did in accounts {
        accounts := accounts[did := accounts[did].(taken := accounts[did].taken - {nonce})];
      }
    }

    method HoldNonce(did: Did, nonce: int, at: int)
      modifies this
      ensures accounts == Hold(old(accounts), did, nonce, at)
    {
      Open(did);
      accounts := accounts[did := accounts[did].(taken := accounts[did].taken[nonce := at])];
    }

    method SettleNonce(did: Did, nonce: int, result: BroadcastResult, at: int)
      modifies this
      ensures accounts == Settle(old(accounts), did, nonce, result, at)
    {
      if result.success || result.pending {
        HoldNonce(did, nonce, at);
        return;
      }
      if RefusalKeepsNonce(LogOf(result)) {
        HoldNonce(did, nonce, at);
      } else {
        ReleaseNonce(did, nonce);
      }
    }
  }
}
