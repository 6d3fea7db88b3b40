/**
 Token accounting: `scripts/forensic/pro29_token_accounting.py`.

 Every transaction's Transfer events must explain the change of every observed balance and of the supply;
 over a run of contiguous one-transaction blocks the events then explain the whole run.
 */
module TokenLedger {
  import opened Basics
  import opened Ids

  const ZERO := Id("0x0000000000000000000000000000000000000000")

  datatype Transfer = Transfer(tx: Id, block: int, from: Id, to: Id, amount: int)

  datatype LedgerError =
    | AccountsDiffer | NegativeAmount | UnknownSource | UnknownRecipient | NegativeBalance | DeltasDiffer
    | SupplyDiffers | NoTransactions | SharedBlock | UnobservedBlock | CrowdedBlock | ForeignTransaction
    | CoverageDiffers | NotOneMint | CodeTooEarly | CodeMissing | CallFailed

  // ----- what events do

  /** What one event adds to an account; the zero address has no balance. */
  function Flow(e: Transfer, account: Id): int {
    if account == ZERO then 0
    else (if e.to == account then e.amount else 0) - (if e.from == account then e.amount else 0)
  }

  /** What one event adds to the supply: a mint comes from the zero address, a burn goes to it. */
  function Minted(e: Transfer): int {
    (if e.from == ZERO then e.amount else 0) - (if e.to == ZERO then e.amount else 0)
  }

  function Net(events: seq<Transfer>, account: Id): int {
    if events == [] then 0 else Net(events[..|events| - 1], account) + Flow(events[|events| - 1], account)
  }

  function Supply(events: seq<Transfer>): int {
    if events == [] then 0 else Supply(events[..|events| - 1]) + Minted(events[|events| - 1])
  }

  predicate Known(account: Id, accounts: set<Id>) {
    account == ZERO || account in accounts
  }

  // ----- one transaction

  /** What is wrong with an event, in the order in which it is looked at. */
  function Problem(e: Transfer, accounts: set<Id>): Option<LedgerError> {
    if e.amount < 0 then Some(NegativeAmount)
    else if !Known(e.from, accounts) then Some(UnknownSource)
    else if !Known(e.to, accounts) then Some(UnknownRecipient)
    else None
  }

  function FirstProblem(events: seq<Transfer>, accounts: set<Id>): (p: Option<LedgerError>)
    ensures p.None? <==> forall e :: e in events ==> Problem(e, accounts).None?
  {
    if events == [] then None
    else
      var p := FirstProblem(events[..|events| - 1], accounts);
      if p.Some? then p else Problem(events[|events| - 1], accounts)
  }

  datatype Snapshot = Snapshot(balances: map<Id, int>, supply: int)

  /** The balances moved by exactly what the events say, and so did the supply. */
  predicate Explained(events: seq<Transfer>, before: Snapshot, after: Snapshot) {
    && before.balances.Keys == after.balances.Keys
    && (forall a :: a in before.balances ==> after.balances[a] == before.balances[a] + Net(events, a))
    && after.supply == before.supply + Supply(events)
  }

  predicate NonNegative(balances: map<Id, int>) {
    forall a :: a in balances ==> balances[a] >= 0
  }

  function Changes(before: map<Id, int>, after: map<Id, int>): map<Id, int>
    requires before.Keys == after.Keys
  {
    map a | a in before :: after[a] - before[a]
  }

  /** The result of `_validate_transaction_deltas`. */
  function Verdict(events: seq<Transfer>, before: Snapshot, after: Snapshot): (r: Result<map<Id, int>, LedgerError>)
    ensures r.Ok? <==>
              && before.balances.Keys == after.balances.Keys && FirstProblem(events, before.balances.Keys).None?
              && NonNegative(before.balances) && NonNegative(after.balances) && Explained(events, before, after)
  {
    if before.balances.Keys != after.balances.Keys then Err(AccountsDiffer)
    else
      var problem := FirstProblem(events, before.balances.Keys);
      if problem.Some? then Err(problem.value)
      else if !NonNegative(before.balances) || !NonNegative(after.balances) then Err(NegativeBalance)
      else if exists a :: a in before.balances && after.balances[a] != before.balances[a] + Net(events, a) then
        Err(DeltasDiffer)
      else if after.supply != before.supply + Supply(events) then Err(SupplyDiffers)
      else Ok(Changes(before.balances, after.balances))
  }

  /** One event, taken from its source and given to its recipient. */
  method Post(e: Transfer, expected: map<Id, int>, supply: int) returns (r: Result<(map<Id, int>, int), LedgerError>)
    ensures var problem := Problem(e, expected.Keys);
            if problem.Some? then r == Err(problem.value)
            else r == Ok((map a | a in expected :: expected[a] + Flow(e, a), supply + Minted(e)))
  {
    var moved, supplyDelta := expected, supply;
    if e.amount < 0 {
      return Err(NegativeAmount);
    }
    if e.from != ZERO {
      if e.from !in moved {
        return Err(UnknownSource);
      }
      moved := moved[e.from := moved[e.from] - e.amount];
    } else {
      supplyDelta := supplyDelta + e.amount;
    }
    if e.to != ZERO {
      if e.to !in moved {
        return Err(UnknownRecipient);
      }
      moved := moved[e.to := moved[e.to] + e.amount];
    } else {
      supplyDelta := supplyDelta - e.amount;
    }
    assert moved == map a | a in expected :: expected[a] + Flow(e, a);
    return Ok((moved, supplyDelta));
  }

  /** `_validate_transaction_deltas`. */
  method ValidateTransactionDeltas(events: seq<Transfer>, before: Snapshot, after: Snapshot)
    returns (r: Result<map<Id, int>, LedgerError>)
    ensures r == Verdict(events, before, after)
  {
    hide Flow, Minted, Problem;
    var accounts := before.balances.Keys;
    if after.balances.Keys != accounts {
      return Err(AccountsDiffer);
    }
    var expected: map<Id, int> := map a | a in accounts :: 0;
    var supplyDelta := 0;
    var i := 0;
    while i < |events|
      invariant 0 <= i <= |events|
      invariant FirstProblem(events[..i], accounts).None?
      invariant expected.Keys == accounts
      invariant forall a :: a in accounts ==> expected[a] == Net(events[..i], a)
      invariant supplyDelta == Supply(events[..i])
    {
      ghost var done := events[..i + 1];
      assert done[..|done| - 1] == events[..i] && done[|done| - 1] == events[i];
      var posted := Post(events[i], expected, supplyDelta);
      if posted.Err? {
        ProblemIsFirst(events, accounts, i);
        return Err(posted.error);
      }
      expected, supplyDelta := posted.value.0, posted.value.1;
      i := i + 1;
    }
    assert events[..i] == events;
    r := Compare(expected, supplyDelta, events, before, after);
  }

  /** The observed changes, if they are the expected ones. */
  method Compare(expected: map<Id, int>, supplyDelta: int, events: seq<Transfer>, before: Snapshot, after: Snapshot)
    returns (r: Result<map<Id, int>, LedgerError>)
    requires before.balances.Keys == after.balances.Keys == expected.Keys
    requires FirstProblem(events, before.balances.Keys).None?
    requires (forall a :: a in expected ==> expected[a] == Net(events, a)) && supplyDelta == Supply(events)
    ensures r == Verdict(events, before, after)
  {
    hide Net, Supply, FirstProblem;
    if !NonNegative(before.balances) || !NonNegative(after.balances) {
      return Err(NegativeBalance);
    }
    var actual := Changes(before.balances, after.balances);
    if actual != expected {
      assert exists a :: a in before.balances && actual[a] != expected[a];
      return Err(DeltasDiffer);
    }
    if after.supply - before.supply != supplyDelta {
      return Err(SupplyDiffers);
    }
    return Ok(actual);
  }

  lemma {:induction false} ProblemIsFirst(events: seq<Transfer>, accounts: set<Id>, i: nat)
    requires i < |events| && FirstProblem(events[..i], accounts).None? && Problem(events[i], accounts).Some?
    ensures FirstProblem(events, accounts) == Problem(events[i], accounts)
    decreases |events|
  {
    if i < |events| - 1 {
      var most := events[..|events| - 1];
      assert most[..i] == events[..i];
      ProblemIsFirst(most, accounts, i);
    }
  }

  // ----- conservation

  /** The sum of the balances of some accounts. */
  function Total(accounts: seq<Id>, balances: map<Id, int>): int
    requires forall a :: a in accounts ==> a in balances
  {
    if accounts == [] then 0 else balances[accounts[0]] + Total(accounts[1..], balances)
  }

  function Held(s: Snapshot): int {
    Total(Sorted(s.balances.Keys), s.balances)
  }

  function NetTotal(accounts: seq<Id>, events: seq<Transfer>): int {
    if accounts == [] then 0 else Net(events, accounts[0]) + NetTotal(accounts[1..], events)
  }

  function FlowTotal(accounts: seq<Id>, e: Transfer): int {
    if accounts == [] then 0 else Flow(e, accounts[0]) + FlowTotal(accounts[1..], e)
  }

  /** Over all accounts, an event moves what it mints or burns, and a transfer between accounts nothing. */
  lemma {:induction false} FlowTotalIs(accounts: seq<Id>, e: Transfer)
    requires Ascending(accounts)
    ensures FlowTotal(accounts, e)
         == (if e.to != ZERO && e.to in accounts then e.amount else 0)
            - (if e.from != ZERO && e.from in accounts then e.amount else 0)
  {
    if accounts != [] {
      FlowTotalIs(accounts[1..], e);
      assert accounts[0] !in accounts[1..] by {
        forall i | 0 < i < |accounts|
          ensures accounts[i] != accounts[0]
        {
          LessTotal(accounts[0], accounts[i]);
        }
      }
      assert accounts == [accounts[0]] + accounts[1..];
    }
  }

  lemma {:induction false} NetTotalStep(accounts: seq<Id>, events: seq<Transfer>)
    requires events != []
    ensures NetTotal(accounts, events)
         == NetTotal(accounts, events[..|events| - 1]) + FlowTotal(accounts, events[|events| - 1])
  {
    if accounts != [] {
      NetTotalStep(accounts[1..], events);
    }
  }

  lemma {:induction false} NetTotalIsSupply(accounts: seq<Id>, events: seq<Transfer>)
    requires Ascending(accounts)
    requires forall e :: e in events ==> Known(e.from, set a | a in accounts) && Known(e.to, set a | a in accounts)
    ensures NetTotal(accounts, events) == Supply(events)
    decreases |events|
  {
    if events == [] {
      NetTotalOfNone(accounts);
    } else {
      var last := events[|events| - 1];
      NetTotalStep(accounts, events);
      FlowTotalIs(accounts, last);
      NetTotalIsSupply(accounts, events[..|events| - 1]);
      assert last in events;
    }
  }

  lemma {:induction false} NetTotalOfNone(accounts: seq<Id>)
    ensures NetTotal(accounts, []) == 0
  {
    if accounts != [] {
      NetTotalOfNone(accounts[1..]);
    }
  }

  lemma {:induction false} TotalsMove(accounts: seq<Id>, events: seq<Transfer>, before: map<Id, int>,
                                      after: map<Id, int>)
    requires forall a :: a in accounts ==> a in before && a in after && after[a] == before[a] + Net(events, a)
    ensures Total(accounts, after) == Total(accounts, before) + NetTotal(accounts, events)
  {
    if accounts != [] {
      TotalsMove(accounts[1..], events, before, after);
    }
  }

  /** An accepted transaction moves the sum of all balances by exactly what it moves the supply. */
  lemma {:induction false} Conservation(events: seq<Transfer>, before: Snapshot, after: Snapshot)
    requires Explained(events, before, after) && FirstProblem(events, before.balances.Keys).None?
    ensures Held(after) - Held(before) == after.supply - before.supply
  {
    var accounts := Sorted(before.balances.Keys);
    hide Sorted;
    assert (set a | a in accounts) == before.balances.Keys;
    TotalsMove(accounts, events, before.balances, after.balances);
    forall e | e in events
      ensures Known(e.from, set a | a in accounts) && Known(e.to, set a | a in accounts)
    {
      assert Problem(e, before.balances.Keys).None?;
    }
    NetTotalIsSupply(accounts, events);
  }

  // ----- received and sent

  /** What an account received and sent. */
  function Received(events: seq<Transfer>, account: Id): int {
    if events == [] then 0
    else (if events[0].to == account then events[0].amount else 0) + Received(events[1..], account)
  }

  function Sent(events: seq<Transfer>, account: Id): int {
    if events == [] then 0
    else (if events[0].from == account then events[0].amount else 0) + Sent(events[1..], account)
  }

  lemma {:induction false} TotalsFront(events: seq<Transfer>, account: Id)
    requires events != []
    ensures var n := |events| - 1;
            && Received(events, account)
               == Received(events[..n], account) + (if events[n].to == account then events[n].amount else 0)
            && Sent(events, account)
               == Sent(events[..n], account) + (if events[n].from == account then events[n].amount else 0)
  {
    var n := |events| - 1;
    if n > 0 {
      TotalsFront(events[1..], account);
      assert events[..n][1..] == events[1..][..n - 1];
    }
  }

  /** An account's net is what it received less what it sent; the supply grows by what the zero address sent. */
  lemma {:induction false} NetIs(events: seq<Transfer>, account: Id)
    ensures account != ZERO ==> Net(events, account) == Received(events, account) - Sent(events, account)
    ensures Supply(events) == Sent(events, ZERO) - Received(events, ZERO)
    decreases |events|
  {
    if events != [] {
      NetIs(events[..|events| - 1], account);
      TotalsFront(events, account);
      TotalsFront(events, ZERO);
    }
  }

  /** Of an accepted transaction every balance grew by what the account received less what it sent. */
  lemma {:induction false} AcceptedChanges(events: seq<Transfer>, before: Snapshot, after: Snapshot)
    requires Verdict(events, before, after).Ok?
    ensures var changes := Verdict(events, before, after).value;
            && changes.Keys == before.balances.Keys == after.balances.Keys
            && forall a :: a in changes && a != ZERO ==>
                 && changes[a] == Received(events, a) - Sent(events, a)
                 && after.balances[a] == before.balances[a] + changes[a]
    ensures after.supply == before.supply + Sent(events, ZERO) - Received(events, ZERO)
  {
    hide Net, Supply, Received, Sent, FirstProblem;
    NetIs(events, ZERO);
    forall a | a in before.balances && a != ZERO
      ensures Net(events, a) == Received(events, a) - Sent(events, a)
    {
      NetIs(events, a);
    }
  }

  predicate IsPosted(e: Transfer, accounts: set<Id>) {
    e.amount >= 0 && (e.from == ZERO || e.from in accounts) && (e.to == ZERO || e.to in accounts)
  }

  /** The balance moved by what the account received less what it sent; the zero address's does not move. */
  predicate Moved(events: seq<Transfer>, account: Id, before: int, after: int) {
    0 <= before && 0 <= after && after - before == if account == ZERO then 0
                                                   else Received(events, account) - Sent(events, account)
  }

  /** The snapshots cover the same accounts, the parties of every event among them, and moved as the events say. */
  predicate Reconciles(events: seq<Transfer>, before: Snapshot, after: Snapshot) {
    && before.balances.Keys == after.balances.Keys
    && (forall e :: e in events ==> IsPosted(e, before.balances.Keys))
    && (forall a :: a in before.balances ==> Moved(events, a, before.balances[a], after.balances[a]))
    && after.supply - before.supply == Sent(events, ZERO) - Received(events, ZERO)
  }

  lemma {:induction false} NoNetAtZero(events: seq<Transfer>)
    ensures Net(events, ZERO) == 0
    decreases |events|
  {
    if events != [] {
      NoNetAtZero(events[..|events| - 1]);
    }
  }

  /** A transaction is accepted exactly if its snapshots reconcile with its events. */
  lemma {:induction false} AcceptedExactly(events: seq<Transfer>, before: Snapshot, after: Snapshot)
    ensures Verdict(events, before, after).Ok? <==> Reconciles(events, before, after)
  {
    hide Net, Supply, Received, Sent, FirstProblem, Verdict;
    NetIs(events, ZERO);
    NoNetAtZero(events);
    forall a | a in before.balances && a != ZERO
      ensures Net(events, a) == Received(events, a) - Sent(events, a)
    {
      NetIs(events, a);
    }
    forall e
      ensures Problem(e, before.balances.Keys).None? <==> IsPosted(e, before.balances.Keys)
    {
    }
  }
}
