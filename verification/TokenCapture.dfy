/**
 The capture loop of `scripts/forensic/pro29_token_accounting.py`: snapshots around every transaction of a
 contiguous run of one-transaction blocks. What the chain answers is a parameter: the transactions of a block,
 and the token's state at the end of a block.
 */
module TokenCapture {
  import opened Basics
  import opened Ids
  import opened TokenLedger

  datatype Tx = Tx(hash: Id, block: nat, index: nat)

  /** The token at the end of a block; a balance that is missing stands for a call that fails. */
  datatype TokenState = TokenState(hasCode: bool, balances: map<Id, nat>, supply: nat)

  datatype Run = Run(ordered: seq<Tx>, rows: seq<Transfer>, rpcRows: seq<Transfer>, manifest: set<Id>)

  datatype Observation = Observation(tx: Tx, before: Snapshot, after: Snapshot, changes: map<Id, int>,
                                     events: seq<Transfer>)

  datatype Report = Report(transactions: seq<Observation>, final: Snapshot)

  /** What loading the receipts provides: transactions in order, each once, and the events of their logs. */
  predicate Loaded(run: Run) {
    && (forall i, j :: 0 <= i < j < |run.ordered| ==> run.ordered[i].block <= run.ordered[j].block)
    && (forall i, j :: 0 <= i < j < |run.ordered| ==> run.ordered[i].hash != run.ordered[j].hash)
    && forall row :: row in run.rows ==> row.amount >= 0 && row.tx in Hashes(run.ordered)
  }

  function Hashes(txs: seq<Tx>): set<Id> {
    set i | 0 <= i < |txs| :: txs[i].hash
  }

  /** The rows of some transactions, in order. */
  function Of(rows: seq<Transfer>, txs: set<Id>): (r: seq<Transfer>)
    ensures forall e :: e in r <==> e in rows && e.tx in txs
  {
    if rows == [] then []
    else
      var last := rows[|rows| - 1];
      Of(rows[..|rows| - 1], txs) + if last.tx in txs then [last] else []
  }

  /** Rows that create tokens. */
  function Mints(rows: seq<Transfer>): seq<Transfer> {
    if rows == [] then []
    else (if rows[0].from == ZERO && rows[0].to != ZERO then [rows[0]] else []) + Mints(rows[1..])
  }

  /** The observed accounts. */
  function Accounts(run: Run): set<Id> {
    run.manifest
    + (set e | e in run.rows && e.from != ZERO :: e.from)
    + (set e | e in run.rows && e.to != ZERO :: e.to)
  }

  // ----- what is accepted

  predicate OneTransactionPerBlock(txs: seq<Tx>) {
    forall i, j :: 0 <= i < j < |txs| ==> txs[i].block != txs[j].block
  }

  /** Between two observed blocks every block is observed. */
  ghost predicate EveryBlockObserved(txs: seq<Tx>) {
    forall n :: Within(txs, n) ==> HasBlock(txs, n)
  }

  ghost predicate Within(txs: seq<Tx>, n: int) {
    (exists i :: 0 <= i < |txs| && txs[i].block <= n) && exists j :: 0 <= j < |txs| && n <= txs[j].block
  }

  ghost predicate HasBlock(txs: seq<Tx>, n: int) {
    exists i :: 0 <= i < |txs| && txs[i].block == n
  }

  /** What is wrong with the block of a transaction; nothing when it holds that transaction and no other. */
  function BlockProblem(tx: Tx, txsAt: nat -> seq<Id>): (p: Option<LedgerError>)
    ensures p.None? <==> txsAt(tx.block) == [tx.hash] && tx.index == 0
  {
    if |txsAt(tx.block)| != 1 then Some(CrowdedBlock)
    else if txsAt(tx.block)[0] != tx.hash || tx.index != 0 then Some(ForeignTransaction)
    else None
  }

  /** Balances and supply at the end of a block: all zero before the token has code. */
  function TakeSnapshot(state: nat -> TokenState, accounts: set<Id>, block: int): (r: Result<Snapshot, LedgerError>)
    ensures r.Ok? ==> r.value.balances.Keys == accounts && NonNegative(r.value.balances)
  {
    if block < 0 || !state(block).hasCode then Ok(Snapshot(map a | a in accounts :: 0, 0))
    else if !(accounts <= state(block).balances.Keys) then Err(CallFailed)
    else Ok(Snapshot(map a | a in accounts :: state(block).balances[a], state(block).supply))
  }

  /** Code is there from the deployment on, and not before. */
  predicate CodeFits(tx: Tx, state: nat -> TokenState, deployment: int) {
    state(tx.block).hasCode <==> tx.block >= deployment
  }

  ghost predicate TxAccepted(run: Run, tx: Tx, state: nat -> TokenState, deployment: int) {
    var before := TakeSnapshot(state, Accounts(run), tx.block - 1);
    var after := TakeSnapshot(state, Accounts(run), tx.block);
    && CodeFits(tx, state, deployment) && before.Ok? && after.Ok?
    && Verdict(Of(run.rows, {tx.hash}), before.value, after.value).Ok?
  }

  ghost predicate Prepared(run: Run, txsAt: nat -> seq<Id>) {
    && run.ordered != [] && OneTransactionPerBlock(run.ordered) && EveryBlockObserved(run.ordered)
    && (forall i :: 0 <= i < |run.ordered| ==> BlockProblem(run.ordered[i], txsAt).None?)
    && run.rows == run.rpcRows && |Mints(run.rows)| == 1
  }

  ghost predicate Accepted(run: Run, txsAt: nat -> seq<Id>, state: nat -> TokenState) {
    && Prepared(run, txsAt)
    && forall i :: 0 <= i < |run.ordered| ==> TxAccepted(run, run.ordered[i], state, Mints(run.rows)[0].block)
  }

  // ----- what is refused, and with which error

  /** The first problem of a block, in the order of the transactions. */
  ghost predicate IsFirstBlockProblem(txs: seq<Tx>, txsAt: nat -> seq<Id>, error: LedgerError) {
    exists i :: 0 <= i < |txs| && BlockProblem(txs[i], txsAt) == Some(error)
             && forall k :: 0 <= k < i ==> BlockProblem(txs[k], txsAt).None?
  }

  /** Why a run is refused before any snapshot is taken: what is checked later is reported only if all before fits. */
  ghost predicate IsPreparationError(run: Run, txsAt: nat -> seq<Id>, error: LedgerError) {
    if run.ordered == [] then error == NoTransactions
    else if !OneTransactionPerBlock(run.ordered) then error == SharedBlock
    else if !EveryBlockObserved(run.ordered) then error == UnobservedBlock
    else if exists i :: 0 <= i < |run.ordered| && BlockProblem(run.ordered[i], txsAt).Some? then
      IsFirstBlockProblem(run.ordered, txsAt, error)
    else if run.rows != run.rpcRows then error == CoverageDiffers
    else error == NotOneMint
  }

  /** Why a transaction is refused: its code, then its snapshots, then what its events explain. */
  ghost predicate IsTxError(run: Run, tx: Tx, state: nat -> TokenState, deployment: int, error: LedgerError) {
    var before := TakeSnapshot(state, Accounts(run), tx.block - 1);
    var after := TakeSnapshot(state, Accounts(run), tx.block);
    if !CodeFits(tx, state, deployment) then
      error == if tx.block < deployment then CodeTooEarly else CodeMissing
    else if before.Err? then error == before.error
    else if after.Err? then error == after.error
    else Verdict(Of(run.rows, {tx.hash}), before.value, after.value) == Err(error)
  }

  /** Of the refused transactions of a prepared run, the first one's error. */
  ghost predicate IsFirstTxError(run: Run, state: nat -> TokenState, deployment: int, error: LedgerError) {
    exists i :: 0 <= i < |run.ordered| && IsTxError(run, run.ordered[i], state, deployment, error)
             && forall k :: 0 <= k < i ==> TxAccepted(run, run.ordered[k], state, deployment)
  }

  // ----- blocks as a set

  function BlocksOf(txs: seq<Tx>): (blocks: seq<nat>)
    ensures |blocks| == |txs| && forall i :: 0 <= i < |txs| ==> blocks[i] == txs[i].block
  {
    if txs == [] then [] else BlocksOf(txs[..|txs| - 1]) + [txs[|txs| - 1].block]
  }

  function SetOf(blocks: seq<nat>): set<nat> {
    set n | n in blocks
  }

  /** `set(range(start, end + 1))`. */
  function Range(start: nat, end: nat): (blocks: set<nat>)
    ensures forall n :: n in blocks <==> start <= n <= end
    decreases end + 1 - start
  {
    if start > end then {} else {start} + Range(start + 1, end)
  }

  /** `min`. */
  function Least(blocks: seq<nat>): (m: nat)
    requires blocks != []
    ensures m in blocks && forall b :: b in blocks ==> m <= b
  {
    if |blocks| == 1 then blocks[0]
    else
      var m := Least(blocks[1..]);
      assert blocks == [blocks[0]] + blocks[1..];
      if blocks[0] < m then blocks[0] else m
  }

  /** `max`. */
  function Greatest(blocks: seq<nat>): (m: nat)
    requires blocks != []
    ensures m in blocks && forall b :: b in blocks ==> b <= m
  {
    if |blocks| == 1 then blocks[0]
    else
      var m := Greatest(blocks[1..]);
      assert blocks == [blocks[0]] + blocks[1..];
      if blocks[0] > m then blocks[0] else m
  }

  /** A set is as large as the list exactly when nothing stands twice in the list. */
  lemma {:induction false} DistinctByCount(blocks: seq<nat>)
    ensures |SetOf(blocks)| <= |blocks|
    ensures |SetOf(blocks)| == |blocks| <==> forall i, j :: 0 <= i < j < |blocks| ==> blocks[i] != blocks[j]
  {
    if blocks != [] {
      var n := |blocks| - 1;
      var front, last := blocks[..n], blocks[n];
      DistinctByCount(front);
      assert blocks == front + [last];
      assert SetOf(blocks) == SetOf(front) + {last};
      assert last in SetOf(front) <==> last in front;
      hide SetOf;
      if last in front {
        var i :| 0 <= i < n && front[i] == last;
        assert blocks[i] == blocks[n];
      } else {
        assert forall i :: 0 <= i < n ==> blocks[i] == front[i] && blocks[i] != last;
      }
    }
  }

  lemma {:induction false} SharedByCount(txs: seq<Tx>)
    ensures |SetOf(BlocksOf(txs))| == |txs| <==> OneTransactionPerBlock(txs)
  {
    var blocks := BlocksOf(txs);
    DistinctByCount(blocks);
    assert forall i :: 0 <= i < |txs| ==> blocks[i] == txs[i].block;
  }

  lemma {:induction false} ObservedByRange(txs: seq<Tx>)
    requires txs != []
    ensures var blocks := BlocksOf(txs);
            SetOf(blocks) == Range(Least(blocks), Greatest(blocks)) <==> EveryBlockObserved(txs)
  {
    var blocks := BlocksOf(txs);
    var start, end := Least(blocks), Greatest(blocks);
    forall n
      ensures Within(txs, n) <==> start <= n <= end
      ensures HasBlock(txs, n) <==> n in blocks
    {
      BlockIs(txs, n);
    }
    hide Within, HasBlock, BlocksOf, Least, Greatest;
    if EveryBlockObserved(txs) {
      assert SetOf(blocks) == Range(start, end);
    }
    if SetOf(blocks) == Range(start, end) {
      forall n | Within(txs, n)
        ensures HasBlock(txs, n)
      {
        assert n in Range(start, end);
      }
    }
  }

  lemma {:induction false} BlockIs(txs: seq<Tx>, n: int)
    requires txs != []
    ensures Within(txs, n) <==> Least(BlocksOf(txs)) <= n <= Greatest(BlocksOf(txs))
    ensures HasBlock(txs, n) <==> n in BlocksOf(txs)
  {
    var blocks := BlocksOf(txs);
    var i :| 0 <= i < |blocks| && blocks[i] == Least(blocks);
    var j :| 0 <= j < |blocks| && blocks[j] == Greatest(blocks);
    hide Least, Greatest, BlocksOf;
    assert txs[i].block == blocks[i] && txs[j].block == blocks[j];
    assert forall k :: 0 <= k < |txs| ==> txs[k].block == blocks[k] && blocks[k] in blocks;
  }

  // ----- the capture

  /** The checks of `capture` on blocks and rows; the deployment block is that of the one mint. */
  method Prepare(run: Run, txsAt: nat -> seq<Id>) returns (r: Result<int, LedgerError>)
    ensures r.Ok? <==> Prepared(run, txsAt)
    ensures r.Ok? ==> r.value == Mints(run.rows)[0].block
    ensures r.Err? ==> IsPreparationError(run, txsAt, r.error)
  {
    hide EveryBlockObserved, OneTransactionPerBlock, BlocksOf, SetOf, Range, Mints, BlockProblem;
    var blocks := BlocksOf(run.ordered);
    SharedByCount(run.ordered);
    if run.ordered == [] {
      return Err(NoTransactions);
    }
    if |blocks| != |SetOf(blocks)| {
      return Err(SharedBlock);
    }
    var start, end := Least(blocks), Greatest(blocks);
    ObservedByRange(run.ordered);
    if SetOf(blocks) != Range(start, end) {
      return Err(UnobservedBlock);
    }
    for i := 0 to |run.ordered|
      invariant forall k :: 0 <= k < i ==> BlockProblem(run.ordered[k], txsAt).None?
    {
      var problem := BlockProblem(run.ordered[i], txsAt);
      if problem.Some? {
        return Err(problem.value);
      }
    }
    if run.rows != run.rpcRows {
      return Err(CoverageDiffers);
    }
    var mints := Mints(run.rows);
    if |mints| != 1 {
      return Err(NotOneMint);
    }
    return Ok(mints[0].block);
  }

  method Observe(run: Run, tx: Tx, state: nat -> TokenState, deployment: int)
    returns (r: Result<Observation, LedgerError>)
    ensures r.Ok? <==> TxAccepted(run, tx, state, deployment)
    ensures r.Ok? ==> IsObserved(run, tx, state, r.value)
    ensures r.Err? ==> IsTxError(run, tx, state, deployment, r.error)
  {
    hide Of, Verdict, Accounts, TakeSnapshot;
    var after := state(tx.block);
    if tx.block < deployment && after.hasCode {
      return Err(CodeTooEarly);
    }
    if tx.block >= deployment && !after.hasCode {
      return Err(CodeMissing);
    }
    var accounts := Accounts(run);
    var snapshotBefore :- TakeSnapshot(state, accounts, tx.block - 1);
    var snapshotAfter :- TakeSnapshot(state, accounts, tx.block);
    var events := Of(run.rows, {tx.hash});
    var verdict := ValidateTransactionDeltas(events, snapshotBefore, snapshotAfter);
    var changes :- verdict;
    return Ok(Observation(tx, snapshotBefore, snapshotAfter, changes, events));
  }

  /** What one accepted transaction adds to the report. */
  ghost predicate IsObserved(run: Run, tx: Tx, state: nat -> TokenState, o: Observation) {
    && o.tx == tx && o.events == Of(run.rows, {tx.hash})
    && TakeSnapshot(state, Accounts(run), tx.block - 1) == Ok(o.before)
    && TakeSnapshot(state, Accounts(run), tx.block) == Ok(o.after)
    && Verdict(o.events, o.before, o.after) == Ok(o.changes)
  }

  /** The observations of all transactions in order, and the last snapshot. */
  ghost predicate IsReport(run: Run, state: nat -> TokenState, report: Report) {
    && |report.transactions| == |run.ordered| > 0
    && (forall i :: 0 <= i < |run.ordered| ==> IsObserved(run, run.ordered[i], state, report.transactions[i]))
    && report.final == report.transactions[|run.ordered| - 1].after
  }

  /** `capture`, up to the report's observations, final balances and final supply. */
  method Capture(run: Run, txsAt: nat -> seq<Id>, state: nat -> TokenState)
    returns (r: Result<Report, LedgerError>)
    ensures r.Ok? <==> Accepted(run, txsAt, state)
    ensures r.Ok? ==> IsReport(run, state, r.value)
    ensures r.Err? ==> if Prepared(run, txsAt) then IsFirstTxError(run, state, Mints(run.rows)[0].block, r.error)
                       else IsPreparationError(run, txsAt, r.error)
  {
    hide IsObserved, TxAccepted, IsTxError, IsPreparationError, Accounts;
    hide OneTransactionPerBlock, EveryBlockObserved, BlockProblem, Mints;
    var prepared := Prepare(run, txsAt);
    var deployment :- prepared;
    var seen: seq<Observation> := [];
    var final := Snapshot(map a | a in Accounts(run) :: 0, 0);
    for i := 0 to |run.ordered|
      invariant |seen| == i && (i > 0 ==> final == seen[i - 1].after)
      invariant forall k :: 0 <= k < i ==> IsObserved(run, run.ordered[k], state, seen[k])
      invariant forall k :: 0 <= k < i ==> TxAccepted(run, run.ordered[k], state, deployment)
    {
      var o := Observe(run, run.ordered[i], state, deployment);
      var observation :- o;
      seen, final := seen + [observation], observation.after;
    }
    return Ok(Report(seen, final));
  }

  // ----- the whole run

  /** Observed blocks follow each other without a gap. */
  lemma {:induction false} BlocksAreConsecutive(txs: seq<Tx>, i: nat)
    requires forall j, k :: 0 <= j < k < |txs| ==> txs[j].block <= txs[k].block
    requires i < |txs| && OneTransactionPerBlock(txs) && EveryBlockObserved(txs)
    ensures txs[i].block == txs[0].block + i
  {
    if i > 0 {
      BlocksAreConsecutive(txs, i - 1);
      var n := txs[i - 1].block + 1;
      assert txs[i - 1].block < txs[i].block;
      assert Within(txs, n) && HasBlock(txs, n);
      var j :| 0 <= j < |txs| && txs[j].block == n;
      assert j > i - 1;
    }
  }

  lemma {:induction false} RowsSplit(rows: seq<Transfer>, txs: set<Id>, tx: Id, account: Id)
    requires tx !in txs
    ensures Net(Of(rows, txs + {tx}), account) == Net(Of(rows, txs), account) + Net(Of(rows, {tx}), account)
    ensures Supply(Of(rows, txs + {tx})) == Supply(Of(rows, txs)) + Supply(Of(rows, {tx}))
  {
    if rows != [] {
      RowsSplit(rows[..|rows| - 1], txs, tx, account);
      var last := rows[|rows| - 1];
      hide Flow, Minted;
      LastRow(rows, txs + {tx});
      LastRow(rows, txs);
      LastRow(rows, {tx});
      NetOfAppended(Of(rows[..|rows| - 1], txs + {tx}), last, account);
      NetOfAppended(Of(rows[..|rows| - 1], txs), last, account);
      NetOfAppended(Of(rows[..|rows| - 1], {tx}), last, account);
      hide Of, Net, Supply;
    }
  }

  lemma {:induction false} LastRow(rows: seq<Transfer>, txs: set<Id>)
    requires rows != []
    ensures Of(rows, txs)
         == if rows[|rows| - 1].tx in txs then Of(rows[..|rows| - 1], txs) + [rows[|rows| - 1]]
            else Of(rows[..|rows| - 1], txs)
  {
  }

  lemma {:induction false} NetOfAppended(events: seq<Transfer>, e: Transfer, account: Id)
    ensures Net(events + [e], account) == Net(events, account) + Flow(e, account)
    ensures Supply(events + [e]) == Supply(events) + Minted(e)
  {
    assert (events + [e])[..|events|] == events;
  }

  lemma {:induction false} OfAll(rows: seq<Transfer>, txs: set<Id>)
    requires forall e :: e in rows ==> e.tx in txs
    ensures Of(rows, txs) == rows
  {
    if rows != [] {
      OfAll(rows[..|rows| - 1], txs);
      assert rows == rows[..|rows| - 1] + [rows[|rows| - 1]];
    }
  }

  lemma {:induction false} OfNone(rows: seq<Transfer>)
    ensures Of(rows, {}) == []
  {
    if rows != [] {
      OfNone(rows[..|rows| - 1]);
    }
  }

  /** One more transaction: what explained the run so far and this one explains both. */
  lemma {:induction false} ExplainedBoth(rows: seq<Transfer>, txs: set<Id>, tx: Id, s: Snapshot, t: Snapshot,
                                         u: Snapshot)
    requires tx !in txs && Explained(Of(rows, txs), s, t) && Explained(Of(rows, {tx}), t, u)
    ensures Explained(Of(rows, txs + {tx}), s, u)
  {
    hide Of, Net, Supply;
    forall a
      ensures Net(Of(rows, txs + {tx}), a) == Net(Of(rows, txs), a) + Net(Of(rows, {tx}), a)
      ensures Supply(Of(rows, txs + {tx})) == Supply(Of(rows, txs)) + Supply(Of(rows, {tx}))
    {
      RowsSplit(rows, txs, tx, a);
    }
    assert Net(Of(rows, txs + {tx}), ZERO) == Net(Of(rows, txs), ZERO) + Net(Of(rows, {tx}), ZERO);
  }

  lemma {:induction false} TxIsExplained(run: Run, txsAt: nat -> seq<Id>, state: nat -> TokenState, i: nat)
    requires Loaded(run) && Accepted(run, txsAt, state) && i < |run.ordered|
    ensures var tx := run.ordered[i];
            var before := TakeSnapshot(state, Accounts(run), tx.block - 1);
            var after := TakeSnapshot(state, Accounts(run), tx.block);
            before.Ok? && after.Ok? && Explained(Of(run.rows, {tx.hash}), before.value, after.value)
  {
    hide Of, Explained, TakeSnapshot, Accounts, Mints, CodeFits, Verdict, FirstProblem, NonNegative, Loaded;
    hide EveryBlockObserved, OneTransactionPerBlock, BlockProblem;
    assert TxAccepted(run, run.ordered[i], state, Mints(run.rows)[0].block);
  }

  lemma {:induction false} BlocksMeet(run: Run, txsAt: nat -> seq<Id>, state: nat -> TokenState, i: nat)
    requires Loaded(run) && Accepted(run, txsAt, state) && 0 < i < |run.ordered|
    ensures run.ordered[i].block - 1 == run.ordered[i - 1].block
  {
    hide TxAccepted, OneTransactionPerBlock, EveryBlockObserved, BlockProblem;
    BlocksAreConsecutive(run.ordered, i - 1);
    BlocksAreConsecutive(run.ordered, i);
  }

  /** The first `i + 1` transactions explain what lies between the first before and the last after. */
  ghost predicate SpansTo(run: Run, state: nat -> TokenState, i: nat)
    requires i < |run.ordered|
  {
    var first := TakeSnapshot(state, Accounts(run), run.ordered[0].block - 1);
    var last := TakeSnapshot(state, Accounts(run), run.ordered[i].block);
    first.Ok? && last.Ok? && Explained(Of(run.rows, Hashes(run.ordered[..i + 1])), first.value, last.value)
  }

  lemma {:induction false} FirstSpans(run: Run, txsAt: nat -> seq<Id>, state: nat -> TokenState)
    requires Loaded(run) && Accepted(run, txsAt, state) && run.ordered != []
    ensures SpansTo(run, state, 0)
  {
    hide Of, Explained, Accounts, Accepted, TakeSnapshot;
    TxIsExplained(run, txsAt, state, 0);
    HashesGrow(run, 0);
    assert {} + {run.ordered[0].hash} == {run.ordered[0].hash};
  }

  lemma {:induction false} NextSpans(run: Run, txsAt: nat -> seq<Id>, state: nat -> TokenState, i: nat)
    requires Loaded(run) && Accepted(run, txsAt, state) && 0 < i < |run.ordered| && SpansTo(run, state, i - 1)
    requires run.ordered[i].block - 1 == run.ordered[i - 1].block
    ensures SpansTo(run, state, i)
  {
    hide Of, Explained, Accounts, Accepted, TakeSnapshot;
    TxIsExplained(run, txsAt, state, i);
    HashesGrow(run, i);
    hide Loaded, Hashes;
    var tx := run.ordered[i];
    ExplainedBoth(run.rows, Hashes(run.ordered[..i]), tx.hash,
                  TakeSnapshot(state, Accounts(run), run.ordered[0].block - 1).value,
                  TakeSnapshot(state, Accounts(run), tx.block - 1).value,
                  TakeSnapshot(state, Accounts(run), tx.block).value);
  }

  lemma {:induction false} PrefixExplained(run: Run, txsAt: nat -> seq<Id>, state: nat -> TokenState, i: nat)
    requires Loaded(run) && Accepted(run, txsAt, state) && i < |run.ordered|
    ensures SpansTo(run, state, i)
  {
    hide SpansTo, Loaded, Accepted;
    if i == 0 {
      FirstSpans(run, txsAt, state);
    } else {
      PrefixExplained(run, txsAt, state, i - 1);
      BlocksMeet(run, txsAt, state, i);
      NextSpans(run, txsAt, state, i);
    }
  }

  lemma {:induction false} HashesGrow(run: Run, i: nat)
    requires Loaded(run) && i < |run.ordered|
    ensures Hashes(run.ordered[..i + 1]) == Hashes(run.ordered[..i]) + {run.ordered[i].hash}
    ensures run.ordered[i].hash !in Hashes(run.ordered[..i])
    ensures Hashes(run.ordered[..0]) == {}
  {
    var txs := run.ordered;
    forall h | h in Hashes(txs[..i + 1])
      ensures h in Hashes(txs[..i]) || h == txs[i].hash
    {
      var k :| 0 <= k < i + 1 && h == txs[..i + 1][k].hash;
      assert k < i ==> txs[..i][k].hash == h;
    }
    forall h | h in Hashes(txs[..i])
      ensures h in Hashes(txs[..i + 1])
    {
      var k :| 0 <= k < i && h == txs[..i][k].hash;
      assert txs[..i + 1][k].hash == h;
    }
    assert txs[..i + 1][i] == txs[i];
  }

  lemma {:induction false} WholeRunSpans(run: Run, txsAt: nat -> seq<Id>, state: nat -> TokenState)
    requires Loaded(run) && Accepted(run, txsAt, state)
    ensures var first := TakeSnapshot(state, Accounts(run), run.ordered[0].block - 1);
            var last := TakeSnapshot(state, Accounts(run), run.ordered[|run.ordered| - 1].block);
            first.Ok? && last.Ok? && Explained(run.rows, first.value, last.value)
  {
    hide Explained, Of, Accounts, TakeSnapshot, TxAccepted, OneTransactionPerBlock, EveryBlockObserved, Mints, Hashes;
    var n := |run.ordered|;
    assert run.ordered[..n] == run.ordered;
    PrefixExplained(run, txsAt, state, n - 1);
    OfAll(run.rows, Hashes(run.ordered));
  }

  lemma {:induction false} KnownParties(run: Run)
    requires Loaded(run)
    ensures FirstProblem(run.rows, Accounts(run)).None?
  {
    forall e | e in run.rows
      ensures Problem(e, Accounts(run)).None?
    {
    }
  }

  /**
   Of an accepted run, the final balances and supply are those before the first block plus the effect of all
   the run's Transfer events; and the sum of all balances moved by what the supply moved.
   */
  lemma {:induction false} RunIsExplained(run: Run, txsAt: nat -> seq<Id>, state: nat -> TokenState)
    requires Loaded(run) && Accepted(run, txsAt, state)
    ensures var first := TakeSnapshot(state, Accounts(run), run.ordered[0].block - 1);
            var last := TakeSnapshot(state, Accounts(run), run.ordered[|run.ordered| - 1].block);
            && first.Ok? && last.Ok? && Explained(run.rows, first.value, last.value)
            && Held(last.value) - Held(first.value) == last.value.supply - first.value.supply
  {
    hide Held, Explained, FirstProblem, Accounts, Loaded, TxAccepted, OneTransactionPerBlock, EveryBlockObserved;
    WholeRunSpans(run, txsAt, state);
    KnownParties(run);
    Conservation(run.rows, TakeSnapshot(state, Accounts(run), run.ordered[0].block - 1).value,
                 TakeSnapshot(state, Accounts(run), run.ordered[|run.ordered| - 1].block).value);
  }

  /** So the report explains its final balances and supply from its first snapshot by all Transfer events. */
  lemma {:induction false} ReportIsExplained(run: Run, txsAt: nat -> seq<Id>, state: nat -> TokenState, report: Report)
    requires Loaded(run) && Accepted(run, txsAt, state) && IsReport(run, state, report)
    ensures var before := report.transactions[0].before;
            && Explained(run.rows, before, report.final)
            && Held(report.final) - Held(before) == report.final.supply - before.supply
  {
    hide Loaded, Accepted, Explained, Held, TakeSnapshot, Accounts, Of, Verdict;
    RunIsExplained(run, txsAt, state);
    assert IsObserved(run, run.ordered[0], state, report.transactions[0]);
    assert IsObserved(run, run.ordered[|run.ordered| - 1], state, report.transactions[|run.ordered| - 1]);
  }

  /** Started before the token existed, the run ends with every token held by an observed account. */
  lemma {:induction false} AllTokensAccountedFor(run: Run, txsAt: nat -> seq<Id>, state: nat -> TokenState)
    requires Loaded(run) && Accepted(run, txsAt, state)
    requires run.ordered[0].block > 0 ==> !state(run.ordered[0].block - 1).hasCode
    ensures var last := TakeSnapshot(state, Accounts(run), run.ordered[|run.ordered| - 1].block);
            last.Ok? && Held(last.value) == last.value.supply == Supply(run.rows)
  {
    RunIsExplained(run, txsAt, state);
    var first := TakeSnapshot(state, Accounts(run), run.ordered[0].block - 1).value;
    ZeroHeld(Sorted(Accounts(run)), first.balances);
  }

  lemma {:induction false} ZeroHeld(accounts: seq<Id>, balances: map<Id, int>)
    requires forall a :: a in accounts ==> a in balances && balances[a] == 0
    ensures Total(accounts, balances) == 0
  {
    if accounts != [] {
      ZeroHeld(accounts[1..], balances);
    }
  }

  // ----- which rows, accounts and states

  /** How often a row occurs. */
  function Times(rows: seq<Transfer>, e: Transfer): nat {
    if rows == [] then 0 else (if rows[0] == e then 1 else 0) + Times(rows[1..], e)
  }

  lemma {:induction false} TimesConcat(a: seq<Transfer>, b: seq<Transfer>, e: Transfer)
    ensures Times(a + b, e) == Times(a, e) + Times(b, e)
  {
    if a == [] {
      assert a + b == b;
    } else {
      TimesConcat(a[1..], b, e);
      assert (a + b)[1..] == a[1..] + b;
    }
  }

  /** The rows that create tokens: from the zero address to another, each as often as it occurs. */
  lemma {:induction false} MintsAre(rows: seq<Transfer>, e: Transfer)
    ensures Times(Mints(rows), e) == if e.from == ZERO && e.to != ZERO then Times(rows, e) else 0
  {
    if rows != [] {
      MintsAre(rows[1..], e);
      var first := if rows[0].from == ZERO && rows[0].to != ZERO then [rows[0]] else [];
      TimesConcat(first, Mints(rows[1..]), e);
    }
  }

  /** The rows of some transactions, each as often as it occurs. */
  lemma {:induction false} RowsAre(rows: seq<Transfer>, txs: set<Id>, e: Transfer)
    ensures Times(Of(rows, txs), e) == if e.tx in txs then Times(rows, e) else 0
  {
    if rows != [] {
      var n := |rows| - 1;
      RowsAre(rows[..n], txs, e);
      LastRow(rows, txs);
      hide Of;
      TimesConcat(Of(rows[..n], txs), [rows[n]], e);
      TimesConcat(rows[..n], [rows[n]], e);
      assert rows == rows[..n] + [rows[n]];
    }
  }

  /** Observed are the manifest's accounts and the parties of every row, the zero address apart. */
  lemma {:induction false} AccountsAre(run: Run, a: Id)
    ensures a in Accounts(run) <==>
              a in run.manifest || (a != ZERO && exists e :: e in run.rows && (e.from == a || e.to == a))
  {
  }

  /** A snapshot holds the chain's answers at the end of the block, or zeros where the token has no code yet. */
  predicate IsSnapshot(state: nat -> TokenState, accounts: set<Id>, block: int, s: Snapshot) {
    && s.balances.Keys == accounts
    && if block < 0 || !state(block).hasCode then s.supply == 0 && forall a :: a in accounts ==> s.balances[a] == 0
       else && s.supply == state(block).supply
            && forall a :: a in accounts ==>
                 a in state(block).balances && s.balances[a] == state(block).balances[a]
  }

  lemma {:induction false} SnapshotIs(state: nat -> TokenState, accounts: set<Id>, block: int, s: Snapshot)
    ensures TakeSnapshot(state, accounts, block) == Ok(s) <==> IsSnapshot(state, accounts, block, s)
  {
    if block < 0 || !state(block).hasCode {
      assert s.balances == (map a | a in accounts :: 0)
        <==> s.balances.Keys == accounts && forall a :: a in accounts ==> s.balances[a] == 0;
    } else if forall a :: a in accounts ==> a in state(block).balances {
      assert accounts <= state(block).balances.Keys;
      assert s.balances == (map a | a in accounts :: state(block).balances[a])
        <==> s.balances.Keys == accounts && forall a :: a in accounts ==> s.balances[a] == state(block).balances[a];
    }
  }

  /** The chain's answers before and after a transaction reconcile with its events. */
  ghost predicate IsReconciled(run: Run, tx: Tx, state: nat -> TokenState) {
    exists before, after ::
      && IsSnapshot(state, Accounts(run), tx.block - 1, before)
      && IsSnapshot(state, Accounts(run), tx.block, after)
      && Reconciles(Of(run.rows, {tx.hash}), before, after)
  }

  lemma {:induction false} ReconciledIs(run: Run, tx: Tx, state: nat -> TokenState)
    ensures var before := TakeSnapshot(state, Accounts(run), tx.block - 1);
            var after := TakeSnapshot(state, Accounts(run), tx.block);
            IsReconciled(run, tx, state)
            <==> before.Ok? && after.Ok? && Verdict(Of(run.rows, {tx.hash}), before.value, after.value).Ok?
  {
    var earlier := TakeSnapshot(state, Accounts(run), tx.block - 1);
    var later := TakeSnapshot(state, Accounts(run), tx.block);
    hide TakeSnapshot, IsSnapshot, Verdict, Reconciles, Accounts, Of;
    if earlier.Ok? && later.Ok? {
      SnapshotIs(state, Accounts(run), tx.block - 1, earlier.value);
      SnapshotIs(state, Accounts(run), tx.block, later.value);
      AcceptedExactly(Of(run.rows, {tx.hash}), earlier.value, later.value);
    }
    if IsReconciled(run, tx, state) {
      var before, after :| && IsSnapshot(state, Accounts(run), tx.block - 1, before)
                           && IsSnapshot(state, Accounts(run), tx.block, after)
                           && Reconciles(Of(run.rows, {tx.hash}), before, after);
      SnapshotIs(state, Accounts(run), tx.block - 1, before);
      SnapshotIs(state, Accounts(run), tx.block, after);
    }
  }

  /** A transaction is accepted exactly if code is there from the deployment on and the chain's answers reconcile. */
  lemma {:induction false} TxAcceptedExactly(run: Run, tx: Tx, state: nat -> TokenState, deployment: int)
    ensures TxAccepted(run, tx, state, deployment) <==>
              (state(tx.block).hasCode <==> deployment <= tx.block) && IsReconciled(run, tx, state)
  {
    ReconciledIs(run, tx, state);
    hide TakeSnapshot, IsReconciled, Verdict, Accounts, Of;
  }

  /** Row `j` creates tokens, from the zero address to another, and no other row does. */
  ghost predicate IsOnlyMint(rows: seq<Transfer>, j: nat) {
    && j < |rows| && rows[j].from == ZERO && rows[j].to != ZERO
    && forall k :: 0 <= k < |rows| && rows[k].from == ZERO && rows[k].to != ZERO ==> k == j
  }

  lemma {:induction false} NoMints(rows: seq<Transfer>)
    ensures Mints(rows) == [] <==> forall k :: 0 <= k < |rows| ==> rows[k].from != ZERO || rows[k].to == ZERO
  {
    if rows != [] {
      NoMints(rows[1..]);
      assert forall k :: 1 <= k < |rows| ==> rows[k] == rows[1..][k - 1];
    }
  }

  lemma {:induction false} OnlyMintIs(rows: seq<Transfer>)
    ensures |Mints(rows)| == 1 <==> exists j: nat :: IsOnlyMint(rows, j)
    ensures forall j: nat :: IsOnlyMint(rows, j) ==> Mints(rows) == [rows[j]]
  {
    if rows != [] {
      NoMints(rows[1..]);
      OnlyMintIs(rows[1..]);
      assert forall k :: 1 <= k < |rows| ==> rows[k] == rows[1..][k - 1];
      if rows[0].from == ZERO && rows[0].to != ZERO {
        assert Mints(rows[1..]) == [] ==> IsOnlyMint(rows, 0);
      } else {
        forall j: nat
          ensures IsOnlyMint(rows, j + 1) <==> IsOnlyMint(rows[1..], j)
        {
        }
        assert !IsOnlyMint(rows, 0);
      }
    }
  }

  /** When a run is accepted, in terms of its blocks, its rows and what the chain answers. */
  ghost predicate IsSound(run: Run, txsAt: nat -> seq<Id>, state: nat -> TokenState, mint: nat) {
    && run.ordered != [] && OneTransactionPerBlock(run.ordered) && EveryBlockObserved(run.ordered)
    && run.rows == run.rpcRows && IsOnlyMint(run.rows, mint)
    && forall i :: 0 <= i < |run.ordered| ==>
         var tx := run.ordered[i];
         && txsAt(tx.block) == [tx.hash] && tx.index == 0
         && (state(tx.block).hasCode <==> run.rows[mint].block <= tx.block) && IsReconciled(run, tx, state)
  }

  lemma {:induction false} RunAcceptedExactly(run: Run, txsAt: nat -> seq<Id>, state: nat -> TokenState)
    ensures Accepted(run, txsAt, state) <==> exists mint: nat :: IsSound(run, txsAt, state, mint)
  {
    OnlyMintIs(run.rows);
    forall tx, deployment
      ensures TxAccepted(run, tx, state, deployment) <==>
                (state(tx.block).hasCode <==> deployment <= tx.block) && IsReconciled(run, tx, state)
    {
      TxAcceptedExactly(run, tx, state, deployment);
    }
    hide TxAccepted, IsReconciled, IsOnlyMint, Mints, OneTransactionPerBlock, EveryBlockObserved, BlockProblem;
    if Accepted(run, txsAt, state) {
      var mint: nat :| IsOnlyMint(run.rows, mint);
      assert Mints(run.rows)[0] == run.rows[mint];
      assert IsSound(run, txsAt, state, mint);
    }
    if mint: nat :| IsSound(run, txsAt, state, mint) {
      assert Mints(run.rows)[0] == run.rows[mint];
    }
  }
}
