/**
 What a caller of `verify_case` can rely on: the pin alone fixes the outcome, the receipt's own references are
 checked, and an honest case is accepted.
 */
module InclusionGuarantees {
  import opened Basics
  import opened JsonRpcText
  import opened InclusionErrors
  import opened TrieProof
  import opened Trie
  import opened Receipt
  import opened Envelope
  import opened Inclusion
  import opened CaseChecks

  /** The context that was read is the pinned one, it is in force at `now`, and it claims no finality. */
  lemma {:induction false} TrustIsPinnedAndTimely(env: Environment, raw: Bytes, pin: Bytes, now: int)
    requires ReadTrust(env, raw, pin, now).Ok?
    ensures pin == env.sha256(raw) && env.parseTrust(raw).Some?
    ensures var t := env.parseTrust(raw).value;
            && t.observedAt.Some? && t.validUntil.Some? && 0 <= t.observedAt.value <= now <= t.validUntil.value
            && t.finalityStatus == Text("unverified")
  {
  }

  /** One context has one anchor, whenever it is read. */
  lemma {:induction false} OneAnchor(env: Environment, raw: Bytes, pin: Bytes, now: int, later: int)
    requires ReadTrust(env, raw, pin, now).Ok? && ReadTrust(env, raw, pin, later).Ok?
    ensures ReadTrust(env, raw, pin, now) == ReadTrust(env, raw, pin, later)
  {
    hide HexBytes;
  }

  lemma {:induction false} AnchorIsRead(env: Environment, c: Case, trustRaw: Bytes, pin: Bytes, now: int)
    requires Verify(env, c, trustRaw, pin, now).Ok?
    ensures ReadTrust(env, trustRaw, pin, now) == Ok(Verify(env, c, trustRaw, pin, now).value.anchor)
  {
    hide ReadTrust, LocateHeader, LocateTransaction, CheckReferences, ReadProofs, EncodeReceipt, ProvenValue;
  }

  /**
   One pin, one block number and one index have one outcome, whatever contexts, proofs and times are supplied:
   otherwise two contexts share a SHA-256 digest, or two supplied headers or nodes a keccak digest.
   */
  lemma {:induction false} PinDeterminesOutcome(env: Environment, a: Case, b: Case, trustA: Bytes, trustB: Bytes,
                                                pin: Bytes,
                                                nowA: int, nowB: int)
    requires Verify(env, a, trustA, pin, nowA).Ok? && Verify(env, b, trustB, pin, nowB).Ok?
    requires var va, vb := Verify(env, a, trustA, pin, nowA).value, Verify(env, b, trustB, pin, nowB).value;
             va.header.number == vb.header.number && va.transactionIndex == vb.transactionIndex
    ensures a.receipt.Some? && b.receipt.Some?
    ensures a.headerAncestry.Some? && a.transactionProof.Some? && a.receiptProof.Some?
    ensures b.headerAncestry.Some? && b.transactionProof.Some? && b.receiptProof.Some?
    ensures || (trustA != trustB && env.sha256(trustA) == env.sha256(trustB))
            || Collision(env.keccak, Supplied(a), Supplied(b))
            || (&& Verify(env, a, trustA, pin, nowA) == Verify(env, b, trustB, pin, nowB)
                && ParseReceipt(env.keccak, a.receipt.value).Ok?
                && ParseReceipt(env.keccak, a.receipt.value) == ParseReceipt(env.keccak, b.receipt.value))
  {
    hide Verify, ReadTrust, Collision, Supplied, ParseReceipt;
    AnchorIsRead(env, a, trustA, pin, nowA);
    AnchorIsRead(env, b, trustB, pin, nowB);
    TrustIsPinnedAndTimely(env, trustA, pin, nowA);
    TrustIsPinnedAndTimely(env, trustB, pin, nowB);
    AcceptedHasParts(env, a, trustA, pin, nowA);
    AcceptedHasParts(env, b, trustB, pin, nowB);
    if trustA == trustB {
      OneAnchor(env, trustA, pin, nowA, nowB);
      EndToEndBinding(env, a, b, trustA, pin, nowA, trustB, pin, nowB);
    }
  }

  lemma {:induction false} AcceptedHasParts(env: Environment, c: Case, trustRaw: Bytes, pin: Bytes, now: int)
    requires Verify(env, c, trustRaw, pin, now).Ok?
    ensures c.receipt.Some? && c.headerAncestry.Some? && c.transactionProof.Some? && c.receiptProof.Some?
  {
    hide Verify, HeaderFacts, ProofFacts, RecoverTransaction, EncodeReceipt;
    AcceptedFacts(env, c, trustRaw, pin, now);
  }

  /** An accepted receipt names the transaction, index and block it is accepted for, and the expected sender. */
  lemma {:induction false} ReferencesAreChecked(env: Environment, c: Case, trustRaw: Bytes, pin: Bytes, now: int)
    requires Verify(env, c, trustRaw, pin, now).Ok?
    ensures c.receipt.Some? && c.transactionIndex.Some?
    ensures var v := Verify(env, c, trustRaw, pin, now).value;
            var r := c.receipt.value;
            && HexBytes(r.transactionHash, Some(32)) == Ok(v.transactionHash)
            && Quantity(r.transactionIndex) == Ok(c.transactionIndex.value)
            && c.transactionIndex.value == v.transactionIndex
            && HexBytes(r.blockHash, Some(32)) == Ok(v.header.hash) && Quantity(r.blockNumber) == Ok(v.header.number)
            && HexBytes(c.expectedSender, Some(20)) == Ok(v.sender)
            && HexBytes(c.transactionRaw, None) == Ok(v.transaction)
  {
    hide ReadTrust, LocateHeader, ReadProofs, EncodeReceipt, ProvenValue, HexBytes, Quantity, RecoverTransaction;
    var anchor := ReadTrust(env, trustRaw, pin, now).value;
    SenderIsExpected(env, c, anchor.chainId);
    hide LocateTransaction;
    var v := Verify(env, c, trustRaw, pin, now).value;
    assert CheckReferences(env.keccak, c.receipt.value, v.header, v.transactionIndex, v.transaction).Ok?;
  }

  lemma {:induction false} SenderIsExpected(env: Environment, c: Case, chainId: nat)
    requires LocateTransaction(env, c, chainId).Ok?
    ensures var (raw, sender, kind) := LocateTransaction(env, c, chainId).value;
            && c.transactionIndex.Some? && c.transactionIndex.value >= 0
            && HexBytes(c.transactionRaw, None) == Ok(raw) && HexBytes(c.expectedSender, Some(20)) == Ok(sender)
  {
    hide HexBytes, RecoverTransaction;
  }

  /** The proofs a case carries are honest proofs of its transaction and receipt in the block's two tries. */
  ghost predicate ProvesHonestly(keccak: Hash, c: Case, index: nat, transactions: Trie, receipts: Trie,
                                 raw: Bytes, receipt: Bytes)
    requires WellFormed(keccak, transactions) && WellFormed(keccak, receipts)
  {
    && IndexKey(index).Some?
    && var key := IndexKey(index).value;
       && HasPath(transactions, key) && Depth(transactions, key) <= 128 && Lookup(transactions, key) == raw
       && HasPath(receipts, key) && Depth(receipts, key) <= 128 && Lookup(receipts, key) == receipt
       && exists t, r :: CarriesProofs(keccak, c, key, transactions, receipts, t, r)
  }

  ghost predicate CarriesProofs(keccak: Hash, c: Case, key: seq<Nibble>, transactions: Trie, receipts: Trie,
                                t: seq<bool>, r: seq<bool>)
    requires WellFormed(keccak, transactions) && HasPath(transactions, key)
    requires WellFormed(keccak, receipts) && HasPath(receipts, key)
  {
    Carries(c, Proof(keccak, transactions, key, true, t), Proof(keccak, receipts, key, true, r))
  }

  /** Everything but the proofs is in order for this verdict. */
  ghost predicate IsConsistent(env: Environment, c: Case, trustRaw: Bytes, pin: Bytes, now: int, v: Verdict) {
    && Pins(env, trustRaw, pin, now, v.anchor)
    && Connects(env.keccak, c, v.anchor, v.header)
    && c.headerAncestry.Some? && v.ancestryCount == |c.headerAncestry.value|
    && Signs(env, c, v.anchor.chainId, v.transaction, v.sender, v.transactionType)
    && c.transactionIndex == Some(v.transactionIndex) && v.transactionHash == env.keccak(v.transaction)
    && c.receipt.Some? && Refers(env.keccak, c.receipt.value, v.header, v.transactionIndex, v.transaction)
    && EncodeReceipt(env.keccak, c.receipt.value) == Ok((v.receipt, v.transactionType))
  }

  /** A verdict is given exactly for a consistent case whose proofs prove its bytes under the header's roots. */
  lemma {:induction false} VerdictIsExact(env: Environment, c: Case, trustRaw: Bytes, pin: Bytes, now: int, v: Verdict)
    ensures Verify(env, c, trustRaw, pin, now) == Ok(v) <==>
              && IsConsistent(env, c, trustRaw, pin, now, v)
              && exists t, r ::
                   && Carries(c, t, r)
                   && ProvenValue(env.keccak, v.header.transactionsRoot, v.transactionIndex, t) == Ok(v.transaction)
                   && ProvenValue(env.keccak, v.header.receiptsRoot, v.transactionIndex, r) == Ok(v.receipt)
  {
    hide Verify, Pins, Connects, Signs, Refers, Carries, EncodeReceipt, ProvenValue, ReadTrust, LocateHeader;
    hide LocateTransaction, CheckReferences, ReadProofs;
    VerdictBySteps(env, c, trustRaw, pin, now, v);
    TrustIsExact(env, trustRaw, pin, now, v.anchor);
    HeaderIsConnected(env.keccak, c, v.anchor, v.header);
    TransactionIsSigned(env, c, v.anchor.chainId, v.transaction, v.sender, v.transactionType);
    if c.receipt.Some? {
      ReferencesAreExact(env.keccak, c.receipt.value, v.header, v.transactionIndex, v.transaction);
    }
    forall t, r
      ensures ReadProofs(c) == Ok((t, r)) <==> Carries(c, t, r)
    {
      ProofsAreExact(c, t, r);
    }
    assert ReadProofs(c).Ok? ==> ReadProofs(c).value == (ReadProofs(c).value.0, ReadProofs(c).value.1);
  }

  /** The same, by the results of the single steps. */
  lemma {:induction false} VerdictBySteps(env: Environment, c: Case, trustRaw: Bytes, pin: Bytes, now: int, v: Verdict)
    ensures Verify(env, c, trustRaw, pin, now) == Ok(v) <==>
              && ReadTrust(env, trustRaw, pin, now) == Ok(v.anchor)
              && LocateHeader(env.keccak, c, v.anchor) == Ok(v.header)
              && c.headerAncestry.Some? && v.ancestryCount == |c.headerAncestry.value|
              && LocateTransaction(env, c, v.anchor.chainId) == Ok((v.transaction, v.sender, v.transactionType))
              && c.transactionIndex == Some(v.transactionIndex) && v.transactionHash == env.keccak(v.transaction)
              && c.receipt.Some?
              && CheckReferences(env.keccak, c.receipt.value, v.header, v.transactionIndex, v.transaction).Ok?
              && EncodeReceipt(env.keccak, c.receipt.value) == Ok((v.receipt, v.transactionType))
              && ReadProofs(c).Ok?
              && var (t, r) := ReadProofs(c).value;
                 && ProvenValue(env.keccak, v.header.transactionsRoot, v.transactionIndex, t) == Ok(v.transaction)
                 && ProvenValue(env.keccak, v.header.receiptsRoot, v.transactionIndex, r) == Ok(v.receipt)
  {
    hide ReadTrust, LocateHeader, LocateTransaction, CheckReferences, ReadProofs, EncodeReceipt, ProvenValue;
    var receipt := if c.receipt.Some? then EncodeReceipt(env.keccak, c.receipt.value) else Err(MalformedReceipt);
    assert receipt.Ok? ==> receipt.value == (receipt.value.0, receipt.value.1);
    var anchor := ReadTrust(env, trustRaw, pin, now);
    if anchor.Ok? {
      var located := LocateTransaction(env, c, anchor.value.chainId);
      if located.Ok? {
        assert located.value == (located.value.0, located.value.1, located.value.2);
        IndexIsThere(env, c, anchor.value.chainId);
      }
    }
  }

  lemma {:induction false} IndexIsThere(env: Environment, c: Case, chainId: nat)
    requires LocateTransaction(env, c, chainId).Ok?
    ensures c.transactionIndex.Some? && c.transactionIndex.value >= 0
  {
    hide HexBytes, RecoverTransaction;
  }

  /** A supplied proof node is different from a node on the trie's path, and hashes alike. */
  ghost predicate NodeCollides(keccak: Hash, nodes: seq<Bytes>, t: Trie, index: nat)
    requires WellFormed(keccak, t)
  {
    IndexKey(index).Some? && Collision(keccak, nodes, PathNodes(keccak, t, IndexKey(index).value))
  }

  /**
   Acceptance is exact: when the header commits to two tries, a consistent case gets its verdict if its proofs are
   honest proofs in them; and if it gets it they are, or one of their nodes collides with a node of a trie.
   */
  lemma {:induction false} AcceptanceIsExact(env: Environment, c: Case, trustRaw: Bytes, pin: Bytes, now: int,
                                             v: Verdict, transactions: Trie, receipts: Trie)
    requires WellFormed(env.keccak, transactions) && WellFormed(env.keccak, receipts)
    requires v.header.transactionsRoot == Root(env.keccak, transactions)
    requires v.header.receiptsRoot == Root(env.keccak, receipts)
    ensures IsConsistent(env, c, trustRaw, pin, now, v)
            && ProvesHonestly(env.keccak, c, v.transactionIndex, transactions, receipts, v.transaction, v.receipt)
            ==> Verify(env, c, trustRaw, pin, now) == Ok(v)
    ensures Verify(env, c, trustRaw, pin, now) == Ok(v) ==>
              && IsConsistent(env, c, trustRaw, pin, now, v)
              && exists t, r ::
                   && Carries(c, t, r)
                   && (|| ProvesHonestly(env.keccak, c, v.transactionIndex, transactions, receipts, v.transaction,
                                         v.receipt)
                       || NodeCollides(env.keccak, t, transactions, v.transactionIndex)
                       || NodeCollides(env.keccak, r, receipts, v.transactionIndex))
  {
    hide Verify, IsConsistent, WellFormed, Root, Carries, ProvenValue, ProvesHonestly, NodeCollides;
    VerdictIsExact(env, c, trustRaw, pin, now, v);
    if ProvesHonestly(env.keccak, c, v.transactionIndex, transactions, receipts, v.transaction, v.receipt) {
      HonestProofsProve(env.keccak, c, v.transactionIndex, transactions, receipts, v.transaction, v.receipt);
    }
    if Verify(env, c, trustRaw, pin, now) == Ok(v) {
      var t, r :|
        && Carries(c, t, r)
        && ProvenValue(env.keccak, v.header.transactionsRoot, v.transactionIndex, t) == Ok(v.transaction)
        && ProvenValue(env.keccak, v.header.receiptsRoot, v.transactionIndex, r) == Ok(v.receipt);
      ProvenHonestly(env.keccak, c, v.transactionIndex, transactions, receipts, v.transaction, v.receipt, t, r);
    }
  }

  lemma {:induction false} HonestProofsProve(keccak: Hash, c: Case, index: nat, transactions: Trie, receipts: Trie,
                                             raw: Bytes, receipt: Bytes)
    requires WellFormed(keccak, transactions) && WellFormed(keccak, receipts)
    requires ProvesHonestly(keccak, c, index, transactions, receipts, raw, receipt)
    ensures exists t, r ::
              && Carries(c, t, r)
              && ProvenValue(keccak, Root(keccak, transactions), index, t) == Ok(raw)
              && ProvenValue(keccak, Root(keccak, receipts), index, r) == Ok(receipt)
  {
    hide WellFormed, Root, Proof, HasPath, Depth, Lookup, Carries, ProvenValue;
    var key := IndexKey(index).value;
    var t, r :| CarriesProofs(keccak, c, key, transactions, receipts, t, r);
    Completeness(keccak, transactions, index, t);
    Completeness(keccak, receipts, index, r);
  }

  lemma {:induction false} ProvenHonestly(keccak: Hash, c: Case, index: nat, transactions: Trie, receipts: Trie,
                                          raw: Bytes, receipt: Bytes, t: seq<Bytes>, r: seq<Bytes>)
    requires WellFormed(keccak, transactions) && WellFormed(keccak, receipts) && Carries(c, t, r)
    requires ProvenValue(keccak, Root(keccak, transactions), index, t) == Ok(raw)
    requires ProvenValue(keccak, Root(keccak, receipts), index, r) == Ok(receipt)
    ensures || ProvesHonestly(keccak, c, index, transactions, receipts, raw, receipt)
            || NodeCollides(keccak, t, transactions, index)
            || NodeCollides(keccak, r, receipts, index)
  {
    hide WellFormed, Root, Proof, HasPath, Depth, Lookup, Carries, ProvenValue, Collision, PathNodes, IndexKey;
    var repeatedT := Soundness(keccak, transactions, index, t);
    var repeatedR := Soundness(keccak, receipts, index, r);
    if !NodeCollides(keccak, t, transactions, index) && !NodeCollides(keccak, r, receipts, index) {
      assert CarriesProofs(keccak, c, IndexKey(index).value, transactions, receipts, repeatedT, repeatedR);
    }
  }
}
