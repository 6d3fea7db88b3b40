/**
 What each check of `verify_case` accepts, stated field by field: the trusted context, the header and its ancestry, the
 transaction, the receipt's references and the proofs.
 */
module CaseChecks {
  import opened Basics
  import opened BigEndian
  import opened Rlp
  import opened JsonRpcText
  import opened Receipt
  import opened Envelope
  import opened Inclusion

  // ----- the trusted context

  /** A context of at most 64 KiB that hashes to the pin, is in force now and claims no finality pins this anchor. */
  predicate Pins(env: Environment, raw: Bytes, pin: Bytes, now: int, a: Anchor) {
    && |raw| <= 65536 && pin == env.sha256(raw) && env.parseTrust(raw).Some?
    && var t := env.parseTrust(raw).value;
       && t.chainFamily in {Text("ethereum-l1"), Text("op-stack-l2")}
       && t.chainId == Some(a.chainId) && a.chainId >= 1
       && t.network.Text? && t.network.text != [] && t.sourceId.Text? && t.sourceId.text != []
       && t.sourceRevision.Text? && t.sourceRevision.text != []
       && t.anchorHeaderNumber == Some(a.number) && HexBytes(t.anchorHeaderHash, Some(32)) == Ok(a.hash)
       && t.observedAt.Some? && t.validUntil.Some? && 0 <= t.observedAt.value <= now <= t.validUntil.value
       && t.finalityStatus == Text("unverified")
  }

  lemma {:induction false} TrustIsExact(env: Environment, raw: Bytes, pin: Bytes, now: int, a: Anchor)
    ensures ReadTrust(env, raw, pin, now) == Ok(a) <==> Pins(env, raw, pin, now, a)
  {
    hide HexBytes;
  }

  // ----- headers

  /** The fifteen leading fields of a header: fixed widths, and integers without leading zeros. */
  predicate IsHeader(f: seq<Item>, h: Header) {
    && |f| >= 15 && (forall i :: 0 <= i < |f| ==> f[i].Str?)
    && |f[1].bytes| == 32 && |f[2].bytes| == 20 && |f[3].bytes| == 32
    && |f[6].bytes| == 256 && |f[12].bytes| <= 32 && |f[13].bytes| == 32 && |f[14].bytes| == 8
    && (forall i :: 7 <= i <= 11 ==> Canonical(f[i].bytes))
    && FromBytes(f[10].bytes) <= FromBytes(f[9].bytes)
    && f[0] == Str(h.parent) && f[4] == Str(h.transactionsRoot) && f[5] == Str(h.receiptsRoot)
    && |h.parent| == |h.transactionsRoot| == |h.receiptsRoot| == 32
    && FromBytes(f[8].bytes) == h.number
  }

  lemma {:induction false} HeaderFieldsAre(keccak: Hash, raw: Bytes, h: Header)
    ensures HeaderIdentity(keccak, raw) == Ok(h) <==>
              h.hash == keccak(raw) && exists f :: Encode(List(f)) == Some(raw) && IsHeader(f, h)
  {
    HeaderIsExact(keccak, raw, h);
    hide HeaderIdentity, Encode, FromBytes, Canonical;
    if f :| Encode(List(f)) == Some(raw) && ValidHeaderFields(f) && h == HeaderOf(keccak(raw), f) {
      assert IsHeader(f, h);
    }
    if f :| Encode(List(f)) == Some(raw) && IsHeader(f, h) && h.hash == keccak(raw) {
      assert ValidHeaderFields(f) && h == HeaderOf(keccak(raw), f);
    }
  }

  /** The encoded header `b` names the hash of `a` and is one block higher. */
  predicate IsLink(keccak: Hash, encoded: Field, a: Header, b: Header) {
    && HexBytes(encoded, None).Ok? && HeaderIdentity(keccak, RawOf(encoded)) == Ok(b)
    && b.parent == a.hash && b.number == a.number + 1
  }

  /** The headers from the block's to the anchor's. */
  predicate AreLinked(keccak: Hash, ancestry: seq<Field>, hs: seq<Header>) {
    |hs| == |ancestry| + 1 && forall i :: 0 <= i < |ancestry| ==> IsLink(keccak, ancestry[i], hs[i], hs[i + 1])
  }

  lemma {:induction false} LinkedFront(keccak: Hash, ancestry: seq<Field>, hs: seq<Header>)
    requires ancestry != [] && |hs| == |ancestry| + 1
    ensures var n := |ancestry| - 1;
            AreLinked(keccak, ancestry, hs) <==>
              AreLinked(keccak, ancestry[..n], hs[..n + 1]) && IsLink(keccak, ancestry[n], hs[n], hs[n + 1])
  {
    hide IsLink;
    var n := |ancestry| - 1;
    if AreLinked(keccak, ancestry[..n], hs[..n + 1]) && IsLink(keccak, ancestry[n], hs[n], hs[n + 1]) {
      forall i | 0 <= i < |ancestry|
        ensures IsLink(keccak, ancestry[i], hs[i], hs[i + 1])
      {
        if i < n {
          assert IsLink(keccak, ancestry[..n][i], hs[..n + 1][i], hs[..n + 1][i + 1]);
        }
      }
    }
  }

  /** The sum of the lengths. */
  function Length(fields: seq<Field>): nat
    decreases |fields|
  {
    if fields == [] then 0 else Length(fields[..|fields| - 1]) + |RawOf(fields[|fields| - 1])|
  }

  /** Linked headers from `h` on that lead to `tip`. */
  ghost predicate Leads(keccak: Hash, h: Header, ancestry: seq<Field>, tip: Tip) {
    exists hs: seq<Header> ::
      && |hs| == |ancestry| + 1 && AreLinked(keccak, ancestry, hs) && hs[0] == h
      && tip.hash == hs[|ancestry|].hash && tip.number == hs[|ancestry|].number
  }

  lemma {:induction false} LastLink(keccak: Hash, tip: Tip, encoded: Field, next: Tip)
    ensures Climb(keccak, tip, encoded) == Ok(next) <==>
              && HexBytes(encoded, None).Ok? && next.size == tip.size + |RawOf(encoded)| <= 8388608
              && HeaderIdentity(keccak, RawOf(encoded)).Ok?
              && var h := HeaderIdentity(keccak, RawOf(encoded)).value;
                 && h.parent == tip.hash && h.number == tip.number + 1 && next.hash == h.hash && next.number == h.number
  {
    hide HeaderIdentity, HexBytes;
  }

  /** One more header on linked ones. */
  lemma {:induction false} LeadsOn(keccak: Hash, h: Header, ancestry: seq<Field>, tip: Tip)
    requires ancestry != []
    ensures var n := |ancestry| - 1;
            Leads(keccak, h, ancestry, tip) <==>
              && HexBytes(ancestry[n], None).Ok? && HeaderIdentity(keccak, RawOf(ancestry[n])).Ok?
              && var last := HeaderIdentity(keccak, RawOf(ancestry[n])).value;
                 && tip.hash == last.hash && tip.number == last.number && last.number >= 1
                 && exists before: Tip ::
                      && Leads(keccak, h, ancestry[..n], before)
                      && last.parent == before.hash && last.number == before.number + 1
  {
    hide HeaderIdentity, HexBytes, RawOf, AreLinked;
    var n := |ancestry| - 1;
    if Leads(keccak, h, ancestry, tip) {
      var hs: seq<Header> :| |hs| == |ancestry| + 1 && AreLinked(keccak, ancestry, hs) && hs[0] == h
                             && tip.hash == hs[|ancestry|].hash && tip.number == hs[|ancestry|].number;
      LinkedFront(keccak, ancestry, hs);
      assert Leads(keccak, h, ancestry[..n], Tip(hs[n].hash, hs[n].number, 0));
    }
    if HexBytes(ancestry[n], None).Ok? && HeaderIdentity(keccak, RawOf(ancestry[n])).Ok? {
      var last := HeaderIdentity(keccak, RawOf(ancestry[n])).value;
      if before: Tip :| Leads(keccak, h, ancestry[..n], before)
                        && last.parent == before.hash && last.number == before.number + 1 {
        var hs: seq<Header> :| |hs| == n + 1 && AreLinked(keccak, ancestry[..n], hs) && hs[0] == h
                               && before.hash == hs[n].hash && before.number == hs[n].number;
        var more := hs + [last];
        assert more[..n + 1] == hs;
        LinkedFront(keccak, ancestry, more);
        assert AreLinked(keccak, ancestry, more);
      }
    }
  }

  /** The climb succeeds exactly along linked headers of at most 8 MiB. */
  lemma {:induction false} ClimbIsExact(keccak: Hash, h: Header, ancestry: seq<Field>, tip: Tip)
    ensures ClimbAll(keccak, Tip(h.hash, h.number, 0), ancestry) == Ok(tip) <==>
              && tip.size == Length(ancestry) <= 8388608 && Leads(keccak, h, ancestry, tip)
    decreases |ancestry|
  {
    hide HeaderIdentity, HexBytes, RawOf, Climb, Leads;
    var start := Tip(h.hash, h.number, 0);
    if ancestry == [] {
      LeadsNowhere(keccak, h, tip);
    } else {
      var n := |ancestry| - 1;
      var before := ClimbAll(keccak, start, ancestry[..n]);
      LeadsOn(keccak, h, ancestry, tip);
      if before.Ok? {
        ClimbIsExact(keccak, h, ancestry[..n], before.value);
        LastLink(keccak, before.value, ancestry[n], tip);
      }
      forall other: Tip | Leads(keccak, h, ancestry[..n], other) && Length(ancestry) <= 8388608
        ensures before == Ok(Tip(other.hash, other.number, Length(ancestry[..n])))
      {
        var found := Tip(other.hash, other.number, Length(ancestry[..n]));
        SameLead(keccak, h, ancestry[..n], other, found);
        ClimbIsExact(keccak, h, ancestry[..n], found);
      }
    }
  }

  /** The size of a tip says nothing about where the headers lead. */
  lemma {:induction false} SameLead(keccak: Hash, h: Header, ancestry: seq<Field>, a: Tip, b: Tip)
    requires a.hash == b.hash && a.number == b.number
    ensures Leads(keccak, h, ancestry, a) <==> Leads(keccak, h, ancestry, b)
  {
    hide AreLinked;
  }

  lemma {:induction false} LeadsNowhere(keccak: Hash, h: Header, tip: Tip)
    ensures Leads(keccak, h, [], tip) <==> tip.hash == h.hash && tip.number == h.number
  {
    hide HeaderIdentity, HexBytes;
    assert AreLinked(keccak, [], [h]);
  }

  /** The block's header, of at most 64 KiB, and at most 8192 headers of at most 8 MiB from it to the anchor. */
  ghost predicate Connects(keccak: Hash, c: Case, anchor: Anchor, h: Header) {
    && HexBytes(c.blockHeaderRlp, None).Ok? && |RawOf(c.blockHeaderRlp)| <= 65536
    && HeaderIdentity(keccak, RawOf(c.blockHeaderRlp)) == Ok(h)
    && c.headerAncestry.Some? && |c.headerAncestry.value| <= 8192 && Length(c.headerAncestry.value) <= 8388608
    && anchor.number >= 0
    && exists tip: Tip ::
         Leads(keccak, h, c.headerAncestry.value, tip) && tip.hash == anchor.hash && tip.number == anchor.number
  }

  lemma {:induction false} HeaderIsConnected(keccak: Hash, c: Case, anchor: Anchor, h: Header)
    ensures LocateHeader(keccak, c, anchor) == Ok(h) <==> Connects(keccak, c, anchor, h)
  {
    hide HeaderIdentity, HexBytes, Climb, ClimbAll, Leads;
    if c.headerAncestry.Some? {
      var ancestry := c.headerAncestry.value;
      var climbed := ClimbAll(keccak, Tip(h.hash, h.number, 0), ancestry);
      if climbed.Ok? {
        ClimbIsExact(keccak, h, ancestry, climbed.value);
      }
      forall tip: Tip | Leads(keccak, h, ancestry, tip) && Length(ancestry) <= 8388608
        ensures climbed == Ok(Tip(tip.hash, tip.number, Length(ancestry)))
      {
        SameLead(keccak, h, ancestry, tip, Tip(tip.hash, tip.number, Length(ancestry)));
        ClimbIsExact(keccak, h, ancestry, Tip(tip.hash, tip.number, Length(ancestry)));
      }
    }
  }

  // ----- transaction, references and proofs

  /** A transaction of at most 128 KiB at a non-negative index, recovered to the expected sender. */
  predicate Signs(env: Environment, c: Case, chainId: nat, raw: Bytes, sender: Bytes, kind: nat) {
    && c.transactionIndex.Some? && c.transactionIndex.value >= 0
    && HexBytes(c.transactionRaw, None) == Ok(raw) && |raw| <= 131072
    && RecoverTransaction(env.keccak, env.recover, raw, chainId) == Ok((sender, kind))
    && HexBytes(c.expectedSender, Some(20)) == Ok(sender)
  }

  lemma {:induction false} TransactionIsSigned(env: Environment, c: Case, chainId: nat, raw: Bytes, sender: Bytes,
                                               kind: nat)
    ensures LocateTransaction(env, c, chainId) == Ok((raw, sender, kind)) <==> Signs(env, c, chainId, raw, sender, kind)
  {
    hide HexBytes, RecoverTransaction;
    var text := HexBytes(c.transactionRaw, None);
    if text.Ok? {
      var recovered := RecoverTransaction(env.keccak, env.recover, text.value, chainId);
      assert recovered.Ok? ==> recovered.value == (recovered.value.0, recovered.value.1);
    }
  }

  /** The receipt names the transaction's hash, its index, and the block's hash and number. */
  predicate Refers(keccak: Hash, r: RpcReceipt, h: Header, index: nat, transaction: Bytes) {
    && HexBytes(r.transactionHash, Some(32)) == Ok(keccak(transaction)) && Quantity(r.transactionIndex) == Ok(index)
    && HexBytes(r.blockHash, Some(32)) == Ok(h.hash) && Quantity(r.blockNumber) == Ok(h.number)
  }

  lemma {:induction false} ReferencesAreExact(keccak: Hash, r: RpcReceipt, h: Header, index: nat, transaction: Bytes)
    ensures CheckReferences(keccak, r, h, index, transaction).Ok? <==> Refers(keccak, r, h, index, transaction)
  {
    hide HexBytes, Quantity;
  }

  /** The nodes of a proof, at most 128. */
  predicate AreNodes(fields: Option<seq<Field>>, nodes: seq<Bytes>) {
    && fields.Some? && |fields.value| == |nodes| <= 128
    && forall i :: 0 <= i < |nodes| ==> HexBytes(fields.value[i], None) == Ok(nodes[i])
  }

  lemma {:induction false} NodesAre(fields: seq<Field>, nodes: seq<Bytes>)
    ensures HexBytesAll(fields, None) == Ok(nodes) <==>
              |fields| == |nodes| && forall i :: 0 <= i < |nodes| ==> HexBytes(fields[i], None) == Ok(nodes[i])
  {
    hide HexBytes;
    if fields != [] && nodes != [] {
      NodesAre(fields[1..], nodes[1..]);
      assert nodes == [nodes[0]] + nodes[1..];
      assert forall i :: 1 <= i < |nodes| && |fields| == |nodes| ==>
               nodes[i] == nodes[1..][i - 1] && fields[i] == fields[1..][i - 1];
    }
  }

  /** Both proofs, together at most 4 MiB. */
  predicate Carries(c: Case, transactionProof: seq<Bytes>, receiptProof: seq<Bytes>) {
    && AreNodes(c.transactionProof, transactionProof) && AreNodes(c.receiptProof, receiptProof)
    && TotalSize(transactionProof + receiptProof) <= 4194304
  }

  lemma {:induction false} ProofsAreExact(c: Case, transactionProof: seq<Bytes>, receiptProof: seq<Bytes>)
    ensures ReadProofs(c) == Ok((transactionProof, receiptProof)) <==> Carries(c, transactionProof, receiptProof)
  {
    hide HexBytes, HexBytesAll, TotalSize;
    if c.transactionProof.Some? {
      NodesAre(c.transactionProof.value, transactionProof);
    }
    if c.receiptProof.Some? {
      NodesAre(c.receiptProof.value, receiptProof);
    }
  }

  lemma {:induction false} TotalSizeOf(a: seq<Bytes>, b: seq<Bytes>)
    ensures TotalSize(a + b) == TotalSize(a) + TotalSize(b) && (|a| == 1 ==> TotalSize(a) == |a[0]|)
  {
    if a == [] {
      assert a + b == b;
    } else {
      TotalSizeOf(a[1..], b);
      assert (a + b)[1..] == a[1..] + b;
    }
  }
}
