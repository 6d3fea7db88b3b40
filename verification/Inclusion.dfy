/**
 `verify_case`: one transaction and its receipt, checked against a header that a trusted context pins.

 `Verify` specifies the verdict and `VerifyCase` computes it with the source's loops. The main result
 is `EndToEndBinding`: anchor, block number and transaction index determine the transaction and the
 receipt, whatever else a case supplies.
 */
module Inclusion {
  import opened Basics
  import opened BigEndian
  import opened Rlp
  import opened JsonRpcText
  import opened InclusionErrors
  import opened TrieProof
  import opened Trie
  import opened Receipt
  import opened Envelope

  // ----- block headers

  datatype Header = Header(hash: Digest, number: nat, parent: Bytes, transactionsRoot: Bytes, receiptsRoot: Bytes)

  predicate FixedWidths(f: seq<Item>)
    requires |f| >= 15 && AllStrings(f)
  {
    && |f[0].bytes| == 32 && |f[1].bytes| == 32 && |f[2].bytes| == 20
    && |f[3].bytes| == 32 && |f[4].bytes| == 32 && |f[5].bytes| == 32
    && |f[6].bytes| == 256 && |f[12].bytes| <= 32
    && |f[13].bytes| == 32 && |f[14].bytes| == 8
  }

  /** `_header_identity`. */
  function HeaderIdentity(keccak: Hash, raw: Bytes): (h: Result<Header, InclusionError>)
    ensures h.Ok? ==> h.value.hash == keccak(raw)
  {
    match Decode(raw)
    case None => Err(MalformedHeader)
    case Some(header) =>
      if header.Str? || Encode(header) != Some(raw) || |header.items| < 15 then
        Err(NonCanonicalHeader)
      else
        var f := header.items;
        if !AllStrings(f) then
          Err(MalformedHeaderFields)
        else if !FixedWidths(f) then
          Err(MalformedFixedWidthFields)
        else
          var gasLimit :- RlpInt(f[9].bytes);
          var gasUsed :- RlpInt(f[10].bytes);
          if gasUsed > gasLimit then
            Err(GasUsedExceedsLimit)
          else if exists i :: 7 <= i < 12 && f[i].bytes != [] && f[i].bytes[0] == 0 then
            Err(NonCanonicalHeaderNumbers)
          else
            var number :- RlpInt(f[8].bytes);
            Ok(Header(keccak(raw), number, f[0].bytes, f[4].bytes, f[5].bytes))
  }

  /** At least fifteen byte strings of the fixed widths, numbers without leading zeros, gas used within its limit. */
  predicate ValidHeaderFields(f: seq<Item>) {
    && |f| >= 15 && AllStrings(f) && FixedWidths(f)
    && (forall i :: 7 <= i < 12 ==> Canonical(f[i].bytes))
    && FromBytes(f[10].bytes) <= FromBytes(f[9].bytes)
  }

  /** A header's identity: the hash of its bytes, its number, its parent and its two roots. */
  function HeaderOf(hash: Digest, f: seq<Item>): Header
    requires ValidHeaderFields(f)
  {
    Header(hash, FromBytes(f[8].bytes), f[0].bytes, f[4].bytes, f[5].bytes)
  }

  /** Exactly the encodings of valid fields are headers, and their identity is read from those fields. */
  lemma {:induction false} HeaderIsExact(keccak: Hash, raw: Bytes, h: Header)
    ensures HeaderIdentity(keccak, raw) == Ok(h) <==>
              exists f :: Encode(List(f)) == Some(raw) && ValidHeaderFields(f) && h == HeaderOf(keccak(raw), f)
  {
    hide Decode, Encode, FromBytes, IntBytes, FixedWidths;
    if Decode(raw).Some? {
      Canonicity(raw, Decode(raw).value);
    }
    if f :| Encode(List(f)) == Some(raw) && ValidHeaderFields(f) && h == HeaderOf(keccak(raw), f) {
      Canonicity(raw, List(f));
    }
    if HeaderIdentity(keccak, raw).Ok? {
      var f := Decode(raw).value.items;
      assert ValidHeaderFields(f) by {
        forall i | 7 <= i < 12
          ensures Canonical(f[i].bytes)
        {
        }
      }
    }
  }

  // ----- the trusted context

  /** The trusted context's JSON fields; integers are None when the JSON value is not an integer. */
  datatype TrustContext = TrustContext(
    network: Field, chainFamily: Field, chainId: Option<int>, anchorHeaderHash: Field, anchorHeaderNumber: Option<int>,
    sourceId: Field, sourceRevision: Field, observedAt: Option<int>, validUntil: Option<int>, finalityStatus: Field)

  /** What the context pins. */
  datatype Anchor = Anchor(hash: Bytes, number: int, chainId: nat)

  /** The primitives the verifier calls; `parseTrust` is None for anything but a well-formed context. */
  datatype Environment = Environment(
    keccak: Hash, sha256: Hash, recover: Recovery, parseTrust: Bytes -> Option<TrustContext>)

  predicate NonEmptyText(f: Field) {
    f.Text? && f.text != []
  }

  function ReadTrust(env: Environment, raw: Bytes, pin: Bytes, now: int): Result<Anchor, InclusionError> {
    if |raw| > 64 * 1024 then
      Err(TrustContextTooLarge)
    else if pin != env.sha256(raw) then
      Err(TrustContextNotPinned)
    else
      match env.parseTrust(raw)
      case None => Err(MalformedTrustContext)
      case Some(t) =>
        if t.chainFamily != Text("ethereum-l1") && t.chainFamily != Text("op-stack-l2") then
          Err(UnsupportedChainFamily)
        else if t.chainId.None? || t.chainId.value < 1 then
          Err(InvalidTrustedChainId)
        else if !NonEmptyText(t.network) || !NonEmptyText(t.sourceId) || !NonEmptyText(t.sourceRevision) then
          Err(MissingSourceIdentity)
        else if t.anchorHeaderNumber.None? || t.observedAt.None? || t.validUntil.None? then
          Err(MalformedTrustContext)
        else if t.observedAt.value < 0 || t.validUntil.value < t.observedAt.value || now < 0
                || !(t.observedAt.value <= now <= t.validUntil.value) then
          Err(StaleTrustContext)
        else if t.finalityStatus != Text("unverified") then
          Err(FinalityClaimed)
        else
          var hash :- HexBytes(t.anchorHeaderHash, Some(32));
          Ok(Anchor(hash, t.anchorHeaderNumber.value, t.chainId.value))
  }

  // ----- header ancestry

  /** The header reached so far: its hash and height, and the ancestry bytes read. */
  datatype Tip = Tip(hash: Digest, number: nat, size: nat)

  /** One ancestry header on top of `tip`. */
  function Climb(keccak: Hash, tip: Tip, encoded: Field): Result<Tip, InclusionError> {
    var raw :- HexBytes(encoded, None);
    if tip.size + |raw| > 8 * 1024 * 1024 then
      Err(AncestryTooLarge)
    else
      var h :- HeaderIdentity(keccak, raw);
      if h.parent != tip.hash || h.number != tip.number + 1 then Err(BrokenAncestryLink)
      else Ok(Tip(h.hash, h.number, tip.size + |raw|))
  }

  function ClimbAll(keccak: Hash, start: Tip, ancestry: seq<Field>): Result<Tip, InclusionError>
    decreases |ancestry|
  {
    if ancestry == [] then
      Ok(start)
    else
      var tip :- ClimbAll(keccak, start, ancestry[..|ancestry| - 1]);
      Climb(keccak, tip, ancestry[|ancestry| - 1])
  }

  // ----- cases

  /** A case's JSON fields; None stands for a value of the wrong JSON type. */
  datatype Case = Case(
    receipt: Option<RpcReceipt>, transactionRaw: Field, transactionIndex: Option<int>,
    transactionProof: Option<seq<Field>>, receiptProof: Option<seq<Field>>,
    blockHeaderRlp: Field, headerAncestry: Option<seq<Field>>, expectedSender: Field)

  datatype Verdict = Verdict(
    anchor: Anchor, header: Header, ancestryCount: nat, transactionIndex: nat, transaction: Bytes,
    transactionHash: Digest, transactionType: nat, sender: Bytes, receipt: Bytes)

  /** The receipt's block header, connected to the anchor. */
  function LocateHeader(keccak: Hash, c: Case, anchor: Anchor): (r: Result<Header, InclusionError>)
    ensures r.Ok? ==> c.headerAncestry.Some?
  {
    var raw :- HexBytes(c.blockHeaderRlp, None);
    if |raw| > 64 * 1024 then
      Err(HeaderTooLarge)
    else
      var header :- HeaderIdentity(keccak, raw);
      if c.headerAncestry.None? || |c.headerAncestry.value| > 8192 then
        Err(TooManyAncestryHeaders)
      else
        var tip :- ClimbAll(keccak, Tip(header.hash, header.number, 0), c.headerAncestry.value);
        if tip.hash != anchor.hash || tip.number != anchor.number then Err(NotAnAncestorOfAnchor) else Ok(header)
  }

  /** The signed transaction and its sender. */
  function LocateTransaction(env: Environment, c: Case, chainId: nat): Result<(Bytes, Bytes, nat), InclusionError> {
    if c.transactionIndex.None? || c.transactionIndex.value < 0 then
      Err(InvalidTransactionIndex)
    else
      var raw :- HexBytes(c.transactionRaw, None);
      if |raw| > 128 * 1024 then
        Err(TransactionTooLarge)
      else
        var (sender, kind) :- RecoverTransaction(env.keccak, env.recover, raw, chainId);
        match HexBytes(c.expectedSender, Some(20))
        case Err(_) => Err(MalformedExpectedSender)
        case Ok(expected) => if sender != expected then Err(SenderMismatch) else Ok((raw, sender, kind))
  }

  /** The receipt's own cross-references to the transaction and the block. */
  function CheckReferences(keccak: Hash, r: RpcReceipt, header: Header, index: nat, transaction: Bytes)
    : Result<(), InclusionError>
  {
    var hash :- HexBytes(r.transactionHash, Some(32));
    if hash != keccak(transaction) then
      Err(ReceiptTransactionHashMismatch)
    else
      var claimedIndex :- Quantity(r.transactionIndex);
      if claimedIndex != index then
        Err(ReceiptIndexMismatch)
      else
        var blockHash :- HexBytes(r.blockHash, Some(32));
        if blockHash != header.hash then
          Err(ReceiptBlockHashMismatch)
        else
          var blockNumber :- Quantity(r.blockNumber);
          if blockNumber != header.number then Err(ReceiptBlockNumberMismatch) else Ok(())
  }

  function TotalSize(nodes: seq<Bytes>): nat {
    if nodes == [] then 0 else |nodes[0]| + TotalSize(nodes[1..])
  }

  /** The two decoded proofs, within the node-count and byte-size limits. */
  function ReadProofs(c: Case): Result<(seq<Bytes>, seq<Bytes>), InclusionError> {
    if c.transactionProof.None? || |c.transactionProof.value| > 128 then
      Err(TooManyTransactionProofNodes)
    else
      var transactionProof :- HexBytesAll(c.transactionProof.value, None);
      if c.receiptProof.None? || |c.receiptProof.value| > 128 then
        Err(TooManyReceiptProofNodes)
      else
        var receiptProof :- HexBytesAll(c.receiptProof.value, None);
        if TotalSize(transactionProof + receiptProof) > 4 * 1024 * 1024 then Err(ProofsTooLarge)
        else Ok((transactionProof, receiptProof))
  }

  function Verify(env: Environment, c: Case, trustRaw: Bytes, pin: Bytes, now: int): Result<Verdict, InclusionError> {
    var anchor :- ReadTrust(env, trustRaw, pin, now);
    var header :- LocateHeader(env.keccak, c, anchor);
    var (transaction, sender, kind) :- LocateTransaction(env, c, anchor.chainId);
    var index := c.transactionIndex.value;
    if c.receipt.None? then
      Err(MalformedReceipt)
    else
      var _ :- CheckReferences(env.keccak, c.receipt.value, header, index, transaction);
      var (receipt, receiptKind) :- EncodeReceipt(env.keccak, c.receipt.value);
      if receiptKind != kind then
        Err(TypeMismatch)
      else
        var (transactionProof, receiptProof) :- ReadProofs(c);
        var provenTransaction :- ProvenValue(env.keccak, header.transactionsRoot, index, transactionProof);
        if provenTransaction != transaction then
          Err(TransactionProofMismatch)
        else
          var provenReceipt :- ProvenValue(env.keccak, header.receiptsRoot, index, receiptProof);
          if provenReceipt != receipt then
            Err(ReceiptProofMismatch)
          else
            Ok(Verdict(anchor, header, |c.headerAncestry.value|, index, transaction, env.keccak(transaction),
                       kind, sender, receipt))
  }

  /** The header part of `verify_case`, with its ancestry loop. */
  method FindHeader(keccak: Hash, c: Case, anchor: Anchor) returns (r: Result<Header, InclusionError>)
    ensures r == LocateHeader(keccak, c, anchor)
  {
    hide HeaderIdentity, HexBytes;
    var raw :- HexBytes(c.blockHeaderRlp, None);
    if |raw| > 64 * 1024 {
      return Err(HeaderTooLarge);
    }
    var header :- HeaderIdentity(keccak, raw);
    if c.headerAncestry.None? || |c.headerAncestry.value| > 8192 {
      return Err(TooManyAncestryHeaders);
    }
    var ancestry := c.headerAncestry.value;
    var currentHash, currentNumber := header.hash, header.number;
    var ancestryBytes: nat := 0;
    ghost var start := Tip(header.hash, header.number, 0);
    for i := 0 to |ancestry|
      invariant ClimbAll(keccak, start, ancestry[..i]) == Ok(Tip(currentHash, currentNumber, ancestryBytes))
    {
      ClimbStops(keccak, start, ancestry, i);
      assert ancestry[..i + 1][..i] == ancestry[..i];
      var ancestorRaw :- HexBytes(ancestry[i], None);
      ancestryBytes := ancestryBytes + |ancestorRaw|;
      if ancestryBytes > 8 * 1024 * 1024 {
        return Err(AncestryTooLarge);
      }
      var ancestor :- HeaderIdentity(keccak, ancestorRaw);
      if ancestor.parent != currentHash || ancestor.number != currentNumber + 1 {
        return Err(BrokenAncestryLink);
      }
      currentHash, currentNumber := ancestor.hash, ancestor.number;
    }
    assert ancestry[..|ancestry|] == ancestry;
    if currentHash != anchor.hash || currentNumber != anchor.number {
      return Err(NotAnAncestorOfAnchor);
    }
    return Ok(header);
  }

  /** The first header that does not link decides the error. */
  lemma {:induction false} ClimbStops(keccak: Hash, start: Tip, ancestry: seq<Field>, i: nat)
    requires i < |ancestry| && ClimbAll(keccak, start, ancestry[..i]).Ok?
    ensures var step := Climb(keccak, ClimbAll(keccak, start, ancestry[..i]).value, ancestry[i]);
            step.Err? ==> ClimbAll(keccak, start, ancestry) == step
    decreases |ancestry|
  {
    hide Climb;
    if i < |ancestry| - 1 {
      assert ancestry[..|ancestry| - 1][..i] == ancestry[..i];
      ClimbStops(keccak, start, ancestry[..|ancestry| - 1], i);
    }
  }

  method VerifyCase(env: Environment, c: Case, trustRaw: Bytes, pin: Bytes, now: int)
    returns (r: Result<Verdict, InclusionError>)
    ensures r == Verify(env, c, trustRaw, pin, now)
  {
    hide ReadTrust, LocateHeader, CheckReferences, ReadProofs, EncodeReceipt, ProvenValue, RecoverTransaction, HexBytes;
    var anchor :- ReadTrust(env, trustRaw, pin, now);
    var header :- FindHeader(env.keccak, c, anchor);
    var located :- LocateTransaction(env, c, anchor.chainId);
    var (transaction, sender, kind) := located;
    var index := c.transactionIndex.value;
    if c.receipt.None? {
      return Err(MalformedReceipt);
    }
    var references :- CheckReferences(env.keccak, c.receipt.value, header, index, transaction);
    var encoded :- EncodeRpcReceipt(env.keccak, c.receipt.value);
    var (receipt, receiptKind) := encoded;
    if receiptKind != kind {
      return Err(TypeMismatch);
    }
    var proofs :- ReadProofs(c);
    var (transactionProof, receiptProof) := proofs;
    var provenTransaction :- VerifyIndexedTrieProof(env.keccak, header.transactionsRoot, index, transactionProof);
    if provenTransaction != transaction {
      return Err(TransactionProofMismatch);
    }
    var provenReceipt :- VerifyIndexedTrieProof(env.keccak, header.receiptsRoot, index, receiptProof);
    if provenReceipt != receipt {
      return Err(ReceiptProofMismatch);
    }
    return Ok(Verdict(anchor, header, |c.headerAncestry.value|, index, transaction, env.keccak(transaction),
                      kind, sender, receipt));
  }

  // ----- the ancestry fixes the block

  /** The bytes a hex field denotes; irrelevant when the field is malformed. */
  function RawOf(f: Field): Bytes {
    var raw := HexBytes(f, None);
    if raw.Ok? then raw.value else []
  }

  function RawsOf(fields: seq<Field>): (raws: seq<Bytes>)
    ensures |raws| == |fields| && forall i :: 0 <= i < |raws| ==> raws[i] == RawOf(fields[i])
  {
    seq(|fields|, i requires 0 <= i < |fields| => RawOf(fields[i]))
  }

  /** Every header climbed raises the height by one. */
  lemma {:induction false} ClimbHeight(keccak: Hash, start: Tip, ancestry: seq<Field>)
    requires ClimbAll(keccak, start, ancestry).Ok?
    ensures ClimbAll(keccak, start, ancestry).value.number == start.number + |ancestry|
    decreases |ancestry|
  {
    hide HeaderIdentity;
    if ancestry != [] {
      ClimbHeight(keccak, start, ancestry[..|ancestry| - 1]);
    }
  }

  /** Two climbs of one length to one tip start from one header hash, or two of their headers collide. */
  lemma {:induction false} ClimbBinding(keccak: Hash, a: Tip, b: Tip, fa: seq<Field>, fb: seq<Field>)
    requires |fa| == |fb|
    requires ClimbAll(keccak, a, fa).Ok? && ClimbAll(keccak, b, fb).Ok?
    requires ClimbAll(keccak, a, fa).value.hash == ClimbAll(keccak, b, fb).value.hash
    ensures a.hash == b.hash || Collision(keccak, RawsOf(fa), RawsOf(fb))
    decreases |fa|
  {
    hide HeaderIdentity, Climb, RawOf, Collision;
    if fa != [] {
      var n := |fa| - 1;
      var rawA, rawB := RawOf(fa[n]), RawOf(fb[n]);
      ClimbReads(keccak, ClimbAll(keccak, a, fa[..n]).value, fa[n]);
      ClimbReads(keccak, ClimbAll(keccak, b, fb[..n]).value, fb[n]);
      assert RawsOf(fa)[n] == rawA && RawsOf(fb)[n] == rawB;
      if rawA == rawB {
        ClimbBinding(keccak, a, b, fa[..n], fb[..n]);
        if Collision(keccak, RawsOf(fa[..n]), RawsOf(fb[..n])) {
          WiderCollision(keccak, RawsOf(fa[..n]), RawsOf(fb[..n]), RawsOf(fa), RawsOf(fb));
        }
      } else {
        OneCollision(keccak, RawsOf(fa), RawsOf(fb), n, n);
      }
    }
  }

  lemma {:induction false} ClimbReads(keccak: Hash, tip: Tip, encoded: Field)
    requires Climb(keccak, tip, encoded).Ok?
    ensures HeaderIdentity(keccak, RawOf(encoded)).Ok?
    ensures HeaderIdentity(keccak, RawOf(encoded)).value.parent == tip.hash
    ensures Climb(keccak, tip, encoded).value.hash == keccak(RawOf(encoded))
  {
    hide RlpInt, Encode, Decode, HexBytes;
  }

  lemma {:induction false} OneCollision(keccak: Hash, a: seq<Bytes>, b: seq<Bytes>, i: nat, j: nat)
    requires i < |a| && j < |b| && a[i] != b[j] && keccak(a[i]) == keccak(b[j])
    ensures Collision(keccak, a, b)
  {
    assert a[i] in a && b[j] in b;
  }

  lemma {:induction false} WiderCollision(keccak: Hash, a: seq<Bytes>, b: seq<Bytes>, c: seq<Bytes>, d: seq<Bytes>)
    requires Collision(keccak, a, b)
    requires (forall x :: x in a ==> x in c) && (forall x :: x in b ==> x in d)
    ensures Collision(keccak, c, d)
  {
    var p, q :| p in a && q in b && p != q && keccak(p) == keccak(q);
    assert p in c && q in d;
  }

  // ----- what an accepted case establishes

  /** Every byte string whose hash a case relies on: its headers and its proof nodes. */
  function Supplied(c: Case): seq<Bytes>
    requires c.headerAncestry.Some? && c.transactionProof.Some? && c.receiptProof.Some?
  {
    [RawOf(c.blockHeaderRlp)] + RawsOf(c.headerAncestry.value)
    + RawsOf(c.transactionProof.value) + RawsOf(c.receiptProof.value)
  }

  /** The block header and its place below the anchor. */
  predicate HeaderFacts(keccak: Hash, c: Case, v: Verdict)
    requires c.headerAncestry.Some?
  {
    && HeaderIdentity(keccak, RawOf(c.blockHeaderRlp)) == Ok(v.header)
    && v.ancestryCount == |c.headerAncestry.value|
    && var tip := ClimbAll(keccak, Tip(v.header.hash, v.header.number, 0), c.headerAncestry.value);
       tip.Ok? && tip.value.hash == v.anchor.hash && tip.value.number == v.anchor.number
  }

  predicate ProofFacts(keccak: Hash, c: Case, v: Verdict)
    requires c.transactionProof.Some? && c.receiptProof.Some?
  {
    && ProvenValue(keccak, v.header.transactionsRoot, v.transactionIndex, RawsOf(c.transactionProof.value))
       == Ok(v.transaction)
    && ProvenValue(keccak, v.header.receiptsRoot, v.transactionIndex, RawsOf(c.receiptProof.value)) == Ok(v.receipt)
  }

  lemma {:induction false} RawsAreDecoded(fields: seq<Field>)
    requires HexBytesAll(fields, None).Ok?
    ensures HexBytesAll(fields, None).value == RawsOf(fields)
  {
    if fields != [] {
      RawsAreDecoded(fields[1..]);
      assert RawsOf(fields) == [RawOf(fields[0])] + RawsOf(fields[1..]);
    }
  }

  lemma {:induction false} LocatedHeader(keccak: Hash, c: Case, anchor: Anchor)
    requires LocateHeader(keccak, c, anchor).Ok?
    ensures var h := LocateHeader(keccak, c, anchor).value;
            && HeaderIdentity(keccak, RawOf(c.blockHeaderRlp)) == Ok(h)
            && c.headerAncestry.Some?
            && var tip := ClimbAll(keccak, Tip(h.hash, h.number, 0), c.headerAncestry.value);
               tip.Ok? && tip.value.hash == anchor.hash && tip.value.number == anchor.number
  {
    hide HeaderIdentity, ClimbAll, HexBytes;
  }

  lemma {:induction false} LocatedTransaction(env: Environment, c: Case, chainId: nat)
    requires LocateTransaction(env, c, chainId).Ok?
    ensures var (raw, sender, kind) := LocateTransaction(env, c, chainId).value;
            RecoverTransaction(env.keccak, env.recover, raw, chainId) == Ok((sender, kind))
  {
    hide RecoverTransaction, HexBytes;
    var raw := HexBytes(c.transactionRaw, None).value;
    var recovered := RecoverTransaction(env.keccak, env.recover, raw, chainId).value;
    assert recovered == (recovered.0, recovered.1);
  }

  lemma {:induction false} ProofsRead(c: Case)
    requires ReadProofs(c).Ok?
    ensures c.transactionProof.Some? && c.receiptProof.Some?
    ensures ReadProofs(c).value == (RawsOf(c.transactionProof.value), RawsOf(c.receiptProof.value))
  {
    RawsAreDecoded(c.transactionProof.value);
    RawsAreDecoded(c.receiptProof.value);
    hide HexBytesAll, RawsOf, TotalSize;
  }

  lemma {:induction false} AcceptedFacts(env: Environment, c: Case, trustRaw: Bytes, pin: Bytes, now: int)
    requires Verify(env, c, trustRaw, pin, now).Ok?
    ensures var v := Verify(env, c, trustRaw, pin, now).value;
            && c.headerAncestry.Some? && c.transactionProof.Some? && c.receiptProof.Some? && c.receipt.Some?
            && HeaderFacts(env.keccak, c, v) && ProofFacts(env.keccak, c, v)
            && RecoverTransaction(env.keccak, env.recover, v.transaction, v.anchor.chainId)
               == Ok((v.sender, v.transactionType))
            && EncodeReceipt(env.keccak, c.receipt.value) == Ok((v.receipt, v.transactionType))
  {
    hide ReadTrust, LocateHeader, LocateTransaction, CheckReferences, ReadProofs, EncodeReceipt, ProvenValue;
    hide RecoverTransaction, RawsOf, HeaderIdentity, ClimbAll;
    var anchor := ReadTrust(env, trustRaw, pin, now).value;
    LocatedHeader(env.keccak, c, anchor);
    LocatedTransaction(env, c, anchor.chainId);
    ProofsRead(c);
    var encoded := EncodeReceipt(env.keccak, c.receipt.value).value;
    assert encoded == (encoded.0, encoded.1);
  }

  /** The anchor is exactly as many blocks above the receipt's block as there are ancestry headers. */
  lemma {:induction false} AnchorHeight(env: Environment, c: Case, trustRaw: Bytes, pin: Bytes, now: int)
    requires Verify(env, c, trustRaw, pin, now).Ok?
    ensures var v := Verify(env, c, trustRaw, pin, now).value;
            v.anchor.number == v.header.number + v.ancestryCount
  {
    hide Verify;
    AcceptedFacts(env, c, trustRaw, pin, now);
    var v := Verify(env, c, trustRaw, pin, now).value;
    ClimbHeight(env.keccak, Tip(v.header.hash, v.header.number, 0), c.headerAncestry.value);
  }

  // ----- main results

  /** Two accepted cases under one anchor and for one block number agree on the header. */
  lemma {:induction false} HeaderBinding(keccak: Hash, a: Case, b: Case, va: Verdict, vb: Verdict)
    requires a.headerAncestry.Some? && a.transactionProof.Some? && a.receiptProof.Some?
    requires b.headerAncestry.Some? && b.transactionProof.Some? && b.receiptProof.Some?
    requires HeaderFacts(keccak, a, va) && HeaderFacts(keccak, b, vb)
    requires va.anchor.hash == vb.anchor.hash && va.anchor.number == vb.anchor.number
    requires va.header.number == vb.header.number
    ensures va.header == vb.header || Collision(keccak, Supplied(a), Supplied(b))
  {
    hide HeaderIdentity, RawOf, Collision, ClimbAll;
    var fa, fb := a.headerAncestry.value, b.headerAncestry.value;
    var startA, startB := Tip(va.header.hash, va.header.number, 0), Tip(vb.header.hash, vb.header.number, 0);
    ClimbHeight(keccak, startA, fa);
    ClimbHeight(keccak, startB, fb);
    ClimbBinding(keccak, startA, startB, fa, fb);
    if Collision(keccak, RawsOf(fa), RawsOf(fb)) {
      WiderCollision(keccak, RawsOf(fa), RawsOf(fb), Supplied(a), Supplied(b));
    } else if RawOf(a.blockHeaderRlp) != RawOf(b.blockHeaderRlp) {
      OneCollision(keccak, Supplied(a), Supplied(b), 0, 0);
    }
  }

  /** Under one header, two accepted cases for one index agree on the transaction and the receipt bytes. */
  lemma {:induction false} ProofBinding(keccak: Hash, a: Case, b: Case, va: Verdict, vb: Verdict)
    requires a.headerAncestry.Some? && a.transactionProof.Some? && a.receiptProof.Some?
    requires b.headerAncestry.Some? && b.transactionProof.Some? && b.receiptProof.Some?
    requires ProofFacts(keccak, a, va) && ProofFacts(keccak, b, vb)
    requires va.header == vb.header && va.transactionIndex == vb.transactionIndex
    ensures (va.transaction == vb.transaction && va.receipt == vb.receipt)
         || Collision(keccak, Supplied(a), Supplied(b))
  {
    hide ProvenValue, RawOf, Collision;
    var ta, tb := RawsOf(a.transactionProof.value), RawsOf(b.transactionProof.value);
    var ra, rb := RawsOf(a.receiptProof.value), RawsOf(b.receiptProof.value);
    IndexedProofBinding(keccak, va.header.transactionsRoot, va.transactionIndex, ta, tb);
    IndexedProofBinding(keccak, va.header.receiptsRoot, va.transactionIndex, ra, rb);
    if Collision(keccak, ta, tb) {
      WiderCollision(keccak, ta, tb, Supplied(a), Supplied(b));
    } else if Collision(keccak, ra, rb) {
      WiderCollision(keccak, ra, rb, Supplied(a), Supplied(b));
    }
  }

  lemma {:induction false} SameReceiptContent(keccak: Hash, a: RpcReceipt, b: RpcReceipt)
    requires EncodeReceipt(keccak, a).Ok? && EncodeReceipt(keccak, a) == EncodeReceipt(keccak, b)
    ensures ParseReceipt(keccak, a).Ok? && ParseReceipt(keccak, a) == ParseReceipt(keccak, b)
  {
    hide ParseReceipt, ContentItem, Encode;
    SerializeInjective(ParseReceipt(keccak, a).value, ParseReceipt(keccak, b).value);
  }

  lemma {:induction false} SameRecovery(env: Environment, raw: Bytes, chainA: nat, chainB: nat)
    requires RecoverTransaction(env.keccak, env.recover, raw, chainA).Ok?
    requires RecoverTransaction(env.keccak, env.recover, raw, chainB).Ok?
    ensures chainA == chainB
  {
    hide ParseTransaction;
  }

  /**
   Anchor hash, anchor number, block number and transaction index determine the header, the signed
   transaction, its type, chain and sender, and the receipt with its status, gas, bloom and logs;
   otherwise two of the byte strings the cases supply are different and hash alike.
   */
  lemma {:induction false} EndToEndBinding(env: Environment, a: Case, b: Case, trustA: Bytes, pinA: Bytes, nowA: int,
                        trustB: Bytes, pinB: Bytes, nowB: int)
    requires Verify(env, a, trustA, pinA, nowA).Ok? && Verify(env, b, trustB, pinB, nowB).Ok?
    requires var va, vb := Verify(env, a, trustA, pinA, nowA).value, Verify(env, b, trustB, pinB, nowB).value;
             && va.anchor.hash == vb.anchor.hash && va.anchor.number == vb.anchor.number
             && va.header.number == vb.header.number && va.transactionIndex == vb.transactionIndex
    ensures a.receipt.Some? && b.receipt.Some?
    ensures a.headerAncestry.Some? && a.transactionProof.Some? && a.receiptProof.Some?
    ensures b.headerAncestry.Some? && b.transactionProof.Some? && b.receiptProof.Some?
    ensures || Collision(env.keccak, Supplied(a), Supplied(b))
            || (&& Verify(env, a, trustA, pinA, nowA) == Verify(env, b, trustB, pinB, nowB)
                && ParseReceipt(env.keccak, a.receipt.value).Ok?
                && ParseReceipt(env.keccak, a.receipt.value) == ParseReceipt(env.keccak, b.receipt.value))
  {
    hide Verify, Collision, HeaderFacts, ProofFacts, EncodeReceipt, ParseReceipt, RecoverTransaction;
    AcceptedFacts(env, a, trustA, pinA, nowA);
    AcceptedFacts(env, b, trustB, pinB, nowB);
    AnchorHeight(env, a, trustA, pinA, nowA);
    AnchorHeight(env, b, trustB, pinB, nowB);
    var va, vb := Verify(env, a, trustA, pinA, nowA).value, Verify(env, b, trustB, pinB, nowB).value;
    HeaderBinding(env.keccak, a, b, va, vb);
    if va.header == vb.header {
      ProofBinding(env.keccak, a, b, va, vb);
      if va.transaction == vb.transaction && va.receipt == vb.receipt {
        SameRecovery(env, va.transaction, va.anchor.chainId, vb.anchor.chainId);
        SameReceiptContent(env.keccak, a.receipt.value, b.receipt.value);
        TransactionHashOf(env, a, trustA, pinA, nowA);
        TransactionHashOf(env, b, trustB, pinB, nowB);
      }
    }
  }

  lemma {:induction false} TransactionHashOf(env: Environment, c: Case, trustRaw: Bytes, pin: Bytes, now: int)
    requires Verify(env, c, trustRaw, pin, now).Ok?
    ensures var v := Verify(env, c, trustRaw, pin, now).value;
            v.transactionHash == env.keccak(v.transaction)
  {
    hide ReadTrust, LocateHeader, LocateTransaction, CheckReferences, ReadProofs, EncodeReceipt, ProvenValue;
  }

  /** When the header commits to a trie, the accepted receipt is the one the trie holds at the index. */
  lemma {:induction false} ReceiptIsInTrie(env: Environment, c: Case, trustRaw: Bytes, pin: Bytes, now: int,
                                           receipts: Trie)
    requires Verify(env, c, trustRaw, pin, now).Ok? && WellFormed(env.keccak, receipts)
    requires Verify(env, c, trustRaw, pin, now).value.header.receiptsRoot == Root(env.keccak, receipts)
    ensures c.receiptProof.Some?
    ensures var v := Verify(env, c, trustRaw, pin, now).value;
            && IndexKey(v.transactionIndex).Some?
            && var key := IndexKey(v.transactionIndex).value;
               || Lookup(receipts, key) == v.receipt
               || Collision(env.keccak, RawsOf(c.receiptProof.value), PathNodes(env.keccak, receipts, key))
  {
    hide Verify, ProvenValue, WellFormed, Root, PathNodes, HeaderFacts;
    AcceptedFacts(env, c, trustRaw, pin, now);
    var v := Verify(env, c, trustRaw, pin, now).value;
    var repeated := Soundness(env.keccak, receipts, v.transactionIndex, RawsOf(c.receiptProof.value));
  }
}
