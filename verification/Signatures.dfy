/**
 What a sender is recovered from: the fields of an envelope as they stand in its bytes, and the exact arguments that
 public-key recovery gets, for type-2 and for legacy transactions.
 */
module Signatures {
  import opened Basics
  import opened BigEndian
  import opened Rlp
  import opened InclusionErrors
  import opened Envelope

  /** The order of the group of secp256k1, in the hexadecimal form of its standard. */
  lemma {:induction false} OrderIs()
    ensures SECP256K1_N == 0xFFFF_FFFF_FFFF_FFFF_FFFF_FFFF_FFFF_FFFE_BAAE_DCE6_AF48_A03B_BFD2_5E8C_D036_4141
  {
  }

  /** `x` is the integer `n`, without leading zeros. */
  predicate IsInteger(x: Item, n: int) {
    x.Str? && Canonical(x.bytes) && FromBytes(x.bytes) == n
  }

  predicate IsEntry(x: Item, e: AccessEntry) {
    x == List([Str(e.address), List(Strings(e.keys))])
  }

  predicate IsAccessList(x: Item, entries: seq<AccessEntry>) {
    x.List? && |x.items| == |entries| && forall i :: 0 <= i < |entries| ==> IsEntry(x.items[i], entries[i])
  }

  /** The nine fields that are signed. */
  predicate AreSigned(p: seq<Item>, tx: RpcTransaction) {
    && |p| == 9
    && IsInteger(p[0], tx.chainId) && IsInteger(p[1], tx.nonce) && IsInteger(p[2], tx.priorityFee)
    && IsInteger(p[3], tx.maxFee) && IsInteger(p[4], tx.gas)
    && p[5] == Str(if tx.to.Some? then tx.to.value else []) && IsInteger(p[6], tx.value) && p[7] == Str(tx.input)
    && IsAccessList(p[8], tx.accessList)
  }

  /** The limits a type-2 transaction must meet, the signature apart. */
  predicate MeetsLimits(tx: RpcTransaction) {
    && 1 <= tx.chainId && tx.priorityFee <= tx.maxFee
    && (tx.to.Some? && tx.to.value != [] ==> |tx.to.value| == 20)
    && forall e :: e in tx.accessList ==> |e.address| == 20 && forall k :: k in e.keys ==> |k| == 32
  }

  /** `r` and `s` are in range, `s` in the lower half. */
  predicate InRange(parity: int, r: int, s: int) {
    && 0 <= parity <= 1
    && 0 < r < 0xFFFF_FFFF_FFFF_FFFF_FFFF_FFFF_FFFF_FFFE_BAAE_DCE6_AF48_A03B_BFD2_5E8C_D036_4141
    && 0 < s <= 0x7FFF_FFFF_FFFF_FFFF_FFFF_FFFF_FFFF_FFFF_5D57_6E73_57A4_501D_DFE9_2F46_681B_20A0
  }

  lemma {:induction false} InRangeIs(t: Transaction)
    requires t.Legacy? ==> t.v >= 35
    ensures SignatureInRange(t) <==> InRange(Parity(t), t.r, t.s)
  {
    OrderIs();
  }

  lemma {:induction false} LimitsAre(tx: RpcTransaction)
    requires !AnyNegative(tx)
    ensures WithinLimits(Denoted(tx)) <==> MeetsLimits(tx)
  {
    if WithinLimits(Denoted(tx)) {
      forall e | e in tx.accessList
        ensures |e.address| == 20 && forall k :: k in e.keys ==> |k| == 32
      {
        var i :| 0 <= i < |tx.accessList| && tx.accessList[i] == e;
      }
    }
  }

  lemma {:induction false} IntegerIs(x: Item, n: nat)
    ensures IsInteger(x, n) <==> x == Str(IntBytes(n))
  {
    if IsInteger(x, n) {
      IntBytesOfValue(x.bytes);
    }
    hide IntBytes, FromBytes;
  }

  lemma {:induction false} AccessListIs(x: Item, entries: seq<AccessEntry>)
    ensures IsAccessList(x, entries) <==> x == List(AccessItems(entries))
  {
    var items := AccessItems(entries);
    assert forall i :: 0 <= i < |entries| ==> items[i] == EntryItem(entries[i]);
    hide AccessItems, Strings;
    if IsAccessList(x, entries) {
      assert x.items == items;
    }
  }

  /** Exactly one list of items is the signed fields. */
  lemma {:induction false} SignedAre(tx: RpcTransaction, p: seq<Item>)
    requires !AnyNegative(tx)
    ensures AreSigned(p, tx) <==> p == SignedFields(Denoted(tx))
  {
    hide IsInteger, IsAccessList, AccessItems, IntBytes;
    if |p| == 9 {
      IntegerIs(p[0], tx.chainId);
      IntegerIs(p[1], tx.nonce);
      IntegerIs(p[2], tx.priorityFee);
      IntegerIs(p[3], tx.maxFee);
      IntegerIs(p[4], tx.gas);
      IntegerIs(p[6], tx.value);
      AccessListIs(p[8], tx.accessList);
      assert p == [p[0], p[1], p[2], p[3], p[4], p[5], p[6], p[7], p[8]];
    }
  }

  /** The fields of a built envelope, in the order of EIP-1559. */
  lemma {:induction false} EnvelopeFields(tx: RpcTransaction, raw: Bytes) returns (p: seq<Item>)
    requires SignedRawTransaction(tx) == Ok(raw)
    ensures tx.kind == 2 && raw != [] && raw[0] == 2 && Decode(raw[1..]) == Some(List(p))
    ensures |p| == 12 && AreSigned(p[..9], tx)
    ensures IsInteger(p[9], tx.parity) && IsInteger(p[10], tx.r) && IsInteger(p[11], tx.s)
  {
    hide LocalRlp, Encode, Decode, IntBytes, FromBytes, AccessItems, IsInteger, AllFields, SignedFields, AreSigned;
    p := AllFields(Denoted(tx));
    LocalRlpIsEncode(List(p));
    Canonicity(raw[1..], List(p));
    assert raw[0] == 2 && raw[1..] == Encode(List(p)).value;
    FieldsInOrder(tx);
    SignedAre(tx, SignedFields(Denoted(tx)));
  }

  lemma {:induction false} FieldsInOrder(tx: RpcTransaction)
    requires !AnyNegative(tx)
    ensures var p := AllFields(Denoted(tx));
            && p[..9] == SignedFields(Denoted(tx))
            && IsInteger(p[9], tx.parity) && IsInteger(p[10], tx.r) && IsInteger(p[11], tx.s)
  {
    hide IntBytes, FromBytes, AccessItems;
  }

  lemma {:induction false} RecoverBuilt(keccak: Hash, recover: Recovery, tx: RpcTransaction, raw: Bytes, chainId: nat,
                                        sender: Bytes)
    requires SignedRawTransaction(tx) == Ok(raw)
    ensures RecoverTransaction(keccak, recover, raw, chainId) == Ok((sender, 2)) <==>
              && MeetsLimits(tx) && chainId == tx.chainId && InRange(tx.parity, tx.r, tx.s)
              && Encode(List(SignedFields(Denoted(tx)))).Some?
              && recover(keccak([2] + Encode(List(SignedFields(Denoted(tx)))).value), tx.parity, tx.r, tx.s)
                 == Some(sender)
  {
    hide ParseTransaction, Encode, WithinLimits, MeetsLimits, LocalRlp, SignatureInRange, InRange, SignedFields;
    EnvelopeRoundTrip(tx);
    LimitsAre(tx);
    InRangeIs(Denoted(tx));
  }

  /**
   The sender of a built envelope: recovered from the hash of 0x02 and the encoding of the nine signed fields with
   the transaction's own parity, `r` and `s`; and this is what makes recovery succeed.
   */
  lemma {:induction false} SenderOfEnvelope(keccak: Hash, recover: Recovery, tx: RpcTransaction, raw: Bytes,
                                            chainId: nat, sender: Bytes)
    requires SignedRawTransaction(tx) == Ok(raw)
    ensures RecoverTransaction(keccak, recover, raw, chainId) == Ok((sender, 2)) <==>
              && MeetsLimits(tx) && chainId == tx.chainId && InRange(tx.parity, tx.r, tx.s)
              && exists p, body ::
                   && AreSigned(p, tx) && Encode(List(p)) == Some(body)
                   && recover(keccak([2] + body), tx.parity, tx.r, tx.s) == Some(sender)
  {
    RecoverBuilt(keccak, recover, tx, raw, chainId, sender);
    hide RecoverTransaction, Encode, MeetsLimits, LocalRlp, InRange, SignedFields, AreSigned;
    SignedAre(tx, SignedFields(Denoted(tx)));
    if p, body :| AreSigned(p, tx) && Encode(List(p)) == Some(body)
                  && recover(keccak([2] + body), tx.parity, tx.r, tx.s) == Some(sender) {
      SignedAre(tx, p);
    }
  }

  /** A legacy transaction as nine byte strings. */
  predicate IsLegacy(f: seq<Item>) {
    && |f| == 9 && AllStrings(f)
    && Canonical(f[0].bytes) && Canonical(f[1].bytes) && Canonical(f[2].bytes)
    && (|f[3].bytes| == 0 || |f[3].bytes| == 20) && Canonical(f[4].bytes)
    && Canonical(f[6].bytes) && Canonical(f[7].bytes) && Canonical(f[8].bytes)
  }

  /** The `v` of EIP-155. */
  predicate IsProtected(v: nat, chainId: nat, parity: nat) {
    v == 35 + 2 * chainId + parity
  }

  /** What the legacy branch makes of nine items. */
  lemma {:induction false} LegacyParsed(f: seq<Item>)
    ensures ParseLegacy(f).Ok? <==> IsLegacy(f) && FromBytes(f[6].bytes) >= 35
    ensures ParseLegacy(f).Ok? ==>
              var t := ParseLegacy(f).value;
              && t.v == FromBytes(f[6].bytes) && t.r == FromBytes(f[7].bytes) && t.s == FromBytes(f[8].bytes)
  {
    hide FromBytes, IntBytes;
  }

  lemma {:induction false} LegacyPayload(f: seq<Item>, raw: Bytes)
    requires Encode(List(f)) == Some(raw)
    ensures raw != [] && raw[0] >= 0xC0 && ReadPayload(raw) == Ok(f)
  {
    ListEncodingStarts(f);
    Canonicity(raw, List(f));
    hide Encode, Decode;
  }

  /** The fields whose hash a legacy transaction signs. */
  function LegacySigned(f: seq<Item>, chainId: nat): seq<Item>
    requires |f| == 9
  {
    f[..6] + [Str(IntBytes(chainId)), Str([]), Str([])]
  }

  lemma {:induction false} LegacyIsParsed(f: seq<Item>, raw: Bytes, t: Transaction)
    requires Encode(List(f)) == Some(raw)
    requires |f| == 9 && t.Legacy? && t.v >= 35 && ParseLegacy(f) == Ok(t)
    ensures var body := Encode(List(LegacySigned(f, (t.v - 35) / 2)));
            ParseTransaction(raw) == if body.Some? then Ok(Parsed(t, body.value)) else Err(MalformedTransaction)
  {
    hide Encode, ParseLegacy, ReadPayload, IntBytes, Decode, ParseDynamicFee;
    LegacyPayload(f, raw);
  }

  lemma {:induction false} NotLegacy(f: seq<Item>, raw: Bytes)
    requires Encode(List(f)) == Some(raw) && ParseLegacy(f).Err?
    ensures ParseTransaction(raw).Err?
  {
    hide Encode, ParseLegacy, ReadPayload, IntBytes, Decode, ParseDynamicFee;
    LegacyPayload(f, raw);
  }

  /** The arguments of recovery for a legacy transaction, in terms of `v`. */
  predicate RecoversLegacy(keccak: Hash, recover: Recovery, f: seq<Item>, v: nat, sender: Bytes)
    requires |f| == 9 && AllStrings(f) && v >= 35
  {
    && InRange((v - 35) % 2, FromBytes(f[7].bytes), FromBytes(f[8].bytes))
    && Encode(List(LegacySigned(f, (v - 35) / 2))).Some?
    && recover(keccak(Encode(List(LegacySigned(f, (v - 35) / 2))).value), (v - 35) % 2,
               FromBytes(f[7].bytes), FromBytes(f[8].bytes)) == Some(sender)
  }

  lemma {:induction false} RecoverLegacy(keccak: Hash, recover: Recovery, f: seq<Item>, raw: Bytes, chainId: nat,
                                         sender: Bytes)
    requires Encode(List(f)) == Some(raw)
    ensures RecoverTransaction(keccak, recover, raw, chainId) == Ok((sender, 0)) <==>
              && IsLegacy(f) && FromBytes(f[6].bytes) >= 35 && (FromBytes(f[6].bytes) - 35) / 2 == chainId
              && RecoversLegacy(keccak, recover, f, FromBytes(f[6].bytes), sender)
  {
    hide Encode, ParseLegacy, ReadPayload, ParseTransaction, FromBytes, IntBytes, InRange, SignatureInRange;
    hide LegacySigned, AllStrings;
    LegacyParsed(f);
    if ParseLegacy(f).Ok? {
      LegacyIsParsed(f, raw, ParseLegacy(f).value);
      InRangeIs(ParseLegacy(f).value);
    } else {
      NotLegacy(f, raw);
    }
  }

  /**
   The sender of a legacy transaction, EIP-155: `v` is 35 plus twice the chain id plus the parity, and signed are the
   first six fields, the chain id and two empty strings.
   */
  lemma {:induction false} SenderOfLegacy(keccak: Hash, recover: Recovery, f: seq<Item>, raw: Bytes, chainId: nat,
                                          sender: Bytes)
    requires Encode(List(f)) == Some(raw)
    ensures RecoverTransaction(keccak, recover, raw, chainId) == Ok((sender, 0)) <==>
              && IsLegacy(f)
              && exists parity: nat, x, body ::
                   && IsProtected(FromBytes(f[6].bytes), chainId, parity)
                   && InRange(parity, FromBytes(f[7].bytes), FromBytes(f[8].bytes))
                   && IsInteger(x, chainId) && Encode(List(f[..6] + [x, Str([]), Str([])])) == Some(body)
                   && recover(keccak(body), parity, FromBytes(f[7].bytes), FromBytes(f[8].bytes)) == Some(sender)
  {
    hide RecoverTransaction, Encode, FromBytes, IntBytes, IsInteger, Canonical, InRange;
    RecoverLegacy(keccak, recover, f, raw, chainId, sender);
    if IsLegacy(f) {
      SignedLegacy(keccak, recover, f, FromBytes(f[6].bytes), chainId, sender);
    }
  }

  lemma {:induction false} SignedLegacy(keccak: Hash, recover: Recovery, f: seq<Item>, v: nat, chainId: nat,
                                        sender: Bytes)
    requires IsLegacy(f)
    ensures v >= 35 && (v - 35) / 2 == chainId && RecoversLegacy(keccak, recover, f, v, sender) <==>
              exists parity: nat, x, body ::
                && IsProtected(v, chainId, parity)
                && InRange(parity, FromBytes(f[7].bytes), FromBytes(f[8].bytes))
                && IsInteger(x, chainId) && Encode(List(f[..6] + [x, Str([]), Str([])])) == Some(body)
                && recover(keccak(body), parity, FromBytes(f[7].bytes), FromBytes(f[8].bytes)) == Some(sender)
  {
    hide Encode, FromBytes, IntBytes, IsInteger, Canonical;
    IntegerIs(Str(IntBytes(chainId)), chainId);
    if parity: nat, x, body :|
      && IsProtected(v, chainId, parity) && InRange(parity, FromBytes(f[7].bytes), FromBytes(f[8].bytes))
      && IsInteger(x, chainId) && Encode(List(f[..6] + [x, Str([]), Str([])])) == Some(body)
      && recover(keccak(body), parity, FromBytes(f[7].bytes), FromBytes(f[8].bytes)) == Some(sender)
    {
      IntegerIs(x, chainId);
      ParityOf(v, chainId, parity);
    }
    if v >= 35 {
      ParityOf(v, chainId, (v - 35) % 2);
    }
  }

  lemma {:induction false} ParityOf(v: nat, chainId: nat, parity: nat)
    requires parity <= 1 && v >= 35
    ensures IsProtected(v, chainId, parity) <==> (v - 35) / 2 == chainId && (v - 35) % 2 == parity
  {
  }

  /** Every sender is recovered from one of the two. */
  lemma {:induction false} RecoveredFrom(keccak: Hash, recover: Recovery, raw: Bytes, chainId: nat)
    requires RecoverTransaction(keccak, recover, raw, chainId).Ok?
    ensures var kind := RecoverTransaction(keccak, recover, raw, chainId).value.1;
            || (kind == 2 && exists tx :: SignedRawTransaction(tx) == Ok(raw))
            || (kind == 0 && exists f :: Encode(List(f)) == Some(raw))
  {
    hide ParseDynamicFee, ParseLegacy, Encode, Decode;
    if raw[0] < 0x80 {
      EnvelopeCanonical(raw);
      assert SignedRawTransaction(RpcOf(ParseTransaction(raw).value.tx)) == Ok(raw);
    } else {
      assert Encode(List(ReadPayload(raw).value)) == Some(raw);
    }
  }
}
