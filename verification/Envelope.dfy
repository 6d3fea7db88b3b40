/**
 Signed transaction envelopes: the EIP-1559 builder `signed_raw_transaction` and the parsing half of
 `_recover_transaction`, which reads type-2 and legacy transactions.
 */
module Envelope {
  import opened Basics
  import opened BigEndian
  import opened Rlp
  import opened InclusionErrors

  datatype AccessEntry = AccessEntry(address: Bytes, keys: seq<Bytes>)

  /** A signed transaction: its fields in the order in which they are encoded, of a legacy one those that are used. */
  datatype Transaction =
    | DynamicFee(chainId: nat, nonce: nat, priorityFee: nat, maxFee: nat, gasLimit: nat, to: Bytes, value: nat,
                 data: Bytes, accessList: seq<AccessEntry>, parity: nat, r: nat, s: nat)
    | Legacy(v: nat, r: nat, s: nat)

  // ----- building

  /** An RPC transaction object after `_int` and `_hex_bytes` have read its fields. */
  datatype RpcTransaction = RpcTransaction(
    kind: int, chainId: int, nonce: int, priorityFee: int, maxFee: int, gas: int, to: Option<Bytes>, value: int,
    input: Bytes, accessList: seq<AccessEntry>, parity: int, r: int, s: int)

  datatype BuildError = NotDynamicFee | NegativeInteger | TooLarge

  function EntryItem(e: AccessEntry): Item {
    List([Str(e.address), List(Strings(e.keys))])
  }

  /** `_access_list`. */
  function AccessItems(entries: seq<AccessEntry>): (items: seq<Item>)
    ensures |items| == |entries| && forall i :: 0 <= i < |items| ==> items[i] == EntryItem(entries[i])
  {
    seq(|entries|, i requires 0 <= i < |entries| => EntryItem(entries[i]))
  }

  /** The twelve fields of a signed type-2 transaction. */
  function AllFields(t: Transaction): (items: seq<Item>)
    requires t.DynamicFee?
    ensures |items| == 12
  {
    [Str(IntBytes(t.chainId)), Str(IntBytes(t.nonce)), Str(IntBytes(t.priorityFee)), Str(IntBytes(t.maxFee)),
     Str(IntBytes(t.gasLimit)), Str(t.to), Str(IntBytes(t.value)), Str(t.data), List(AccessItems(t.accessList)),
     Str(IntBytes(t.parity)), Str(IntBytes(t.r)), Str(IntBytes(t.s))]
  }

  /** The nine of them that are signed: all but the signature. */
  function SignedFields(t: Transaction): (items: seq<Item>)
    requires t.DynamicFee?
    ensures |items| == 9
  {
    [Str(IntBytes(t.chainId)), Str(IntBytes(t.nonce)), Str(IntBytes(t.priorityFee)), Str(IntBytes(t.maxFee)),
     Str(IntBytes(t.gasLimit)), Str(t.to), Str(IntBytes(t.value)), Str(t.data), List(AccessItems(t.accessList))]
  }

  predicate AnyNegative(tx: RpcTransaction) {
    || tx.chainId < 0 || tx.nonce < 0 || tx.priorityFee < 0 || tx.maxFee < 0 || tx.gas < 0
    || tx.value < 0 || tx.parity < 0 || tx.r < 0 || tx.s < 0
  }

  /** The transaction an RPC object denotes. */
  function Denoted(tx: RpcTransaction): (t: Transaction)
    requires !AnyNegative(tx)
    ensures t.DynamicFee?
  {
    DynamicFee(tx.chainId, tx.nonce, tx.priorityFee, tx.maxFee, tx.gas, if tx.to.Some? then tx.to.value else [],
               tx.value, tx.input, tx.accessList, tx.parity, tx.r, tx.s)
  }

  /** `signed_raw_transaction`. */
  function SignedRawTransaction(tx: RpcTransaction): Result<Bytes, BuildError> {
    if tx.kind != 2 then
      Err(NotDynamicFee)
    else if AnyNegative(tx) then
      Err(NegativeInteger)
    else
      match LocalRlp(List(AllFields(Denoted(tx))))
      case None => Err(TooLarge)
      case Some(raw) => Ok([2] + raw)
  }

  // ----- parsing

  /** `_rlp_int`. */
  function RlpInt(b: Bytes): (r: Result<nat, InclusionError>)
    ensures r.Ok? ==> IntBytes(r.value) == b
  {
    if b != [] && b[0] == 0 then
      Err(NonCanonicalInteger)
    else
      IntBytesOfValue(b);
      Ok(FromBytes(b))
  }

  predicate AllStrings(items: seq<Item>) {
    forall i :: 0 <= i < |items| ==> items[i].Str?
  }

  predicate ValidKeys(items: seq<Item>) {
    forall i :: 0 <= i < |items| ==> items[i].Str? && |items[i].bytes| == 32
  }

  predicate ValidEntryItem(x: Item) {
    x.List? && |x.items| == 2 && x.items[0].Str? && |x.items[0].bytes| == 20
    && x.items[1].List? && ValidKeys(x.items[1].items)
  }

  predicate ValidAccessItems(items: seq<Item>) {
    forall i :: 0 <= i < |items| ==> ValidEntryItem(items[i])
  }

  function ReadKeys(items: seq<Item>): (keys: seq<Bytes>)
    requires ValidKeys(items)
    ensures Strings(keys) == items
  {
    seq(|items|, i requires 0 <= i < |items| => items[i].bytes)
  }

  function ReadEntry(x: Item): (e: AccessEntry)
    requires ValidEntryItem(x)
    ensures EntryItem(e) == x
  {
    var e := AccessEntry(x.items[0].bytes, ReadKeys(x.items[1].items));
    assert x.items == [x.items[0], x.items[1]];
    e
  }

  function ReadEntries(items: seq<Item>): (entries: seq<AccessEntry>)
    requires ValidAccessItems(items)
    ensures AccessItems(entries) == items
  {
    seq(|items|, i requires 0 <= i < |items| => ReadEntry(items[i]))
  }

  /** The type-2 branch of `_recover_transaction`, up to the signature values. */
  function ParseDynamicFee(p: seq<Item>): (t: Result<Transaction, InclusionError>)
    ensures t.Ok? ==> t.value.DynamicFee?
  {
    if |p| != 12 || !AllStrings(p[..8]) || p[8].Str? || !AllStrings(p[9..]) then
      Err(MalformedDynamicFeeFields)
    else
      assert forall i :: 0 <= i < 8 ==> p[i] == p[..8][i];
      assert forall i :: 9 <= i < 12 ==> p[i] == p[9..][i - 9];
      var chainId :- RlpInt(p[0].bytes);
      var nonce :- RlpInt(p[1].bytes);
      var priorityFee :- RlpInt(p[2].bytes);
      var maxFee :- RlpInt(p[3].bytes);
      var gasLimit :- RlpInt(p[4].bytes);
      var value :- RlpInt(p[6].bytes);
      if chainId < 1 || maxFee < priorityFee then
        Err(InvalidDynamicFeeNumbers)
      else if |p[5].bytes| != 0 && |p[5].bytes| != 20 then
        Err(InvalidDestination)
      else if !ValidAccessItems(p[8].items) then
        Err(MalformedAccessList)
      else
        var parity :- RlpInt(p[9].bytes);
        var r :- RlpInt(p[10].bytes);
        var s :- RlpInt(p[11].bytes);
        Ok(DynamicFee(chainId, nonce, priorityFee, maxFee, gasLimit, p[5].bytes, value, p[7].bytes,
                      ReadEntries(p[8].items), parity, r, s))
  }

  /** The legacy branch; only replay-protected (EIP-155) transactions are read. */
  function ParseLegacy(p: seq<Item>): (t: Result<Transaction, InclusionError>)
    ensures t.Ok? ==> t.value.Legacy? && t.value.v >= 35
  {
    if |p| != 9 || !AllStrings(p) then
      Err(MalformedLegacyFields)
    else
      var _ :- RlpInt(p[0].bytes);
      var _ :- RlpInt(p[1].bytes);
      var _ :- RlpInt(p[2].bytes);
      var _ :- RlpInt(p[4].bytes);
      if |p[3].bytes| != 0 && |p[3].bytes| != 20 then
        Err(InvalidDestination)
      else
        var v :- RlpInt(p[6].bytes);
        if v < 35 then
          Err(UnprotectedLegacyTransaction)
        else
          var r :- RlpInt(p[7].bytes);
          var s :- RlpInt(p[8].bytes);
          Ok(Legacy(v, r, s))
  }

  /** The canonical RLP list inside an envelope. */
  function ReadPayload(raw: Bytes): Result<seq<Item>, InclusionError> {
    match Decode(raw)
    case None => Err(MalformedTransaction)
    case Some(payload) =>
      if payload.Str? || Encode(payload) != Some(raw) then Err(NonCanonicalTransaction) else Ok(payload.items)
  }

  /** A parsed transaction and the bytes whose hash was signed. */
  datatype Parsed = Parsed(tx: Transaction, signed: Bytes)

  function ParseTransaction(raw: Bytes): (r: Result<Parsed, InclusionError>)
    ensures r.Ok? && r.value.tx.Legacy? ==> r.value.tx.v >= 35
  {
    if raw == [] then
      Err(EmptyTransaction)
    else if raw[0] < 0x80 then
      if raw[0] != 2 then
        Err(UnsupportedTransactionType)
      else
        var p :- ReadPayload(raw[1..]);
        var t :- ParseDynamicFee(p);
        match Encode(List(p[..9]))
        case None => Err(MalformedTransaction)
        case Some(body) => Ok(Parsed(t, [2] + body))
    else
      var p :- ReadPayload(raw);
      var t :- ParseLegacy(p);
      match Encode(List(p[..6] + [Str(IntBytes((t.v - 35) / 2)), Str([]), Str([])]))
      case None => Err(MalformedTransaction)
      case Some(body) => Ok(Parsed(t, body))
  }

  // ----- recovering the sender

  const SECP256K1_N: nat := 115792089237316195423570985008687907852837564279074904382605163141518161494337

  /** Public-key recovery from (hash, parity, r, s); None when it fails. */
  type Recovery = (Bytes, nat, nat, nat) -> Option<Bytes>

  function ChainId(t: Transaction): nat
    requires t.Legacy? ==> t.v >= 35
  {
    if t.DynamicFee? then t.chainId else (t.v - 35) / 2
  }

  function Parity(t: Transaction): nat
    requires t.Legacy? ==> t.v >= 35
  {
    if t.DynamicFee? then t.parity else (t.v - 35) % 2
  }

  predicate SignatureInRange(t: Transaction)
    requires t.Legacy? ==> t.v >= 35
  {
    Parity(t) <= 1 && 0 < t.r < SECP256K1_N && 0 < t.s <= SECP256K1_N / 2
  }

  /** `_recover_transaction`: the sender's address and the transaction type. */
  function RecoverTransaction(keccak: Hash, recover: Recovery, raw: Bytes, expectedChainId: nat)
    : Result<(Bytes, nat), InclusionError>
  {
    var parsed :- ParseTransaction(raw);
    var t := parsed.tx;
    if ChainId(t) != expectedChainId then
      Err(ChainIdMismatch)
    else if !SignatureInRange(t) then
      Err(SignatureOutOfRange)
    else
      match recover(keccak(parsed.signed), Parity(t), t.r, t.s)
      case None => Err(SenderRecoveryFailed)
      case Some(sender) => Ok((sender, if t.DynamicFee? then 2 else 0))
  }

  // ----- building and parsing are inverse

  /** The numeric and width limits a type-2 transaction must meet. */
  predicate WithinLimits(t: Transaction)
    requires t.DynamicFee?
  {
    && 1 <= t.chainId && t.priorityFee <= t.maxFee
    && (|t.to| == 0 || |t.to| == 20)
    && forall i :: 0 <= i < |t.accessList| ==>
         |t.accessList[i].address| == 20 && forall k :: k in t.accessList[i].keys ==> |k| == 32
  }

  lemma {:induction false} IntegerRoundTrip(n: nat)
    ensures RlpInt(IntBytes(n)) == Ok(n)
  {
  }

  lemma {:induction false} AccessItemsValid(entries: seq<AccessEntry>)
    ensures ValidAccessItems(AccessItems(entries))
       <==> forall i :: 0 <= i < |entries| ==>
              |entries[i].address| == 20 && forall k :: k in entries[i].keys ==> |k| == 32
  {
    forall i | 0 <= i < |entries|
      ensures ValidEntryItem(AccessItems(entries)[i])
         <==> |entries[i].address| == 20 && forall k :: k in entries[i].keys ==> |k| == 32
    {
      var keys := entries[i].keys;
      assert AccessItems(entries)[i] == EntryItem(entries[i]);
      assert EntryItem(entries[i]).items[1] == List(Strings(keys));
      assert forall j :: 0 <= j < |keys| ==> Strings(keys)[j] == Str(keys[j]) && keys[j] in keys;
    }
  }

  lemma {:induction false} AccessItemsInjective(a: seq<AccessEntry>, b: seq<AccessEntry>)
    requires AccessItems(a) == AccessItems(b)
    ensures a == b
  {
    forall i | 0 <= i < |a|
      ensures a[i] == b[i]
    {
      var x, y := AccessItems(a)[i], AccessItems(b)[i];
      assert x.items[0] == y.items[0] && x.items[1] == y.items[1];
      assert Strings(a[i].keys) == Strings(b[i].keys);
      forall j | 0 <= j < |a[i].keys|
        ensures a[i].keys[j] == b[i].keys[j]
      {
        assert Strings(a[i].keys)[j] == Strings(b[i].keys)[j];
      }
    }
  }

  /** What parsing makes of twelve items that spell out the fields of `t`. */
  lemma {:induction false} ParseSpelledOut(t: Transaction, p: seq<Item>)
    requires t.DynamicFee? && |p| == 12 && AllStrings(p[..8]) && AllStrings(p[9..])
    requires p[0] == Str(IntBytes(t.chainId)) && p[1] == Str(IntBytes(t.nonce))
    requires p[2] == Str(IntBytes(t.priorityFee)) && p[3] == Str(IntBytes(t.maxFee))
    requires p[4] == Str(IntBytes(t.gasLimit)) && p[5] == Str(t.to)
    requires p[6] == Str(IntBytes(t.value)) && p[7] == Str(t.data)
    requires p[8] == List(AccessItems(t.accessList)) && p[9] == Str(IntBytes(t.parity))
    requires p[10] == Str(IntBytes(t.r)) && p[11] == Str(IntBytes(t.s))
    ensures ParseDynamicFee(p)
         == if t.chainId < 1 || t.maxFee < t.priorityFee then Err(InvalidDynamicFeeNumbers)
            else if |t.to| != 0 && |t.to| != 20 then Err(InvalidDestination)
            else if !ValidAccessItems(AccessItems(t.accessList)) then Err(MalformedAccessList)
            else Ok(t.(accessList := ReadEntries(AccessItems(t.accessList))))
  {
    IntegerRoundTrip(t.chainId);
    IntegerRoundTrip(t.nonce);
    IntegerRoundTrip(t.priorityFee);
    IntegerRoundTrip(t.maxFee);
    IntegerRoundTrip(t.gasLimit);
    IntegerRoundTrip(t.value);
    IntegerRoundTrip(t.parity);
    IntegerRoundTrip(t.r);
    IntegerRoundTrip(t.s);
    hide IntBytes, RlpInt, AccessItems, ValidAccessItems, ReadEntries, AllStrings;
  }

  lemma {:induction false} FieldsSpelledOut(t: Transaction)
    requires t.DynamicFee?
    ensures ParseDynamicFee(AllFields(t))
         == if t.chainId < 1 || t.maxFee < t.priorityFee then Err(InvalidDynamicFeeNumbers)
            else if |t.to| != 0 && |t.to| != 20 then Err(InvalidDestination)
            else if !ValidAccessItems(AccessItems(t.accessList)) then Err(MalformedAccessList)
            else Ok(t.(accessList := ReadEntries(AccessItems(t.accessList))))
  {
    hide IntBytes, ParseDynamicFee, AccessItems, ValidAccessItems, ReadEntries;
    ParseSpelledOut(t, AllFields(t));
  }

  /** The twelve encoded fields are read back exactly when the limits are met. */
  lemma {:induction false} FieldsRoundTrip(t: Transaction)
    requires t.DynamicFee?
    ensures ParseDynamicFee(AllFields(t)) == Ok(t) <==> WithinLimits(t)
    ensures ParseDynamicFee(AllFields(t)).Ok? <==> WithinLimits(t)
  {
    hide ParseDynamicFee, AllFields, AccessItems, ValidAccessItems, ReadEntries;
    FieldsSpelledOut(t);
    AccessItemsValid(t.accessList);
    if ValidAccessItems(AccessItems(t.accessList)) {
      AccessItemsInjective(ReadEntries(AccessItems(t.accessList)), t.accessList);
    }
  }

  /** Fields that were read are the encoding of what was read. */
  lemma {:induction false} FieldsCanonical(p: seq<Item>)
    requires ParseDynamicFee(p).Ok?
    ensures ParseDynamicFee(p).value.DynamicFee? && AllFields(ParseDynamicFee(p).value) == p
  {
    hide ParseDynamicFee, IntBytes, AccessItems;
    FieldsRead(p);
    assert p == [p[0], p[1], p[2], p[3], p[4], p[5], p[6], p[7], p[8], p[9], p[10], p[11]];
  }

  lemma {:induction false} FieldsRead(p: seq<Item>)
    requires ParseDynamicFee(p).Ok?
    ensures var t := ParseDynamicFee(p).value;
            && |p| == 12 && t.DynamicFee?
            && p[0] == Str(IntBytes(t.chainId)) && p[1] == Str(IntBytes(t.nonce))
            && p[2] == Str(IntBytes(t.priorityFee)) && p[3] == Str(IntBytes(t.maxFee))
            && p[4] == Str(IntBytes(t.gasLimit)) && p[5] == Str(t.to)
            && p[6] == Str(IntBytes(t.value)) && p[7] == Str(t.data)
            && p[8] == List(AccessItems(t.accessList)) && p[9] == Str(IntBytes(t.parity))
            && p[10] == Str(IntBytes(t.r)) && p[11] == Str(IntBytes(t.s))
  {
    hide IntBytes, RlpInt, AccessItems, ValidAccessItems, ReadEntries;
    assert AllStrings(p[..8]) && AllStrings(p[9..]);
    assert forall i :: 0 <= i < 8 ==> p[i] == p[..8][i] && p[i].Str?;
    assert forall i :: 9 <= i < 12 ==> p[i] == p[9..][i - 9] && p[i].Str?;
    hide AllStrings;
  }

  /**
   The envelope of a transaction is parsed exactly when the transaction meets the limits, and then as
   type 2 with the same twelve fields, signed over 0x02 and the encoding of the first nine.
   */
  lemma {:induction false} EnvelopeRoundTrip(tx: RpcTransaction)
    requires SignedRawTransaction(tx).Ok?
    ensures var parsed := ParseTransaction(SignedRawTransaction(tx).value);
            && (parsed.Ok? <==> WithinLimits(Denoted(tx)))
            && (parsed.Ok? ==> Encode(List(SignedFields(Denoted(tx)))).Some?
                               && parsed.value == Parsed(Denoted(tx),
                                                         [2] + Encode(List(SignedFields(Denoted(tx)))).value))
  {
    hide Encode, LocalRlp, Decode, ParseDynamicFee, WithinLimits;
    var t := Denoted(tx);
    var p := AllFields(t);
    LocalRlpIsEncode(List(p));
    var body := Encode(List(p)).value;
    Canonicity(body, List(p));
    PrefixEncodes(p, 9);
    FieldsRoundTrip(t);
    assert p[..9] == SignedFields(t);
    hide SignedFields, AllFields;
    var raw := SignedRawTransaction(tx).value;
    assert raw[0] == 2 && raw[1..] == body;
  }

  /** The RPC object of a parsed type-2 transaction. */
  function RpcOf(t: Transaction): RpcTransaction
    requires t.DynamicFee?
  {
    RpcTransaction(2, t.chainId, t.nonce, t.priorityFee, t.maxFee, t.gasLimit, Some(t.to), t.value, t.data,
                   t.accessList, t.parity, t.r, t.s)
  }

  /** Conversely, bytes parsed as type 2 are the envelope of exactly what was parsed, within the limits. */
  lemma {:induction false} EnvelopeCanonical(raw: Bytes)
    requires ParseTransaction(raw).Ok? && raw[0] < 0x80
    ensures var t := ParseTransaction(raw).value.tx;
            t.DynamicFee? && WithinLimits(t) && SignedRawTransaction(RpcOf(t)) == Ok(raw)
  {
    hide Encode, LocalRlp, Decode, ParseDynamicFee, WithinLimits, AllFields;
    var p := ReadPayload(raw[1..]).value;
    var t := ParseTransaction(raw).value.tx;
    FieldsCanonical(p);
    FieldsRoundTrip(t);
    LocalRlpIsEncode(List(p));
    assert Denoted(RpcOf(t)) == t;
    assert Encode(List(p)) == Some(raw[1..]);
    assert raw == [2] + raw[1..];
  }
}
