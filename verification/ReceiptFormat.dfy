/**
 The wire format of a receipt: what stands where in the bytes that `encode_rpc_receipt` makes of a JSON-RPC receipt,
 field by field.
 */
module ReceiptFormat {
  import opened Basics
  import opened BigEndian
  import opened Rlp
  import opened JsonRpcText
  import opened Bloom
  import opened Receipt

  /** A status of 0 is the empty string, of 1 the byte 1; without a status there is the 32-byte state root. */
  predicate IsOutcome(r: RpcReceipt, b: Bytes) {
    if r.status != Missing && r.status != Null then
      (Quantity(r.status) == Ok(0) && b == []) || (Quantity(r.status) == Ok(1) && b == [1])
    else HexBytes(r.root, Some(32)) == Ok(b)
  }

  predicate IsTopic(x: Item, topic: Field) {
    x.Str? && HexBytes(topic, Some(32)) == Ok(x.bytes)
  }

  /** Address, topics and data. */
  predicate IsLog(x: Item, log: RpcLog) {
    && log.RpcLog? && log.topics.Some?
    && x.List? && |x.items| == 3 && x.items[0].Str? && x.items[1].List? && x.items[2].Str?
    && HexBytes(log.address, Some(20)) == Ok(x.items[0].bytes)
    && |x.items[1].items| == |log.topics.value|
    && (forall j :: 0 <= j < |log.topics.value| ==> IsTopic(x.items[1].items[j], log.topics.value[j]))
    && HexBytes(log.data, None) == Ok(x.items[2].bytes)
  }

  /** Status or root, cumulative gas, bloom and logs. */
  predicate IsBody(r: RpcReceipt, items: seq<Item>) {
    && |items| == 4
    && items[0].Str? && IsOutcome(r, items[0].bytes)
    && items[1].Str? && Canonical(items[1].bytes) && Quantity(r.cumulativeGasUsed) == Ok(FromBytes(items[1].bytes))
    && items[2].Str? && HexBytes(r.logsBloom, Some(256)) == Ok(items[2].bytes)
    && r.logs.Some? && items[3].List? && |items[3].items| == |r.logs.value|
    && forall i :: 0 <= i < |r.logs.value| ==> IsLog(items[3].items[i], r.logs.value[i])
  }

  lemma {:induction false} TopicsAre(fields: seq<Field>)
    ensures HexBytesAll(fields, Some(32)).Ok? <==>
              forall j :: 0 <= j < |fields| ==> HexBytes(fields[j], Some(32)).Ok?
    ensures HexBytesAll(fields, Some(32)).Ok? ==>
              var topics := HexBytesAll(fields, Some(32)).value;
              |topics| == |fields| && forall j :: 0 <= j < |fields| ==> HexBytes(fields[j], Some(32)) == Ok(topics[j])
  {
    hide HexBytes;
    if fields != [] {
      TopicsAre(fields[1..]);
      assert forall j :: 1 <= j < |fields| ==> fields[j] == fields[1..][j - 1];
    }
  }

  lemma {:induction false} TopicItemsAre(items: seq<Item>, fields: seq<Field>)
    ensures |items| == |fields| && (forall j :: 0 <= j < |fields| ==> IsTopic(items[j], fields[j]))
       <==> HexBytesAll(fields, Some(32)).Ok? && items == Strings(HexBytesAll(fields, Some(32)).value)
  {
    TopicsAre(fields);
    hide HexBytes, HexBytesAll;
    if |items| == |fields| && (forall j :: 0 <= j < |fields| ==> IsTopic(items[j], fields[j])) {
      assert items == Strings(HexBytesAll(fields, Some(32)).value);
    }
  }

  /** The item of a log, and no other, is what the format asks for. */
  lemma {:induction false} LogIs(x: Item, log: RpcLog)
    ensures IsLog(x, log) <==> ParseLog(log).Ok? && x == LogItem(ParseLog(log).value)
  {
    hide HexBytes, HexBytesAll, Strings, IsTopic;
    if log.RpcLog? && log.topics.Some? && x.List? && |x.items| == 3 && x.items[1].List? {
      TopicItemsAre(x.items[1].items, log.topics.value);
      assert x.items == [x.items[0], x.items[1], x.items[2]];
    }
    if ParseLog(log).Ok? {
      TopicItemsAre(Strings(ParseLog(log).value.topics), log.topics.value);
    }
  }

  lemma {:induction false} LogsAre(logs: seq<RpcLog>)
    ensures ParseLogs(logs).Ok? <==> forall i :: 0 <= i < |logs| ==> ParseLog(logs[i]).Ok?
    ensures ParseLogs(logs).Ok? ==>
              var parsed := ParseLogs(logs).value;
              |parsed| == |logs| && forall i :: 0 <= i < |logs| ==> ParseLog(logs[i]) == Ok(parsed[i])
    decreases |logs|
  {
    hide ParseLog;
    if logs != [] {
      LogsAre(logs[..|logs| - 1]);
      assert forall i :: 0 <= i < |logs| - 1 ==> logs[i] == logs[..|logs| - 1][i];
    }
  }

  lemma {:induction false} LogItemsAre(items: seq<Item>, logs: seq<RpcLog>)
    ensures |items| == |logs| && (forall i :: 0 <= i < |logs| ==> IsLog(items[i], logs[i]))
       <==> ParseLogs(logs).Ok? && items == LogItems(ParseLogs(logs).value)
  {
    hide ParseLog, ParseLogs, IsLog, LogItem;
    LogsAre(logs);
    forall i | 0 <= i < |logs| && i < |items|
      ensures IsLog(items[i], logs[i]) <==> ParseLog(logs[i]).Ok? && items[i] == LogItem(ParseLog(logs[i]).value)
    {
      LogIs(items[i], logs[i]);
    }
    if |items| == |logs| && (forall i :: 0 <= i < |logs| ==> IsLog(items[i], logs[i])) {
      assert items == LogItems(ParseLogs(logs).value);
    }
  }

  lemma {:induction false} OutcomeIs(r: RpcReceipt, b: Bytes)
    ensures IsOutcome(r, b) <==>
              ParseOutcome(r.status, r.root).Ok? && b == OutcomeBytes(ParseOutcome(r.status, r.root).value)
  {
    assert HexBytes(Missing, Some(32)).Err? && HexBytes(Null, Some(32)).Err?;
    hide Quantity, HexBytes, IntBytes;
    StatusBytes(0);
    StatusBytes(1);
  }

  lemma {:induction false} StatusBytes(s: nat)
    requires s <= 1
    ensures IntBytes(s) == if s == 0 then [] else [1]
  {
    assert [1][..0] == [];
    assert FromBytes([1]) == 1;
    IntBytesOfValue([1]);
    IntBytesOfValue([]);
    hide IntBytes;
  }

  lemma {:induction false} GasIs(r: RpcReceipt, b: Bytes)
    ensures Canonical(b) && Quantity(r.cumulativeGasUsed) == Ok(FromBytes(b)) <==>
              Quantity(r.cumulativeGasUsed).Ok? && b == IntBytes(Quantity(r.cumulativeGasUsed).value)
  {
    hide Quantity, IntBytes, FromBytes;
    if Canonical(b) {
      IntBytesOfValue(b);
    }
  }

  /** The logs of a receipt, read. */
  predicate AreLogs(r: RpcReceipt, logs: seq<Log>) {
    r.logs.Some? && ParseLogs(r.logs.value) == Ok(logs)
  }

  lemma {:induction false} BodyIs(keccak: Hash, r: RpcReceipt, items: seq<Item>, logs: seq<Log>)
    requires AreLogs(r, logs)
    ensures IsBody(r, items) && items[2].bytes == LogsBloom(keccak, logs) <==>
              && ParseOutcome(r.status, r.root).Ok? && Quantity(r.cumulativeGasUsed).Ok?
              && HexBytes(r.logsBloom, Some(256)) == Ok(LogsBloom(keccak, logs))
              && items == [Str(OutcomeBytes(ParseOutcome(r.status, r.root).value)),
                           Str(IntBytes(Quantity(r.cumulativeGasUsed).value)),
                           Str(LogsBloom(keccak, logs)), List(LogItems(logs))]
  {
    hide IsLog, LogItems, ParseLogs, Quantity, HexBytes, LogsBloom, IntBytes, FromBytes, IsOutcome, OutcomeBytes;
    hide ParseOutcome;
    if |items| == 4 && items[0].Str? && items[1].Str? && items[2].Str? && items[3].List? {
      OutcomeIs(r, items[0].bytes);
      GasIs(r, items[1].bytes);
      LogItemsAre(items[3].items, r.logs.value);
      assert items == [items[0], items[1], items[2], items[3]];
    }
  }

  /**
   The encoding of a receipt, exactly: its type must fit a byte and its bloom be that of its logs; then there is a type
   byte unless the type is 0, and behind it the RLP of the four fields of the body.
   */
  lemma {:induction false} EncodedReceipt(keccak: Hash, r: RpcReceipt, raw: Bytes, kind: nat)
    ensures EncodeReceipt(keccak, r) == Ok((raw, kind)) <==>
              && Quantity(if r.kind == Missing then Text("0x0") else r.kind) == Ok(kind) && kind <= 0x7F
              && exists items: seq<Item>, body, logs ::
                   && AreLogs(r, logs) && IsBody(r, items) && items[2].bytes == LogsBloom(keccak, logs)
                   && Encode(List(items)) == Some(body) && raw == (if kind == 0 then [] else [kind]) + body
  {
    hide Encode, IsLog, IsOutcome, Quantity, HexBytes, ParseOutcome, ParseLogs, LogsBloom, LogItems, OutcomeBytes;
    hide IntBytes, FromBytes;
    if EncodeReceipt(keccak, r).Ok? {
      var c := ParseReceipt(keccak, r).value;
      BodyIs(keccak, r, ContentItem(c).items, c.logs);
    }
    if items: seq<Item>, body, logs :|
      && AreLogs(r, logs) && IsBody(r, items) && items[2].bytes == LogsBloom(keccak, logs)
      && Encode(List(items)) == Some(body) && raw == (if kind == 0 then [] else [kind]) + body
    {
      BodyIs(keccak, r, items, logs);
    }
  }
}
