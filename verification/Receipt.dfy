/** JSON-RPC receipts and their consensus encoding, `encode_rpc_receipt`. */
module Receipt {
  import opened Basics
  import opened BigEndian
  import opened Rlp
  import opened JsonRpcText
  import opened InclusionErrors
  import opened Bloom

  datatype RpcLog =
    | NotAnObject
    | RpcLog(address: Field, topics: Option<seq<Field>>, data: Field)

  /** The receipt fields the verifier reads; `logs` and `topics` are None when they are not arrays. */
  datatype RpcReceipt = RpcReceipt(
    kind: Field, status: Field, root: Field, cumulativeGasUsed: Field, logsBloom: Field, logs: Option<seq<RpcLog>>,
    transactionHash: Field, transactionIndex: Field, blockHash: Field, blockNumber: Field)

  /** What a transaction left behind: a status bit, or before Byzantium the state root. */
  datatype Outcome = Status(success: nat) | PostState(root: Bytes)

  /** The consensus content of a receipt. */
  datatype Content = Content(kind: nat, outcome: Outcome, gas: nat, bloom: Bytes, logs: seq<Log>)

  predicate ValidLog(log: Log) {
    |log.address| == 20 && forall t :: t in log.topics ==> |t| == 32
  }

  predicate ValidContent(c: Content) {
    && c.kind <= 0x7F
    && (match c.outcome
        case Status(s) => s <= 1
        case PostState(root) => |root| == 32)
    && |c.bloom| == 256
    && forall l :: l in c.logs ==> ValidLog(l)
  }

  function ParseKind(kind: Field): (r: Result<nat, InclusionError>)
    ensures r.Ok? ==> r.value <= 0x7F
  {
    var n :- Quantity(if kind == Missing then Text("0x0") else kind);
    if n > 0x7F then Err(ReceiptTypeTooLarge) else Ok(n)
  }

  function ParseOutcome(status: Field, root: Field): (r: Result<Outcome, InclusionError>)
    ensures r.Ok? ==> match r.value
                      case Status(s) => s <= 1
                      case PostState(b) => |b| == 32
  {
    if status != Missing && status != Null then
      var s :- Quantity(status);
      if s > 1 then Err(InvalidReceiptStatus) else Ok(Status(s))
    else if root != Missing && root != Null then
      var b :- HexBytes(root, Some(32));
      Ok(PostState(b))
    else
      Err(MissingStatusAndRoot)
  }

  function ParseLog(log: RpcLog): (r: Result<Log, InclusionError>)
    ensures r.Ok? ==> ValidLog(r.value)
  {
    if log.NotAnObject? then
      Err(MalformedReceipt)
    else
      var address :- HexBytes(log.address, Some(20));
      if log.topics.None? then
        Err(MalformedReceipt)
      else
        var topics :- HexBytesAll(log.topics.value, Some(32));
        var data :- HexBytes(log.data, None);
        Ok(Log(address, topics, data))
  }

  function ParseLogs(logs: seq<RpcLog>): (r: Result<seq<Log>, InclusionError>)
    ensures r.Ok? ==> forall l :: l in r.value ==> ValidLog(l)
    decreases |logs|
  {
    if logs == [] then
      Ok([])
    else
      var rest :- ParseLogs(logs[..|logs| - 1]);
      var last :- ParseLog(logs[|logs| - 1]);
      Ok(rest + [last])
  }

  /** The content of a receipt, with the logs' bloom checked against the stated one. */
  function ParseReceipt(keccak: Hash, r: RpcReceipt): (c: Result<Content, InclusionError>)
    ensures c.Ok? ==> ValidContent(c.value) && c.value.bloom == LogsBloom(keccak, c.value.logs)
  {
    var kind :- ParseKind(r.kind);
    var outcome :- ParseOutcome(r.status, r.root);
    var gas :- Quantity(r.cumulativeGasUsed);
    var bloom :- HexBytes(r.logsBloom, Some(256));
    if r.logs.None? then
      Err(MalformedReceipt)
    else
      var logs :- ParseLogs(r.logs.value);
      if LogsBloom(keccak, logs) != bloom then Err(BloomMismatch) else Ok(Content(kind, outcome, gas, bloom, logs))
  }

  // ----- the consensus encoding

  function OutcomeBytes(outcome: Outcome): Bytes {
    match outcome
    case Status(s) => IntBytes(s)
    case PostState(root) => root
  }

  function LogItem(log: Log): Item {
    List([Str(log.address), List(Strings(log.topics)), Str(log.data)])
  }

  function LogItems(logs: seq<Log>): (items: seq<Item>)
    ensures |items| == |logs| && forall i :: 0 <= i < |items| ==> items[i] == LogItem(logs[i])
  {
    seq(|logs|, i requires 0 <= i < |logs| => LogItem(logs[i]))
  }

  function ContentItem(c: Content): Item {
    List([Str(OutcomeBytes(c.outcome)), Str(IntBytes(c.gas)), Str(c.bloom), List(LogItems(c.logs))])
  }

  /** The EIP-2718 envelope: a type byte, absent for type 0, before the RLP of the content. */
  function Serialize(c: Content): Option<Bytes>
    requires c.kind <= 0x7F
  {
    var body :- Encode(ContentItem(c));
    Some((if c.kind == 0 then [] else [c.kind]) + body)
  }

  /** `encode_rpc_receipt` as a function: the encoding and the type. */
  function EncodeReceipt(keccak: Hash, r: RpcReceipt): Result<(Bytes, nat), InclusionError> {
    var c :- ParseReceipt(keccak, r);
    match Serialize(c)
    case None => Err(ReceiptTooLarge)
    case Some(raw) => Ok((raw, c.kind))
  }

  /** The log loop of `encode_rpc_receipt`: the parsed logs and their encodable form. */
  method EncodeLogs(rpcLogs: seq<RpcLog>) returns (r: Result<(seq<Log>, seq<Item>), InclusionError>)
    ensures r == var logs := ParseLogs(rpcLogs);
                 if logs.Err? then Err(logs.error) else Ok((logs.value, LogItems(logs.value)))
  {
    hide ParseLog, LogItem;
    var logs, encodedLogs := [], [];
    for i := 0 to |rpcLogs|
      invariant ParseLogs(rpcLogs[..i]) == Ok(logs)
      invariant encodedLogs == LogItems(logs)
    {
      assert rpcLogs[..i + 1][..i] == rpcLogs[..i];
      var log := ParseLog(rpcLogs[i]);
      if log.Err? {
        ParseLogsFails(rpcLogs, i);
        return Err(log.error);
      }
      logs := logs + [log.value];
      encodedLogs := encodedLogs + [LogItem(log.value)];
    }
    assert rpcLogs[..|rpcLogs|] == rpcLogs;
    return Ok((logs, encodedLogs));
  }

  /** `encode_rpc_receipt`. */
  method EncodeRpcReceipt(keccak: Hash, r: RpcReceipt) returns (result: Result<(Bytes, nat), InclusionError>)
    ensures result == EncodeReceipt(keccak, r)
  {
    hide Encode, LogsBloom, ParseKind, ParseOutcome, ParseLogs, Quantity, HexBytes, LogItems, OutcomeBytes, IntBytes;
    var kind :- ParseKind(r.kind);
    var outcome :- ParseOutcome(r.status, r.root);
    var gas :- Quantity(r.cumulativeGasUsed);
    var bloom :- HexBytes(r.logsBloom, Some(256));
    if r.logs.None? {
      return Err(MalformedReceipt);
    }
    var encoded :- EncodeLogs(r.logs.value);
    var (logs, encodedLogs) := encoded;
    var computed := ComputeLogsBloom(keccak, logs);
    if computed != bloom {
      return Err(BloomMismatch);
    }
    var body := Encode(List([Str(OutcomeBytes(outcome)), Str(IntBytes(gas)), Str(bloom), List(encodedLogs)]));
    if body.None? {
      return Err(ReceiptTooLarge);
    }
    return Ok(((if kind == 0 then [] else [kind]) + body.value, kind));
  }

  /** The first malformed log decides the error of the whole list. */
  lemma {:induction false} ParseLogsFails(logs: seq<RpcLog>, i: nat)
    requires i < |logs| && ParseLogs(logs[..i]).Ok? && ParseLog(logs[i]).Err?
    ensures ParseLogs(logs) == Err(ParseLog(logs[i]).error)
    decreases |logs|
  {
    if i < |logs| - 1 {
      assert logs[..|logs| - 1][..i] == logs[..i];
      ParseLogsFails(logs[..|logs| - 1], i);
    }
  }

  // ----- what the encoding pins down

  lemma {:induction false} LogItemInjective(a: Log, b: Log)
    requires LogItem(a) == LogItem(b)
    ensures a == b
  {
    var s, t := Strings(a.topics), Strings(b.topics);
    assert LogItem(a).items[1] == List(s) && LogItem(b).items[1] == List(t);
    assert LogItem(a).items[0] == Str(a.address) && LogItem(b).items[0] == Str(b.address);
    assert LogItem(a).items[2] == Str(a.data) && LogItem(b).items[2] == Str(b.data);
    forall i | 0 <= i < |a.topics|
      ensures a.topics[i] == b.topics[i]
    {
      assert s[i] == t[i];
    }
  }

  lemma {:induction false} ContentItemInjective(a: Content, b: Content)
    requires ValidContent(a) && ValidContent(b) && ContentItem(a) == ContentItem(b)
    ensures a.outcome == b.outcome && a.gas == b.gas && a.bloom == b.bloom && a.logs == b.logs
  {
    var x, y := ContentItem(a).items, ContentItem(b).items;
    assert x[0] == y[0] && x[1] == y[1] && x[2] == y[2] && x[3] == y[3];
    OutcomeBytesInjective(a.outcome, b.outcome);
    assert FromBytes(IntBytes(a.gas)) == a.gas && FromBytes(IntBytes(b.gas)) == b.gas;
    var s, t := LogItems(a.logs), LogItems(b.logs);
    forall i | 0 <= i < |a.logs|
      ensures a.logs[i] == b.logs[i]
    {
      assert s[i] == t[i];
      LogItemInjective(a.logs[i], b.logs[i]);
    }
  }

  lemma {:induction false} OutcomeBytesInjective(a: Outcome, b: Outcome)
    requires a.Status? ==> a.success <= 1
    requires b.Status? ==> b.success <= 1
    requires a.PostState? ==> |a.root| == 32
    requires b.PostState? ==> |b.root| == 32
    requires OutcomeBytes(a) == OutcomeBytes(b)
    ensures a == b
  {
    StatusIsShort(a);
    StatusIsShort(b);
    if a.Status? && b.Status? {
      assert FromBytes(IntBytes(a.success)) == FromBytes(IntBytes(b.success));
    }
  }

  lemma {:induction false} StatusIsShort(o: Outcome)
    requires o.Status? ==> o.success <= 1
    ensures o.Status? ==> |OutcomeBytes(o)| <= 1
  {
    if o.Status? {
      assert Pow256(1) == 256;
      CanonicalWidth(IntBytes(o.success), 1);
    }
  }

  /** Receipts with the same encoding have the same type, outcome, gas, bloom and logs. */
  lemma {:induction false} SerializeInjective(a: Content, b: Content)
    requires ValidContent(a) && ValidContent(b)
    requires Serialize(a).Some? && Serialize(a) == Serialize(b)
    ensures a == b
  {
    var x, y := Encode(ContentItem(a)).value, Encode(ContentItem(b)).value;
    var raw := Serialize(a).value;
    ListEncodingStarts(ContentItem(a).items);
    ListEncodingStarts(ContentItem(b).items);
    assert raw == (if a.kind == 0 then [] else [a.kind]) + x;
    assert raw == (if b.kind == 0 then [] else [b.kind]) + y;
    assert a.kind == if raw[0] >= 0xC0 then 0 else raw[0];
    assert b.kind == if raw[0] >= 0xC0 then 0 else raw[0];
    assert x == (if a.kind == 0 then raw else raw[1..]) == y;
    EncodeInjective(ContentItem(a), ContentItem(b));
    ContentItemInjective(a, b);
  }
}
