/**
 Recursive Length Prefix, after Appendix B of the Ethereum Yellow Paper.

 `Encode` and `Decode` stand for `rlp.encode` and `rlp.decode(..., strict=True)` of the `rlp`
 package, which is not part of this model's source; `LocalRlp` is the repository's own `_rlp`.
 The two encoders differ only where the Yellow Paper leaves an encoding undefined, at 2^64 bytes.
 */
module Rlp {
  import opened Basics
  import opened BigEndian

  datatype Item = Str(bytes: Bytes) | List(items: seq<Item>)

  function Strings(values: seq<Bytes>): (items: seq<Item>)
    ensures |items| == |values| && forall i :: 0 <= i < |items| ==> items[i] == Str(values[i])
  {
    seq(|values|, i requires 0 <= i < |values| => Str(values[i]))
  }

  const TWO_TO_THE_64: nat := 0x1_0000_0000_0000_0000

  lemma {:induction false} LimitIsEightBytes()
    ensures Pow256(8) == TWO_TO_THE_64
  {
    assert Pow256(4) == 0x1_0000_0000;
  }

  // ----- encoding

  /** The prefix of a payload of `n` bytes; `base` is 0x80 for strings and 0xC0 for lists. */
  function Header(base: Byte, n: nat): (h: Option<Bytes>)
    requires base == 0x80 || base == 0xC0
    ensures h.Some? <==> n < TWO_TO_THE_64
  {
    if n <= 55 then
      Some([base + n])
    else if n < TWO_TO_THE_64 then
      var length := IntBytes(n);
      LimitIsEightBytes();
      CanonicalWidth(length, 8);
      Some([base + 55 + |length|] + length)
    else
      None
  }

  function Encode(x: Item): Option<Bytes> {
    match x
    case Str(b) =>
      if |b| == 1 && b[0] < 0x80 then
        Some(b)
      else
        var header :- Header(0x80, |b|);
        Some(header + b)
    case List(items) =>
      var payload :- EncodeItems(items);
      var header :- Header(0xC0, |payload|);
      Some(header + payload)
  }

  function EncodeItems(items: seq<Item>): Option<Bytes> {
    if items == [] then
      Some([])
    else
      var first :- Encode(items[0]);
      var rest :- EncodeItems(items[1..]);
      Some(first + rest)
  }

  // ----- decoding

  /** Where the payload of the first item lies, and whether that item is a list. */
  datatype Frame = Frame(isList: bool, start: nat, end: nat)

  /** The first item's frame; None when the prefix is truncated or not the shortest one. */
  function ReadFrame(raw: Bytes): (f: Option<Frame>)
    ensures f.Some? ==> f.value.start <= f.value.end <= |raw| && 0 < f.value.end
    ensures f.Some? && f.value.isList ==> 0 < f.value.start
  {
    if raw == [] then
      None
    else if raw[0] < 0x80 then
      Some(Frame(false, 0, 1))
    else if raw[0] <= 0xB7 then
      var n := raw[0] - 0x80;
      if 1 + n > |raw| || (n == 1 && raw[1] < 0x80) then None else Some(Frame(false, 1, 1 + n))
    else if raw[0] <= 0xBF then
      ReadLongFrame(raw, raw[0] - 0xB7, false)
    else if raw[0] <= 0xF7 then
      var n := raw[0] - 0xC0;
      if 1 + n > |raw| then None else Some(Frame(true, 1, 1 + n))
    else
      ReadLongFrame(raw, raw[0] - 0xF7, true)
  }

  function ReadLongFrame(raw: Bytes, width: nat, isList: bool): (f: Option<Frame>)
    requires raw != [] && 1 <= width
    ensures f.Some? ==> 0 < f.value.start <= f.value.end <= |raw| && f.value.isList == isList
  {
    if 1 + width > |raw| || raw[1] == 0 then
      None
    else
      var n := FromBytes(raw[1..1 + width]);
      if n <= 55 || 1 + width + n > |raw| then None else Some(Frame(isList, 1 + width, 1 + width + n))
  }

  /** The first item of `raw` and the bytes after it. */
  function DecodeFirst(raw: Bytes): (r: Option<(Item, Bytes)>)
    ensures r.Some? ==> |r.value.1| < |raw|
    decreases |raw|, 0
  {
    var f :- ReadFrame(raw);
    if f.isList then
      var items :- DecodeItems(raw[f.start..f.end]);
      Some((List(items), raw[f.end..]))
    else
      Some((Str(raw[f.start..f.end]), raw[f.end..]))
  }

  function DecodeItems(payload: Bytes): Option<seq<Item>>
    decreases |payload|, 1
  {
    if payload == [] then
      Some([])
    else
      var (first, rest) :- DecodeFirst(payload);
      var others :- DecodeItems(rest);
      Some([first] + others)
  }

  /** Strict decoding: nothing may follow the item. */
  function Decode(raw: Bytes): Option<Item> {
    var (item, rest) :- DecodeFirst(raw);
    if rest == [] then Some(item) else None
  }

  // ----- the codec

  lemma {:induction false} HeaderWidth(n: nat)
    requires 55 < n < TWO_TO_THE_64
    ensures 1 <= |IntBytes(n)| <= 8
  {
    LimitIsEightBytes();
    CanonicalWidth(IntBytes(n), 8);
    CanonicalWidth(IntBytes(n), 0);
  }

  lemma {:induction false} LongFrameOfHeader(first: Byte, length: Bytes, payload: Bytes, rest: Bytes, isList: bool)
    requires length == IntBytes(|payload|) && 1 <= |length| && 55 < |payload|
    ensures ReadLongFrame([first] + length + payload + rest, |length|, isList)
         == Some(Frame(isList, 1 + |length|, 1 + |length| + |payload|))
  {
    var raw := [first] + length + payload + rest;
    assert raw[1..1 + |length|] == length;
    assert raw[1] == length[0];
  }

  lemma {:induction false} FrameOfHeader(base: Byte, payload: Bytes, rest: Bytes)
    requires base == 0x80 || base == 0xC0
    requires |payload| < TWO_TO_THE_64
    requires !(base == 0x80 && |payload| == 1 && payload[0] < 0x80)
    ensures var h := Header(base, |payload|).value;
            ReadFrame(h + payload + rest) == Some(Frame(base == 0xC0, |h|, |h| + |payload|))
  {
    hide FromBytes, IntBytes, BitLength, Pow256;
    var raw := Header(base, |payload|).value + payload + rest;
    if |payload| <= 55 {
      assert raw[0] == base + |payload|;
      if |payload| == 1 {
        assert raw[1] == payload[0];
      }
    } else {
      var length := IntBytes(|payload|);
      HeaderWidth(|payload|);
      assert Header(base, |payload|).value == [base + 55 + |length|] + length;
      LongFrameOfHeader(base + 55 + |length|, length, payload, rest, base == 0xC0);
      assert raw[0] == base + 55 + |length|;
    }
  }

  /** Decoding what was encoded gives it back, and leaves what follows untouched. */
  lemma {:induction false} DecodeEncode(x: Item, rest: Bytes)
    requires Encode(x).Some?
    ensures DecodeFirst(Encode(x).value + rest) == Some((x, rest))
    decreases x, 0
  {
    var raw := Encode(x).value + rest;
    match x
    case Str(b) =>
      if |b| == 1 && b[0] < 0x80 {
        assert raw[0..1] == b && raw[1..] == rest;
      } else {
        FrameOfHeader(0x80, b, rest);
        var h := Header(0x80, |b|).value;
        assert raw == h + b + rest;
        assert raw[|h|..|h| + |b|] == b && raw[|h| + |b|..] == rest;
      }
    case List(items) =>
      var payload := EncodeItems(items).value;
      DecodeEncodeItems(items);
      FrameOfHeader(0xC0, payload, rest);
      var h := Header(0xC0, |payload|).value;
      assert raw == h + payload + rest;
      assert raw[|h|..|h| + |payload|] == payload && raw[|h| + |payload|..] == rest;
  }

  lemma {:induction false} DecodeEncodeItems(items: seq<Item>)
    requires EncodeItems(items).Some?
    ensures DecodeItems(EncodeItems(items).value) == Some(items)
    decreases items, 1
  {
    if items != [] {
      var first, others := Encode(items[0]).value, EncodeItems(items[1..]).value;
      DecodeEncode(items[0], others);
      DecodeEncodeItems(items[1..]);
      assert DecodeFirst(first + others) == Some((items[0], others));
      assert items == [items[0]] + items[1..];
    }
  }

  lemma {:induction false} StringFrameEncodes(raw: Bytes)
    requires ReadFrame(raw).Some? && !ReadFrame(raw).value.isList
    ensures var f := ReadFrame(raw).value;
            Encode(Str(raw[f.start..f.end])) == Some(raw[..f.end])
  {
    hide ReadFrame, Header, EncodeItems;
    FrameIsHeader(raw);
    var f := ReadFrame(raw).value;
    var payload := raw[f.start..f.end];
    assert raw[..f.end] == raw[..f.start] + payload;
    assert payload != [] ==> payload[0] == raw[f.start];
  }

  lemma {:induction false} ListFrameEncodes(raw: Bytes, items: seq<Item>)
    requires ReadFrame(raw).Some? && ReadFrame(raw).value.isList
    requires var f := ReadFrame(raw).value;
             EncodeItems(items) == Some(raw[f.start..f.end])
    ensures Encode(List(items)) == Some(raw[..ReadFrame(raw).value.end])
  {
    hide ReadFrame, Header, EncodeItems;
    FrameIsHeader(raw);
    var f := ReadFrame(raw).value;
    assert raw[..f.end] == raw[..f.start] + raw[f.start..f.end];
  }

  /** Every accepted byte string is the one encoding of the item it decodes to. */
  lemma {:induction false} EncodeDecode(raw: Bytes)
    requires DecodeFirst(raw).Some?
    ensures var (x, rest) := DecodeFirst(raw).value;
            Encode(x).Some? && raw == Encode(x).value + rest
    decreases |raw|, 0
  {
    hide ReadFrame, Encode;
    var f := ReadFrame(raw).value;
    assert raw == raw[..f.end] + raw[f.end..];
    if f.isList {
      EncodeDecodeItems(raw[f.start..f.end]);
      ListFrameEncodes(raw, DecodeItems(raw[f.start..f.end]).value);
    } else {
      StringFrameEncodes(raw);
    }
  }

  lemma {:induction false} EncodeDecodeItems(payload: Bytes)
    requires DecodeItems(payload).Some?
    ensures EncodeItems(DecodeItems(payload).value) == Some(payload)
    decreases |payload|, 1
  {
    if payload != [] {
      EncodeDecode(payload);
      EncodeDecodeItems(DecodeFirst(payload).value.1);
    }
  }

  lemma {:induction false} LongFrameIsHeader(raw: Bytes, width: nat, isList: bool)
    requires raw != [] && 1 <= width <= 8
    requires ReadLongFrame(raw, width, isList).Some?
    ensures var f := ReadLongFrame(raw, width, isList).value;
            var n := f.end - f.start;
            f.start == 1 + width && 55 < n < TWO_TO_THE_64 && IntBytes(n) == raw[1..1 + width]
  {
    hide FromBytes, IntBytes, Pow256;
    var length := raw[1..1 + width];
    IntBytesOfValue(length);
    ValueBounds(length);
    PowMonotone(width, 8);
    LimitIsEightBytes();
  }

  lemma {:induction false} FrameIsHeader(raw: Bytes)
    requires ReadFrame(raw).Some?
    ensures var f := ReadFrame(raw).value;
            var n := f.end - f.start;
            if f.start == 0 then !f.isList && n == 1 && raw[0] < 0x80
            else
              && Header(if f.isList then 0xC0 else 0x80, n) == Some(raw[..f.start])
              && !(!f.isList && n == 1 && raw[f.start] < 0x80)
  {
    hide FromBytes, IntBytes, BitLength, Pow256;
    var f := ReadFrame(raw).value;
    if 0x80 <= raw[0] <= 0xB7 || 0xC0 <= raw[0] <= 0xF7 {
      assert raw[..1] == [raw[0]];
    } else if 0x80 <= raw[0] {
      var width := raw[0] - if f.isList then 0xF7 else 0xB7;
      LongFrameIsHeader(raw, width, f.isList);
      assert raw[..1 + width] == [raw[0]] + raw[1..1 + width];
    }
  }

  /** An item is the decoding of a byte string exactly when the byte string is the item's encoding. */
  lemma {:induction false} Canonicity(raw: Bytes, x: Item)
    ensures Decode(raw) == Some(x) <==> Encode(x) == Some(raw)
  {
    if Decode(raw) == Some(x) {
      EncodeDecode(raw);
      assert Encode(x).value + [] == Encode(x).value;
    }
    if Encode(x) == Some(raw) {
      DecodeEncode(x, []);
      assert raw + [] == raw;
    }
  }

  /** No encoding is a proper prefix of another; in particular, encodings differ for different items. */
  lemma {:induction false} PrefixFree(x: Item, y: Item, xRest: Bytes, yRest: Bytes)
    requires Encode(x).Some? && Encode(y).Some?
    requires Encode(x).value + xRest == Encode(y).value + yRest
    ensures x == y && xRest == yRest
  {
    DecodeEncode(x, xRest);
    DecodeEncode(y, yRest);
  }

  lemma {:induction false} EncodeInjective(x: Item, y: Item)
    requires Encode(x).Some? && Encode(x) == Encode(y)
    ensures x == y
  {
    PrefixFree(x, y, [], []);
  }

  /** An item inside an encoded list is encodable, and takes less space than the list. */
  lemma {:induction false} PartIsShorter(items: seq<Item>, i: nat)
    requires i < |items| && Encode(List(items)).Some?
    ensures Encode(items[i]).Some? && |Encode(items[i]).value| < |Encode(List(items)).value|
  {
    PartFits(items, i);
  }

  lemma {:induction false} PartFits(items: seq<Item>, i: nat)
    requires i < |items| && EncodeItems(items).Some?
    ensures Encode(items[i]).Some? && |Encode(items[i]).value| <= |EncodeItems(items).value|
  {
    if i > 0 {
      PartFits(items[1..], i - 1);
    }
  }

  /** Leading items of an encodable list are encodable as a list of their own. */
  lemma {:induction false} PrefixEncodes(items: seq<Item>, n: nat)
    requires n <= |items| && Encode(List(items)).Some?
    ensures Encode(List(items[..n])).Some?
  {
    PrefixFits(items, n);
  }

  lemma {:induction false} PrefixFits(items: seq<Item>, n: nat)
    requires n <= |items| && EncodeItems(items).Some?
    ensures EncodeItems(items[..n]).Some? && |EncodeItems(items[..n]).value| <= |EncodeItems(items).value|
  {
    if n > 0 {
      PrefixFits(items[1..], n - 1);
      assert items[..n][1..] == items[1..][..n - 1];
    }
  }

  /** A list's encoding starts with a byte of at least 0xC0. */
  lemma {:induction false} ListEncodingStarts(items: seq<Item>)
    requires Encode(List(items)).Some?
    ensures Encode(List(items)).value != [] && Encode(List(items)).value[0] >= 0xC0
  {
    var header := Header(0xC0, |EncodeItems(items).value|).value;
    assert Encode(List(items)).value == header + EncodeItems(items).value;
  }

  // ----- the repository's own encoder

  /** The prefix written by `_rlp`; `bytes([...])` raises once the prefix byte passes 255. */
  function LocalHeader(base: Byte, n: nat): Option<Bytes>
    requires base == 0x80 || base == 0xC0
  {
    if n <= 55 then
      Some([base + n])
    else
      var length := IntBytes(n);
      if base + 55 + |length| < 256 then Some([base + 55 + |length|] + length) else None
  }

  /** `_rlp`. */
  function LocalRlp(x: Item): Option<Bytes> {
    match x
    case Str(b) =>
      if |b| == 1 && b[0] < 0x80 then
        Some(b)
      else
        var header :- LocalHeader(0x80, |b|);
        Some(header + b)
    case List(items) =>
      var payload :- LocalRlpItems(items);
      var header :- LocalHeader(0xC0, |payload|);
      Some(header + payload)
  }

  function LocalRlpItems(items: seq<Item>): Option<Bytes> {
    if items == [] then
      Some([])
    else
      var first :- LocalRlp(items[0]);
      var rest :- LocalRlpItems(items[1..]);
      Some(first + rest)
  }

  lemma {:induction false} LocalHeaderAgrees(base: Byte, n: nat)
    requires base == 0x80 || base == 0xC0
    ensures n < TWO_TO_THE_64 || base == 0xC0 ==> LocalHeader(base, n) == Header(base, n)
    ensures n >= TWO_TO_THE_64 ==> |IntBytes(n)| >= 9
  {
    LimitIsEightBytes();
    CanonicalWidth(IntBytes(n), 8);
  }

  /** Below 2^64 bytes of output the two encoders are the same function. */
  lemma {:induction false} LocalRlpBelowLimit(x: Item)
    ensures Encode(x).Some? ==> LocalRlp(x) == Encode(x)
    ensures LocalRlp(x).Some? && |LocalRlp(x).value| < TWO_TO_THE_64 ==> Encode(x) == LocalRlp(x)
    decreases x, 0
  {
    match x
    case Str(b) =>
      LocalHeaderAgrees(0x80, |b|);
    case List(items) =>
      LocalRlpItemsBelowLimit(items);
      if LocalRlpItems(items).Some? {
        LocalHeaderAgrees(0xC0, |LocalRlpItems(items).value|);
      }
  }

  lemma {:induction false} LocalRlpItemsBelowLimit(items: seq<Item>)
    ensures EncodeItems(items).Some? ==> LocalRlpItems(items) == EncodeItems(items)
    ensures LocalRlpItems(items).Some? && |LocalRlpItems(items).value| < TWO_TO_THE_64
        ==> EncodeItems(items) == LocalRlpItems(items)
    decreases items, 1
  {
    if items != [] {
      LocalRlpBelowLimit(items[0]);
      LocalRlpItemsBelowLimit(items[1..]);
    }
  }

  /** `_rlp` is the Yellow Paper's encoder on every list and on every string below 2^64 bytes. */
  lemma {:induction false} LocalRlpIsEncode(x: Item)
    requires x.Str? ==> |x.bytes| < TWO_TO_THE_64
    ensures LocalRlp(x) == Encode(x)
  {
    match x
    case Str(b) =>
      LocalHeaderAgrees(0x80, |b|);
    case List(items) =>
      LocalRlpItemsBelowLimit(items);
      if LocalRlpItems(items).Some? {
        LocalHeaderAgrees(0xC0, |LocalRlpItems(items).value|);
      }
  }

  /** `_rlp` output is decoded back exactly when its argument is a list or a string below 2^64 bytes. */
  lemma {:induction false} LocalRlpRoundTrip(x: Item)
    requires LocalRlp(x).Some?
    ensures Decode(LocalRlp(x).value) == Some(x) <==> (x.Str? ==> |x.bytes| < TWO_TO_THE_64)
  {
    if x.Str? && |x.bytes| >= TWO_TO_THE_64 {
      LocalHeaderAgrees(0x80, |x.bytes|);
      var raw := LocalRlp(x).value;
      assert raw[0] >= 0xC0;
      assert Decode(raw).Some? ==> ReadFrame(raw).value.isList;
    } else {
      LocalRlpIsEncode(x);
      Canonicity(LocalRlp(x).value, x);
    }
  }

  /** From 2^64 bytes on `_rlp` stops being prefix-free: the empty list's encoding starts such a string's. */
  lemma {:induction false} LocalRlpAmbiguousAtLimit(b: Bytes)
    requires TWO_TO_THE_64 <= |b| < 256 * TWO_TO_THE_64
    ensures LocalRlp(Str(b)).Some? && LocalRlp(List([])) == Some([0xC0])
    ensures LocalRlp(List([])).value < LocalRlp(Str(b)).value
  {
    hide IntBytes, FromBytes;
    LocalHeaderAgrees(0x80, |b|);
    LimitIsEightBytes();
    assert Pow256(9) == 256 * Pow256(8);
    CanonicalWidth(IntBytes(|b|), 9);
    assert LocalRlpItems([]) == Some([]) && LocalHeader(0xC0, 0) == Some([0xC0]);
    assert [0xC0] + [] == [0xC0 as Byte];
  }

  // ----- the byte forms

  /** `length` spells `n` without a leading zero. */
  predicate Spells(length: Bytes, n: nat) {
    Canonical(length) && FromBytes(length) == n
  }

  /** The four forms of a string: itself, a short one, a long one, and none from 2^64 bytes on. */
  lemma {:induction false} StringForms(b: Bytes)
    ensures |b| == 1 && b[0] < 0x80 ==> Encode(Str(b)) == Some(b)
    ensures !(|b| == 1 && b[0] < 0x80) && |b| <= 55 ==> Encode(Str(b)) == Some([0x80 + |b|] + b)
    ensures 55 < |b| < TWO_TO_THE_64 ==>
              exists length ::
                Spells(length, |b|) && |length| <= 8 && Encode(Str(b)) == Some([0xB7 + |length|] + length + b)
    ensures |b| >= TWO_TO_THE_64 ==> Encode(Str(b)) == None
  {
    if 55 < |b| < TWO_TO_THE_64 {
      HeaderWidth(|b|);
    }
    hide IntBytes, FromBytes;
  }

  /** What a list encodes: its items' encodings one behind another. */
  ghost predicate IsPayload(items: seq<Item>, payload: Bytes) {
    if items == [] then payload == []
    else exists first, rest :: Encode(items[0]) == Some(first) && IsPayload(items[1..], rest) && payload == first + rest
  }

  lemma {:induction false} PayloadIs(items: seq<Item>)
    ensures EncodeItems(items).Some? ==> IsPayload(items, EncodeItems(items).value)
  {
    hide Encode;
    if items != [] && EncodeItems(items).Some? {
      PayloadIs(items[1..]);
    }
  }

  /** The two forms of a list. */
  lemma {:induction false} ListForms(items: seq<Item>)
    requires Encode(List(items)).Some?
    ensures exists payload :: IsPayload(items, payload)
              && if |payload| <= 55 then Encode(List(items)) == Some([0xC0 + |payload|] + payload)
                 else exists length :: Spells(length, |payload|) && |length| <= 8
                                       && Encode(List(items)) == Some([0xF7 + |length|] + length + payload)
  {
    var payload := EncodeItems(items).value;
    PayloadIs(items);
    if |payload| > 55 {
      HeaderWidth(|payload|);
    }
    hide IntBytes, FromBytes, IsPayload;
  }
}
