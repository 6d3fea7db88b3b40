/**
 The payload whose hash identifies a claim: `_claim_identity_hash` in `scripts/forensic/pro30_allocator_state.py`.
 */
module ClaimIdentity {
  import opened Basics

  // ----- UTF-8

  function Utf8Char(c: char): (b: Bytes)
    ensures b != []
  {
    var n := c as int;
    if n < 0x80 then [n]
    else if n < 0x800 then [0xC0 + n / 0x40, 0x80 + n % 0x40]
    else if n < 0x1_0000 then [0xE0 + n / 0x1000, 0x80 + n / 0x40 % 0x40, 0x80 + n % 0x40]
    else [0xF0 + n / 0x4_0000, 0x80 + n / 0x1000 % 0x40, 0x80 + n / 0x40 % 0x40, 0x80 + n % 0x40]
  }

  /** `text.encode("utf-8")`. */
  function Utf8(text: string): Bytes {
    if text == [] then [] else Utf8Char(text[0]) + Utf8(text[1..])
  }

  /** The first byte tells how many there are. */
  lemma {:induction false} Utf8Length(c: char)
    ensures var b := Utf8Char(c);
            |b| == if b[0] < 0x80 then 1 else if b[0] < 0xE0 then 2 else if b[0] < 0xF0 then 3 else 4
  {
  }

  /** As many bytes as section 3 of RFC 3629 gives the code point; those behind the first are 10xxxxxx. */
  lemma {:induction false} Utf8Form(c: char)
    ensures var b := Utf8Char(c);
            && (|b| == 1 <==> c as int < 0x80)
            && (|b| <= 2 <==> c as int < 0x800)
            && (|b| <= 3 <==> c as int < 0x1_0000)
            && forall i :: 1 <= i < |b| ==> 0x80 <= b[i] < 0xC0
  {
  }

  lemma {:induction false} Utf8CharInjective(c: char, d: char)
    requires Utf8Char(c) == Utf8Char(d)
    ensures c == d
  {
    Utf8Length(c);
    Utf8Length(d);
    Utf8Value(c);
    Utf8Value(d);
    hide Utf8Char;
  }

  /** The value a character's bytes spell. */
  lemma {:induction false} Utf8Value(c: char)
    ensures var b: seq<int> := Utf8Char(c);
            |b| <= 4 &&
            c as int == if |b| == 1 then b[0]
                        else if |b| == 2 then 0x40 * (b[0] - 0xC0) + (b[1] - 0x80)
                        else if |b| == 3 then 0x1000 * (b[0] - 0xE0) + 0x40 * (b[1] - 0x80) + (b[2] - 0x80)
                        else 0x4_0000 * (b[0] - 0xF0) + 0x1000 * (b[1] - 0x80) + 0x40 * (b[2] - 0x80) + (b[3] - 0x80)
  {
    var n := c as int;
    assert n == 0x40 * (n / 0x40) + n % 0x40;
    assert n / 0x40 == 0x40 * (n / 0x1000) + n / 0x40 % 0x40;
    assert n / 0x1000 == 0x40 * (n / 0x4_0000) + n / 0x1000 % 0x40;
  }

  /** Different texts have different encodings. */
  lemma {:induction false} Utf8Injective(a: string, b: string)
    requires Utf8(a) == Utf8(b)
    ensures a == b
  {
    if a != [] && b != [] {
      var c, d := Utf8Char(a[0]), Utf8Char(b[0]);
      Utf8Length(a[0]);
      Utf8Length(b[0]);
      hide Utf8Char;
      assert c[0] == Utf8(a)[0] && d[0] == Utf8(b)[0];
      assert c == Utf8(a)[..|c|] && d == Utf8(b)[..|d|];
      assert Utf8(a[1..]) == Utf8(a)[|c|..] && Utf8(b[1..]) == Utf8(b)[|d|..];
      Utf8CharInjective(a[0], b[0]);
      Utf8Injective(a[1..], b[1..]);
      assert a == [a[0]] + a[1..] && b == [b[0]] + b[1..];
    }
  }

  // ----- unsigned LEB128

  function Varint(n: nat): (b: Bytes)
    ensures b != []
  {
    if n < 0x80 then [n] else [n % 0x80 + 0x80] + Varint(n / 0x80)
  }

  /** `n >> 7 * i`. */
  function Shifted(n: nat, i: nat): nat {
    if i == 0 then n else Shifted(n / 0x80, i - 1)
  }

  /** Byte `i` holds the bits from 7 * i on, and says whether more follow; the last holds all that is left. */
  lemma {:induction false} VarintBytes(n: nat, i: nat)
    requires i < |Varint(n)|
    ensures Varint(n)[i] as int == Shifted(n, i) % 0x80 + if i + 1 < |Varint(n)| then 0x80 else 0
    ensures i + 1 == |Varint(n)| <==> Shifted(n, i) < 0x80
  {
    if i > 0 {
      VarintBytes(n / 0x80, i - 1);
    }
  }

  lemma {:induction false} VarintStep(length: Bytes, n: nat)
    requires n >= 0x80
    ensures length + Varint(n) == length + [n % 0x80 + 0x80] + Varint(n / 0x80)
  {
  }

  /** The loop that shifts `remaining`. */
  method WriteVarint(n: nat) returns (length: Bytes)
    ensures length == Varint(n)
  {
    var remaining := n;
    length := [];
    while remaining >= 0x80
      invariant Varint(n) == length + Varint(remaining)
    {
      VarintStep(length, remaining);
      length := length + [remaining % 0x80 + 0x80];
      remaining := remaining / 0x80;
    }
    length := length + [remaining % 0x80];
  }

  /** A value and what follows it; None if the bytes end too early. Padded encodings are read too. */
  function ReadVarint(b: Bytes): (r: Option<(nat, Bytes)>)
    ensures r.Some? ==> |r.value.1| < |b|
  {
    if b == [] then None
    else if b[0] < 0x80 then Some((b[0], b[1..]))
    else
      var (high, rest) :- ReadVarint(b[1..]);
      Some((0x80 * high + b[0] - 0x80, rest))
  }

  lemma {:induction false} VarintRoundTrip(n: nat, rest: Bytes)
    ensures ReadVarint(Varint(n) + rest) == Some((n, rest))
  {
    var b := Varint(n) + rest;
    if n < 0x80 {
      assert b[1..] == rest;
    } else {
      VarintRoundTrip(n / 0x80, rest);
      assert b[1..] == Varint(n / 0x80) + rest;
    }
  }

  /** No encoding of a number is shorter, and none of the same length is different. */
  lemma {:induction false} VarintMinimal(b: Bytes)
    requires ReadVarint(b).Some?
    ensures var (n, rest) := ReadVarint(b).value;
            && |Varint(n)| <= |b| - |rest|
            && (|Varint(n)| == |b| - |rest| ==> b == Varint(n) + rest)
  {
    if b[0] < 0x80 {
      assert b == [b[0]] + b[1..];
    } else {
      var (high, rest) := ReadVarint(b[1..]).value;
      VarintMinimal(b[1..]);
      var n := 0x80 * high + b[0] - 0x80;
      assert b == [b[0]] + b[1..];
      hide ReadVarint;
      if n >= 0x80 {
        assert n / 0x80 == high && n % 0x80 + 0x80 == b[0];
        if |Varint(n)| == |b| - |rest| {
          assert [b[0]] + (Varint(high) + rest) == [b[0]] + Varint(high) + rest;
        }
      }
    }
  }

  // ----- the payload

  function Payload(claimId: string): Bytes {
    [0x20] + Varint(|Utf8(claimId)|) + Utf8(claimId)
  }

  /** The payload delimits itself: followed by anything, it still tells the claim id. */
  lemma {:induction false} PayloadSelfDelimiting(a: string, b: string, r: Bytes, s: Bytes)
    requires Payload(a) + r == Payload(b) + s
    ensures a == b && r == s
  {
    hide Utf8, Varint, ReadVarint;
    var t, u := Payload(a) + r, Payload(b) + s;
    var x, y := Utf8(a), Utf8(b);
    assert t[1..] == Varint(|x|) + (x + r) && u[1..] == Varint(|y|) + (y + s);
    VarintRoundTrip(|x|, x + r);
    VarintRoundTrip(|y|, y + s);
    assert (x + r)[..|x|] == x && (y + s)[..|y|] == y && (x + r)[|x|..] == r && (y + s)[|y|..] == s;
    Utf8Injective(a, b);
  }

  /** `_claim_identity_hash` up to the hash: no other claim id has this payload, whatever follows either. */
  method BuildPayload(claimId: string) returns (payload: Bytes)
    ensures payload == Payload(claimId)
    ensures payload[0] == 0x20 && ReadVarint(payload[1..]) == Some((|Utf8(claimId)|, Utf8(claimId)))
    ensures forall other, r, s :: payload + r == Payload(other) + s ==> other == claimId && r == s
  {
    hide Utf8, Varint, ReadVarint;
    var raw := Utf8(claimId);
    var length := WriteVarint(|raw|);
    payload := [0x20] + length + raw;
    assert payload[1..] == Varint(|raw|) + raw;
    VarintRoundTrip(|raw|, raw);
    forall other, r: Bytes, s: Bytes | payload + r == Payload(other) + s
      ensures other == claimId && r == s
    {
      PayloadSelfDelimiting(claimId, other, r, s);
    }
  }
}
