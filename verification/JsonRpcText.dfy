/** The JSON-RPC texts the verifier reads: 0x-prefixed hex bytes and quantities. */
module JsonRpcText {
  import opened Basics
  import opened InclusionErrors

  /** One field of a JSON object; `Other` is any value that is neither null nor a string. */
  datatype Field = Missing | Null | Text(text: string) | Other

  predicate IsHexDigit(c: char) {
    '0' <= c <= '9' || 'a' <= c <= 'f' || 'A' <= c <= 'F'
  }

  function HexValue(c: char): Nibble
    requires IsHexDigit(c)
  {
    if c <= '9' then c as int - '0' as int
    else if c <= 'F' then c as int - 'A' as int + 10
    else c as int - 'a' as int + 10
  }

  predicate AllHex(s: string) {
    forall i :: 0 <= i < |s| ==> IsHexDigit(s[i])
  }

  predicate HasHexPrefix(s: string) {
    |s| >= 2 && s[0] == '0' && s[1] == 'x'
  }

  function FromHex(s: string): (b: Bytes)
    requires AllHex(s) && |s| % 2 == 0
    ensures |b| == |s| / 2
  {
    if s == [] then []
    else
      var high: int, low: int := HexValue(s[0]), HexValue(s[1]);
      [16 * high + low] + FromHex(s[2..])
  }

  /** `int(s, 16)`. */
  function HexNumber(s: string): nat
    requires AllHex(s)
  {
    if s == [] then 0 else 16 * HexNumber(s[..|s| - 1]) + HexValue(s[|s| - 1])
  }

  /** `_hex_bytes`; `size` is the required number of bytes, if there is one. */
  function HexBytes(value: Field, size: Option<nat>): (r: Result<Bytes, InclusionError>)
    ensures r.Ok? && size.Some? ==> |r.value| == size.value
  {
    if !value.Text? || !HasHexPrefix(value.text) || !AllHex(value.text[2..]) || |value.text| % 2 != 0 then
      Err(MalformedHex)
    else
      var data := FromHex(value.text[2..]);
      if size.Some? && |data| != size.value then Err(WrongByteWidth) else Ok(data)
  }

  /** `_hex_bytes` of every item, failing at the first that is not a hex string of `size` bytes. */
  function HexBytesAll(values: seq<Field>, size: Option<nat>): (r: Result<seq<Bytes>, InclusionError>)
    ensures r.Ok? && size.Some? ==> forall b :: b in r.value ==> |b| == size.value
  {
    if values == [] then
      Ok([])
    else
      var first :- HexBytes(values[0], size);
      var rest :- HexBytesAll(values[1..], size);
      Ok([first] + rest)
  }

  /** `_quantity`: no leading zero except for zero itself. */
  function Quantity(value: Field): Result<nat, InclusionError> {
    if !value.Text? || !HasHexPrefix(value.text) || |value.text| == 2 || !AllHex(value.text[2..])
      || (value.text[2] == '0' && |value.text| > 3) then
      Err(MalformedQuantity)
    else
      Ok(HexNumber(value.text[2..]))
  }

  // ----- what the texts spell

  /** The lower-case digits in order of their values. */
  function LowerDigit(n: nat): (c: char)
    requires n < 16
    ensures IsHexDigit(c) && HexValue(c) == n
  {
    "0123456789abcdef"[n]
  }

  lemma {:induction false} UpperDigits(n: nat)
    requires 10 <= n < 16
    ensures IsHexDigit("ABCDEF"[n - 10]) && HexValue("ABCDEF"[n - 10]) == n
  {
  }

  /** `hex(n)[2:]`. */
  function HexText(n: nat): (s: string)
    ensures s != [] && AllHex(s)
  {
    if n < 16 then [LowerDigit(n)] else HexText(n / 16) + [LowerDigit(n % 16)]
  }

  /** `b.hex()`. */
  function HexOf(b: Bytes): (s: string)
    ensures |s| == 2 * |b| && AllHex(s)
  {
    if b == [] then [] else [LowerDigit(b[0] / 16), LowerDigit(b[0] % 16)] + HexOf(b[1..])
  }

  lemma {:induction false} HexTextRead(n: nat)
    ensures HexNumber(HexText(n)) == n && (|HexText(n)| > 1 ==> HexText(n)[0] != '0')
  {
    if n >= 16 {
      HexTextRead(n / 16);
      var s := HexText(n);
      assert s[..|s| - 1] == HexText(n / 16) && s[|s| - 1] == LowerDigit(n % 16);
      assert n / 16 < 16 ==> HexText(n / 16) == [LowerDigit(n / 16)];
    }
  }

  /** A quantity that is written as Ethereum writes it is read. */
  lemma {:induction false} QuantityRoundTrip(n: nat)
    ensures Quantity(Text("0x" + HexText(n))) == Ok(n)
  {
    HexTextRead(n);
    assert ("0x" + HexText(n))[2..] == HexText(n);
    hide HexText, HexNumber;
  }

  lemma {:induction false} HexOfRead(b: Bytes)
    ensures FromHex(HexOf(b)) == b
  {
    if b != [] {
      HexOfRead(b[1..]);
      hide LowerDigit, HexValue;
      assert HexOf(b)[2..] == HexOf(b[1..]);
      assert b == [b[0]] + b[1..];
    }
  }

  /** And so are bytes. */
  lemma {:induction false} HexBytesRoundTrip(b: Bytes)
    ensures HexBytes(Text("0x" + HexOf(b)), Some(|b|)) == Ok(b) && HexBytes(Text("0x" + HexOf(b)), None) == Ok(b)
  {
    HexOfRead(b);
    assert ("0x" + HexOf(b))[2..] == HexOf(b);
    hide HexOf, FromHex;
  }

  lemma {:induction false} DigitCase(c: char, d: char)
    requires IsHexDigit(c) && IsHexDigit(d) && (c == d || c as int == d as int + 32)
    ensures HexValue(c) == HexValue(d)
  {
  }

  /** Upper-case digits are read as the lower-case ones. */
  lemma {:induction false} CaseDoesNotMatter(s: string, t: string)
    requires AllHex(s) && AllHex(t) && |s| == |t|
    requires forall i :: 0 <= i < |s| ==> s[i] == t[i] || s[i] as int == t[i] as int + 32
    ensures HexNumber(s) == HexNumber(t) && (|s| % 2 == 0 ==> FromHex(s) == FromHex(t))
    decreases |s|
  {
    hide HexValue, IsHexDigit;
    if s != [] {
      var n := |s| - 1;
      CaseDoesNotMatter(s[..n], t[..n]);
      DigitCase(s[n], t[n]);
      if |s| % 2 == 0 {
        DigitCase(s[0], t[0]);
        DigitCase(s[1], t[1]);
        CaseDoesNotMatter(s[2..], t[2..]);
      }
    }
  }
}
