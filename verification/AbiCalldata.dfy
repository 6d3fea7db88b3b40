/**
 Verifier calldata in the Solidity contract ABI: `scripts/forensic/pro28_receipts.py`. Texts are bytes here; the
 hexadecimal spelling of the key and of the result is not modelled.
 */
module AbiCalldata {
  import opened Basics
  import opened BigEndian

  datatype AbiError = WordRange | WrongKeySize | Truncated

  const SELECTOR: Bytes := [0x41, 0x49, 0x3c, 0x60]

  predicate FitsWord(n: int) {
    0 <= n < Pow256(32)
  }

  /** `_abi_word`. */
  function Word(value: int): (r: Result<Bytes, AbiError>)
    ensures r.Ok? <==> FitsWord(value)
    ensures r.Ok? ==> |r.value| == 32 && FromBytes(r.value) == value
  {
    if !FitsWord(value) then Err(WordRange) else Ok(ToBytes(value, 32))
  }

  /** Python's `(-n) % 32`. */
  function Padding(n: nat): (p: nat)
    ensures p < 32 && (n + p) % 32 == 0
  {
    (32 - n % 32) % 32
  }

  /** `_abi_dynamic`: the length, the bytes, and zeros up to a whole word. */
  function Dynamic(value: Bytes): (r: Result<Bytes, AbiError>)
    ensures r.Ok? <==> FitsWord(|value|)
    ensures r.Ok? ==> |r.value| == 32 + |value| + Padding(|value|)
    ensures r.Ok? ==> FromBytes(r.value[..32]) == |value| && r.value[32..32 + |value|] == value
    ensures r.Ok? ==> r.value[32 + |value|..] == Zeros(Padding(|value|))
  {
    var length :- Word(|value|);
    var part := length + value + Zeros(Padding(|value|));
    assert part[..32] == length && part[32..32 + |value|] == value;
    Ok(part)
  }

  /** `_sp1_verify_calldata`: selector, key, two offsets, and what they point to. */
  function VerifyCalldata(key: Bytes, values: Bytes, proof: Bytes): Result<Bytes, AbiError> {
    hide FitsWord, Word, Dynamic;
    if |key| != 32 then Err(WrongKeySize)
    else
      var valuesPart :- Dynamic(values);
      var valuesOffset :- Word(96);
      var proofOffset :- Word(96 + |valuesPart|);
      var proofPart :- Dynamic(proof);
      Ok(SELECTOR + key + valuesOffset + proofOffset + valuesPart + proofPart)
  }

  /** `_calldata_word`. */
  function CalldataWord(calldata: Bytes, offset: int): Result<nat, AbiError> {
    if offset < 0 || offset + 32 > |calldata| then Err(Truncated) else Ok(FromBytes(calldata[offset..offset + 32]))
  }

  /** Bytes read as claim bytes are: an offset in the head, behind the selector, to a length and the bytes. */
  function ReadBytes(calldata: Bytes, head: nat): Result<Bytes, AbiError> {
    var offset :- CalldataWord(calldata, 4 + head);
    var start := 4 + offset;
    var length :- CalldataWord(calldata, start);
    if start + 32 + length > |calldata| then Err(Truncated) else Ok(calldata[start + 32..start + 32 + length])
  }

  lemma {:induction false} SmallWord(n: nat)
    requires n < 256
    ensures FitsWord(n)
  {
    PowMonotone(1, 32);
    assert Pow256(1) == 256 * Pow256(0);
  }

  /** Calldata is made exactly for a 32-byte key and parts whose lengths and offsets fit a word. */
  lemma {:induction false} CalldataExists(key: Bytes, values: Bytes, proof: Bytes)
    ensures VerifyCalldata(key, values, proof).Ok? <==>
              && |key| == 32 && FitsWord(|proof|) && FitsWord(128 + |values| + Padding(|values|))
  {
    hide Pow256, Padding, Word, Dynamic;
    SmallWord(96);
  }

  /** A part of a text, from where it starts. */
  lemma {:induction false} PartAt(before: Bytes, part: Bytes, after: Bytes)
    ensures var text := before + part + after;
            text[|before|..|before| + |part|] == part
  {
  }

  lemma {:induction false} WordAt(before: Bytes, w: Bytes, after: Bytes)
    requires |w| == 32
    ensures CalldataWord(before + w + after, |before|) == Ok(FromBytes(w))
  {
    PartAt(before, w, after);
    hide FromBytes;
  }

  /** `part` is what `_abi_dynamic` makes of `value`. */
  predicate IsDynamic(part: Bytes, value: Bytes) {
    Dynamic(value) == Ok(part)
  }

  /** An offset in the head, and the encoded bytes where it points: they are read back. */
  lemma {:induction false} DynamicAt(calldata: Bytes, head: nat, before: Bytes, value: Bytes, part: Bytes, after: Bytes)
    requires IsDynamic(part, value) && |before| >= 4
    requires calldata == before + part + after
    requires CalldataWord(calldata, 4 + head) == Ok(|before| - 4)
    ensures ReadBytes(calldata, head) == Ok(value)
  {
    hide FitsWord, CalldataWord, Word;
    var length, zeros := Word(|value|).value, Zeros(Padding(|value|));
    assert calldata == before + length + (value + zeros + after);
    WordAt(before, length, value + zeros + after);
    assert calldata == (before + length) + value + (zeros + after);
    PartAt(before + length, value, zeros + after);
  }

  /** The public values are read back, whatever stands in the second offset's place and behind them. */
  lemma {:induction false} ValuesReadBack(calldata: Bytes, key: Bytes, values: Bytes, w0: Bytes, w1: Bytes, v: Bytes,
                                          p: Bytes)
    requires |key| == |w0| == |w1| == 32 && FromBytes(w0) == 96 && IsDynamic(v, values)
    requires calldata == SELECTOR + key + w0 + w1 + v + p
    ensures ReadBytes(calldata, 32) == Ok(values)
  {
    hide FromBytes, CalldataWord, ReadBytes, IsDynamic;
    assert calldata == (SELECTOR + key) + w0 + (w1 + v + p);
    WordAt(SELECTOR + key, w0, w1 + v + p);
    DynamicAt(calldata, 32, SELECTOR + key + w0 + w1, values, v, p);
  }

  lemma {:induction false} ProofReadBack(calldata: Bytes, key: Bytes, proof: Bytes, w0: Bytes, w1: Bytes, v: Bytes,
                                         p: Bytes)
    requires |key| == |w0| == |w1| == 32 && FromBytes(w1) == 96 + |v| && IsDynamic(p, proof)
    requires calldata == SELECTOR + key + w0 + w1 + v + p
    ensures ReadBytes(calldata, 64) == Ok(proof)
  {
    hide FromBytes, CalldataWord, ReadBytes, IsDynamic;
    assert calldata == (SELECTOR + key + w0) + w1 + (v + p);
    WordAt(SELECTOR + key + w0, w1, v + p);
    assert calldata == (SELECTOR + key + w0 + w1 + v) + p + [];
    DynamicAt(calldata, 64, SELECTOR + key + w0 + w1 + v, proof, p, []);
  }

  datatype Parts = Parts(w0: Bytes, w1: Bytes, v: Bytes, p: Bytes)

  predicate ArePartsOf(parts: Parts, calldata: Bytes, key: Bytes, values: Bytes, proof: Bytes) {
    && |key| == |parts.w0| == |parts.w1| == 32 && |parts.v| % 32 == 0 && |parts.p| % 32 == 0
    && FromBytes(parts.w0) == 96 && FromBytes(parts.w1) == 96 + |parts.v|
    && IsDynamic(parts.v, values) && IsDynamic(parts.p, proof)
    && calldata == SELECTOR + key + parts.w0 + parts.w1 + parts.v + parts.p
  }

  lemma {:induction false} CalldataParts(key: Bytes, values: Bytes, proof: Bytes) returns (parts: Parts)
    requires VerifyCalldata(key, values, proof).Ok?
    ensures ArePartsOf(parts, VerifyCalldata(key, values, proof).value, key, values, proof)
  {
    hide FitsWord, Word, Dynamic, Padding, FromBytes;
    var v := Dynamic(values).value;
    parts := Parts(Word(96).value, Word(96 + |v|).value, v, Dynamic(proof).value);
  }

  /** Reading the calldata back through its offsets recovers the selector, the key and both byte strings. */
  lemma {:induction false} CalldataRoundTrip(key: Bytes, values: Bytes, proof: Bytes)
    requires VerifyCalldata(key, values, proof).Ok?
    ensures var calldata := VerifyCalldata(key, values, proof).value;
            && |calldata| >= 36 && calldata[..4] == SELECTOR && calldata[4..36] == key
            && ReadBytes(calldata, 32) == Ok(values) && ReadBytes(calldata, 64) == Ok(proof)
            && |calldata| % 32 == 4
  {
    var parts := CalldataParts(key, values, proof);
    var calldata := VerifyCalldata(key, values, proof).value;
    hide VerifyCalldata, ReadBytes, FromBytes, IsDynamic;
    Lengths(calldata, key, parts.w0, parts.w1, parts.v, parts.p);
    ValuesReadBack(calldata, key, values, parts.w0, parts.w1, parts.v, parts.p);
    ProofReadBack(calldata, key, proof, parts.w0, parts.w1, parts.v, parts.p);
  }

  lemma {:induction false} Lengths(calldata: Bytes, key: Bytes, w0: Bytes, w1: Bytes, v: Bytes, p: Bytes)
    requires |key| == |w0| == |w1| == 32 && |v| % 32 == 0 && |p| % 32 == 0
    requires calldata == SELECTOR + key + w0 + w1 + v + p
    ensures |calldata| >= 36 && calldata[..4] == SELECTOR && calldata[4..36] == key && |calldata| % 32 == 4
  {
  }

  /** `n` rounded up to whole words. */
  function WholeWords(n: nat): nat {
    (n + 31) / 32 * 32
  }

  /** Where everything stands, for public values that take `v` bytes with their padding. */
  predicate HasLayout(calldata: Bytes, key: Bytes, values: Bytes, proof: Bytes, v: nat) {
    && |calldata| == 164 + v + WholeWords(|proof|) && |values| <= v
    && calldata[..4] == [0x41, 0x49, 0x3c, 0x60] && calldata[4..36] == key
    && FromBytes(calldata[36..68]) == 96 && FromBytes(calldata[68..100]) == 128 + v
    && FromBytes(calldata[100..132]) == |values| && calldata[132..132 + |values|] == values
    && calldata[132 + |values|..132 + v] == Zeros(v - |values|)
    && FromBytes(calldata[132 + v..164 + v]) == |proof| && calldata[164 + v..164 + v + |proof|] == proof
    && calldata[164 + v + |proof|..] == Zeros(WholeWords(|proof|) - |proof|)
  }

  lemma {:induction false} DynamicLayout(part: Bytes, value: Bytes)
    requires IsDynamic(part, value)
    ensures |part| == 32 + WholeWords(|value|) && FromBytes(part[..32]) == |value|
    ensures part[32..32 + |value|] == value && part[32 + |value|..] == Zeros(WholeWords(|value|) - |value|)
  {
    hide Dynamic, FromBytes, Zeros;
    PaddingFills(|value|);
  }

  lemma {:induction false} PaddingFills(n: nat)
    ensures n + Padding(n) == WholeWords(n)
  {
  }

  /** The calldata of a call, byte by byte. */
  lemma {:induction false} CalldataLayout(key: Bytes, values: Bytes, proof: Bytes)
    requires VerifyCalldata(key, values, proof).Ok?
    ensures HasLayout(VerifyCalldata(key, values, proof).value, key, values, proof, WholeWords(|values|))
  {
    var parts := CalldataParts(key, values, proof);
    var calldata := VerifyCalldata(key, values, proof).value;
    hide VerifyCalldata, FromBytes, IsDynamic, Zeros;
    DynamicLayout(parts.v, values);
    DynamicLayout(parts.p, proof);
    LayoutOfParts(calldata, key, values, proof, parts.w0, parts.w1, parts.v, parts.p);
  }

  lemma {:induction false} LayoutOfParts(calldata: Bytes, key: Bytes, values: Bytes, proof: Bytes, w0: Bytes, w1: Bytes,
                                         v: Bytes, p: Bytes)
    requires |key| == |w0| == |w1| == 32 && FromBytes(w0) == 96 && FromBytes(w1) == 96 + |v|
    requires |v| == 32 + WholeWords(|values|) && FromBytes(v[..32]) == |values|
    requires v[32..32 + |values|] == values && v[32 + |values|..] == Zeros(WholeWords(|values|) - |values|)
    requires |p| == 32 + WholeWords(|proof|) && FromBytes(p[..32]) == |proof|
    requires p[32..32 + |proof|] == proof && p[32 + |proof|..] == Zeros(WholeWords(|proof|) - |proof|)
    requires calldata == SELECTOR + key + w0 + w1 + v + p
    ensures HasLayout(calldata, key, values, proof, WholeWords(|values|))
  {
    hide FromBytes, Zeros, WholeWords;
    var n := WholeWords(|values|);
    assert calldata[36..68] == w0 && calldata[68..100] == w1;
    assert calldata[100..132 + n] == v && calldata[132 + n..] == p;
    assert calldata[100..132] == v[..32] && calldata[132..132 + |values|] == v[32..32 + |values|];
    assert calldata[132 + |values|..132 + n] == v[32 + |values|..];
    assert calldata[132 + n..164 + n] == p[..32] && calldata[164 + n..164 + n + |proof|] == p[32..32 + |proof|];
    assert calldata[164 + n + |proof|..] == p[32 + |proof|..];
  }

  /** So no two calls share their calldata. */
  lemma {:induction false} CalldataInjective(k0: Bytes, v0: Bytes, p0: Bytes, k1: Bytes, v1: Bytes, p1: Bytes)
    requires VerifyCalldata(k0, v0, p0).Ok? && VerifyCalldata(k0, v0, p0) == VerifyCalldata(k1, v1, p1)
    ensures k0 == k1 && v0 == v1 && p0 == p1
  {
    CalldataRoundTrip(k0, v0, p0);
    CalldataRoundTrip(k1, v1, p1);
    hide VerifyCalldata, ReadBytes;
  }
}
