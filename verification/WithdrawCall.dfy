/**
 How `scripts/forensic/pro28_receipts.py` opens the calldata of `withdraw(operation, (index, claim, beneficiary,
 amount))`. Claim bytes stay bytes here; decoding them as UTF-8 and the comparison with the payout are not modelled.
 */
module WithdrawCall {
  import opened AbiCalldata
  import opened Basics
  import opened BigEndian

  const WITHDRAW: Bytes := [0x7c, 0x36, 0x54, 0x06]

  datatype WithdrawError =
    | CallNotBound
    | TruncatedCall
    | TupleOffsetUnaligned
    | BeneficiaryUnpadded
    | ClaimOffsetUnaligned
    | ClaimMalformed

  datatype Withdrawal = Withdrawal(index: nat, beneficiary: Bytes, amount: nat, claim: Bytes)

  /** `_calldata_word`, with the one error it raises. */
  function ReadWord(calldata: Bytes, offset: nat): Result<nat, WithdrawError> {
    var word := CalldataWord(calldata, offset);
    if word.Ok? then Ok(word.value) else Err(TruncatedCall)
  }

  /** The call of one claim, opened in the order of the source; the first problem is the error. */
  function Open(calldata: Bytes, operation: nat): Result<Withdrawal, WithdrawError> {
    if |calldata| < 4 || calldata[..4] != WITHDRAW then Err(CallNotBound)
    else
      var called :- ReadWord(calldata, 4);
      if called != operation then Err(CallNotBound)
      else
        var tupleOffset :- ReadWord(calldata, 36);
        if tupleOffset % 32 != 0 then Err(TupleOffsetUnaligned) else OpenTuple(calldata, 4 + tupleOffset)
  }

  function OpenTuple(calldata: Bytes, start: nat): Result<Withdrawal, WithdrawError> {
    var index :- ReadWord(calldata, start);
    var claimOffset :- ReadWord(calldata, start + 32);
    var _ :- ReadWord(calldata, start + 64);
    var beneficiary := calldata[start + 64..start + 96];
    if beneficiary[..12] != Zeros(12) then Err(BeneficiaryUnpadded)
    else
      var amount :- ReadWord(calldata, start + 96);
      if claimOffset % 32 != 0 then Err(ClaimOffsetUnaligned)
      else
        var claim :- OpenClaim(calldata, start + claimOffset);
        Ok(Withdrawal(index, beneficiary[12..], amount, claim))
  }

  function OpenClaim(calldata: Bytes, start: nat): Result<Bytes, WithdrawError> {
    var length :- ReadWord(calldata, start);
    if length > 128 || start + 32 + length > |calldata| then Err(ClaimMalformed)
    else Ok(calldata[start + 32..start + 32 + length])
  }

  // ----- what the calldata holds

  /** `part` stands in `text` from `at` on. */
  predicate Holds(text: Bytes, at: nat, part: Bytes) {
    at + |part| <= |text| && text[at..at + |part|] == part
  }

  /** The word for `n`. */
  function WordOf(n: nat): (word: Bytes)
    requires FitsWord(n)
    ensures |word| == 32 && FromBytes(word) == n
  {
    ToBytes(n, 32)
  }

  /** The word for `n` stands there. */
  predicate HoldsWord(text: Bytes, at: nat, n: nat) {
    FitsWord(n) && Holds(text, at, WordOf(n))
  }

  /** The ABI's encoding of the tuple with its claim `claimOffset` bytes behind its start. */
  predicate HoldsTuple(text: Bytes, start: nat, w: Withdrawal, claimOffset: nat) {
    && HoldsWord(text, start, w.index) && HoldsWord(text, start + 32, claimOffset)
    && |w.beneficiary| == 20 && Holds(text, start + 64, Zeros(12) + w.beneficiary)
    && HoldsWord(text, start + 96, w.amount)
    && HoldsWord(text, start + claimOffset, |w.claim|) && Holds(text, start + claimOffset + 32, w.claim)
  }

  /** The calldata is an ABI encoding of the call, its parts placed at these offsets. */
  predicate HoldsCall(calldata: Bytes, operation: nat, w: Withdrawal, tupleOffset: nat, claimOffset: nat) {
    && Holds(calldata, 0, [0x7c, 0x36, 0x54, 0x06])
    && HoldsWord(calldata, 4, operation) && HoldsWord(calldata, 36, tupleOffset)
    && HoldsTuple(calldata, 4 + tupleOffset, w, claimOffset)
  }

  ghost predicate EncodesCall(calldata: Bytes, operation: nat, w: Withdrawal) {
    exists tupleOffset: nat, claimOffset: nat ::
      && tupleOffset % 32 == 0 && claimOffset % 32 == 0
      && HoldsCall(calldata, operation, w, tupleOffset, claimOffset)
  }

  lemma {:induction false} WordIsHeld(text: Bytes, at: nat, n: nat)
    ensures ReadWord(text, at) == Ok(n) <==> HoldsWord(text, at, n)
  {
    hide Pow256, FromBytes, WordOf;
    if at + 32 <= |text| {
      var word := text[at..at + 32];
      ValueBounds(word);
      if FromBytes(word) == n {
        FromBytesInjective(word, WordOf(n));
      }
    }
  }

  lemma {:induction false} ClaimIsHeld(text: Bytes, at: nat, claim: Bytes)
    ensures OpenClaim(text, at) == Ok(claim)
       <==> HoldsWord(text, at, |claim|) && Holds(text, at + 32, claim) && |claim| <= 128
  {
    hide HoldsWord, CalldataWord, FitsWord;
    WordIsHeld(text, at, |claim|);
  }

  lemma {:induction false} TupleIsHeld(text: Bytes, start: nat, w: Withdrawal, claimOffset: nat)
    requires ReadWord(text, start + 32) == Ok(claimOffset)
    ensures OpenTuple(text, start) == Ok(w)
       <==> HoldsTuple(text, start, w, claimOffset) && claimOffset % 32 == 0 && |w.claim| <= 128
  {
    hide HoldsWord, Holds, OpenClaim, Zeros, CalldataWord, ReadWord, WordOf, FitsWord, FromBytes;
    WordIsHeld(text, start, w.index);
    WordIsHeld(text, start + 32, claimOffset);
    WordIsHeld(text, start + 96, w.amount);
    ClaimIsHeld(text, start + claimOffset, w.claim);
    BeneficiaryIsHeld(text, start + 64, w.beneficiary);
  }

  lemma {:induction false} BeneficiaryIsHeld(text: Bytes, at: nat, beneficiary: Bytes)
    ensures |beneficiary| == 20 && Holds(text, at, Zeros(12) + beneficiary)
       <==> ReadWord(text, at).Ok? && text[at..at + 32][..12] == Zeros(12) && text[at..at + 32][12..] == beneficiary
  {
    hide FromBytes;
    if at + 32 <= |text| {
      var word := text[at..at + 32];
      assert word == word[..12] + word[12..];
      assert |beneficiary| == 20 ==> (Zeros(12) + beneficiary)[..12] == Zeros(12);
      assert |beneficiary| == 20 ==> (Zeros(12) + beneficiary)[12..] == beneficiary;
    }
  }

  /** The opening succeeds, with `w`, exactly for an ABI encoding of the call of `w` with at most 128 claim bytes. */
  lemma {:induction false} OpensExactly(calldata: Bytes, operation: nat, w: Withdrawal)
    ensures Open(calldata, operation) == Ok(w) <==> EncodesCall(calldata, operation, w) && |w.claim| <= 128
  {
    hide HoldsWord, HoldsTuple, OpenTuple, ReadWord, FitsWord, WordOf;
    if Open(calldata, operation) == Ok(w) {
      CallIsHeld(calldata, operation, w);
    }
    if |w.claim| <= 128 {
      forall t: nat, c: nat | t % 32 == 0 && c % 32 == 0 && HoldsCall(calldata, operation, w, t, c)
        ensures Open(calldata, operation) == Ok(w)
      {
        HeldCallOpens(calldata, operation, w, t, c);
      }
    }
  }

  lemma {:induction false} HeldCallOpens(calldata: Bytes, operation: nat, w: Withdrawal, t: nat, c: nat)
    requires t % 32 == 0 && c % 32 == 0 && |w.claim| <= 128 && HoldsCall(calldata, operation, w, t, c)
    ensures Open(calldata, operation) == Ok(w)
  {
    hide HoldsWord, OpenTuple, ReadWord, FitsWord, WordOf, CalldataWord;
    WordIsHeld(calldata, 4, operation);
    WordIsHeld(calldata, 36, t);
    WordIsHeld(calldata, 4 + t + 32, c);
    TupleIsHeld(calldata, 4 + t, w, c);
  }

  lemma {:induction false} CallIsHeld(calldata: Bytes, operation: nat, w: Withdrawal)
    requires Open(calldata, operation) == Ok(w)
    ensures EncodesCall(calldata, operation, w) && |w.claim| <= 128
  {
    hide HoldsWord, OpenTuple, HoldsTuple, ReadWord, FitsWord, WordOf, CalldataWord;
    var t := ReadWord(calldata, 36).value;
    var c := ClaimOffsetOf(calldata, 4 + t, w);
    WordIsHeld(calldata, 4, operation);
    WordIsHeld(calldata, 36, t);
    TupleIsHeld(calldata, 4 + t, w, c);
    assert HoldsCall(calldata, operation, w, t, c);
  }

  lemma {:induction false} ClaimOffsetOf(calldata: Bytes, start: nat, w: Withdrawal) returns (c: nat)
    requires OpenTuple(calldata, start) == Ok(w)
    ensures ReadWord(calldata, start + 32) == Ok(c)
  {
    c := ReadWord(calldata, start + 32).value;
  }

  // ----- the standard encoding

  predicate FitsTuple(w: Withdrawal) {
    FitsWord(w.index) && FitsWord(w.amount) && FitsWord(|w.claim|) && |w.beneficiary| == 20
  }

  /** The encoding Solidity's own encoder makes: the tuple behind the two head words, the claim behind the tuple. */
  function StandardCall(w: Withdrawal, operation: nat): (calldata: Bytes)
    requires FitsTuple(w) && FitsWord(operation)
  {
    SmallWord(64);
    WITHDRAW + (WordOf(operation) + (WordOf(64) + StandardTuple(w)))
  }

  function StandardTuple(w: Withdrawal): (tuple: Bytes)
    requires FitsTuple(w)
  {
    SmallWord(128);
    WordOf(w.index) + (WordOf(128) + ((Zeros(12) + w.beneficiary)
    + (WordOf(w.amount) + Dynamic(w.claim).value)))
  }

  /** What follows stands behind the part. */
  lemma {:induction false} Next(text: Bytes, at: nat, part: Bytes, rest: Bytes)
    requires at <= |text| && text[at..] == part + rest
    ensures Holds(text, at, part) && at + |part| <= |text| && text[at + |part|..] == rest
  {
    assert text[at..][..|part|] == part;
    assert text[at..][|part|..] == rest;
  }

  lemma {:induction false} TupleIsEncoding(text: Bytes, start: nat, w: Withdrawal)
    requires FitsTuple(w) && start <= |text| && text[start..] == StandardTuple(w)
    ensures HoldsTuple(text, start, w, 128)
  {
    hide Dynamic, WordOf, FitsWord, Zeros, Holds, Padding;
    SmallWord(128);
    var beneficiary, claim := Zeros(12) + w.beneficiary, Dynamic(w.claim).value;
    ClaimPart(w.claim);
    Next(text, start, WordOf(w.index), WordOf(128) + (beneficiary + (WordOf(w.amount) + claim)));
    Next(text, start + 32, WordOf(128), beneficiary + (WordOf(w.amount) + claim));
    Next(text, start + 64, beneficiary, WordOf(w.amount) + claim);
    Next(text, start + 96, WordOf(w.amount), claim);
    Next(text, start + 128, WordOf(|w.claim|), w.claim + Zeros(Padding(|w.claim|)));
    Next(text, start + 160, w.claim, Zeros(Padding(|w.claim|)));
  }

  lemma {:induction false} ClaimPart(claim: Bytes)
    requires FitsWord(|claim|)
    ensures Dynamic(claim).value == WordOf(|claim|) + (claim + Zeros(Padding(|claim|)))
  {
    hide ToBytes, FitsWord, Zeros;
  }

  lemma {:induction false} StandardIsEncoding(w: Withdrawal, operation: nat)
    requires FitsTuple(w) && FitsWord(operation)
    ensures HoldsCall(StandardCall(w, operation), operation, w, 64, 128)
  {
    hide WordOf, FitsWord, Zeros, Holds, HoldsTuple, StandardTuple;
    SmallWord(64);
    var text, tuple := StandardCall(w, operation), StandardTuple(w);
    Next(text, 0, WITHDRAW, WordOf(operation) + (WordOf(64) + tuple));
    Next(text, 4, WordOf(operation), WordOf(64) + tuple);
    Next(text, 36, WordOf(64), tuple);
    TupleIsEncoding(text, 68, w);
  }

  /** The standard encoding of a call, with anything behind it, is opened as that call exactly up to 128 claim bytes. */
  lemma {:induction false} WithdrawRoundTrip(w: Withdrawal, operation: nat, more: Bytes)
    requires FitsTuple(w) && FitsWord(operation)
    ensures Open(StandardCall(w, operation) + more, operation) == Ok(w) <==> |w.claim| <= 128
  {
    hide Open, HoldsCall, StandardCall, FitsWord;
    var calldata := StandardCall(w, operation);
    StandardIsEncoding(w, operation);
    HeldWithMore(calldata, more, operation, w, 64, 128);
    OpensExactly(calldata + more, operation, w);
  }

  lemma {:induction false} HeldWithMore(calldata: Bytes, more: Bytes, operation: nat, w: Withdrawal, t: nat, c: nat)
    requires HoldsCall(calldata, operation, w, t, c)
    ensures HoldsCall(calldata + more, operation, w, t, c)
  {
    hide WordOf, FitsWord, Zeros, Holds;
    forall at: nat, part | Holds(calldata, at, part)
      ensures Holds(calldata + more, at, part)
    {
      PartHeldWithMore(calldata, more, at, part);
    }
  }

  lemma {:induction false} PartHeldWithMore(text: Bytes, more: Bytes, at: nat, part: Bytes)
    requires Holds(text, at, part)
    ensures Holds(text + more, at, part)
  {
    assert (text + more)[at..at + |part|] == text[at..at + |part|];
  }

  /** Bytes behind an opened call change nothing, so a call's opening does not fix its calldata. */
  lemma {:induction false} TrailingBytesIgnored(calldata: Bytes, more: Bytes, operation: nat)
    requires Open(calldata, operation).Ok?
    ensures Open(calldata + more, operation) == Open(calldata, operation)
  {
    hide Open, HoldsCall;
    var w := Open(calldata, operation).value;
    OpensExactly(calldata, operation, w);
    OpensExactly(calldata + more, operation, w);
    var t: nat, c: nat :| t % 32 == 0 && c % 32 == 0 && HoldsCall(calldata, operation, w, t, c);
    HeldWithMore(calldata, more, operation, w, t, c);
  }
}
