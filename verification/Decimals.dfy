/** Decimal integers, in ASCII digits. */
module Decimals {
  import opened Basics

  predicate IsDigit(c: char) {
    '0' <= c <= '9'
  }

  function DigitValue(c: char): nat
    requires IsDigit(c)
  {
    c as int - '0' as int
  }

  /** Digits, with Python's single underscores between them. */
  predicate IsMagnitude(d: string) {
    && d != [] && IsDigit(d[0]) && IsDigit(d[|d| - 1])
    && (forall i :: 0 <= i < |d| ==> IsDigit(d[i]) || d[i] == '_')
    && forall i :: 1 <= i < |d| ==> IsDigit(d[i]) || IsDigit(d[i - 1])
  }

  predicate AllDigits(d: string) {
    d != [] && forall i :: 0 <= i < |d| ==> IsDigit(d[i])
  }

  /** The number spelled by digits; underscores count for nothing. */
  function MagnitudeValue(d: string): nat
    requires forall i :: 0 <= i < |d| ==> IsDigit(d[i]) || d[i] == '_'
  {
    if d == [] then 0
    else
      var last := d[|d| - 1];
      var before := MagnitudeValue(d[..|d| - 1]);
      if IsDigit(last) then 10 * before + DigitValue(last) else before
  }

  /** Python's `int(text)`; None for its `ValueError`. */
  function ReadInt(text: string): Option<int> {
    var signed := text != [] && (text[0] == '-' || text[0] == '+');
    var digits := if signed then text[1..] else text;
    if !IsMagnitude(digits) then None
    else if signed && text[0] == '-' then Some(0 - MagnitudeValue(digits) as int)
    else Some(MagnitudeValue(digits))
  }

  function Digits(n: nat): (d: string)
    ensures AllDigits(d) && MagnitudeValue(d) == n
  {
    if n < 10 then
      [n as char + '0']
    else
      Digits(n / 10) + [(n % 10) as char + '0']
  }

  /** `str(n)`. */
  function Decimal(n: int): (d: string)
    ensures d != [] && (d[0] == '-' || IsDigit(d[0]))
  {
    if n < 0 then ['-'] + Digits(-n) else Digits(n)
  }

  lemma {:induction false} ReadDecimal(n: int)
    ensures ReadInt(Decimal(n)) == Some(n)
  {
    var digits := Digits(if n < 0 then -n else n);
    assert n < 0 ==> Decimal(n)[1..] == digits;
  }

  function Pow10(k: nat): nat {
    if k == 0 then 1 else 10 * Pow10(k - 1)
  }

  lemma {:induction false} Regroup(a: nat, p: nat)
    ensures a * (10 * p) == 10 * (a * p)
  {
  }

  /** Digits count by their place, the last one once. */
  lemma {:induction false} PositionalValue(a: string, b: string)
    requires AllDigits(a) && AllDigits(b)
    ensures AllDigits(a + b) && MagnitudeValue(a + b) == MagnitudeValue(a) * Pow10(|b|) + MagnitudeValue(b)
    decreases |b|
  {
    var n := |b| - 1;
    assert (a + b)[..|a + b| - 1] == a + b[..n];
    if n == 0 {
      assert a + b[..n] == a;
      assert Pow10(1) == 10 * Pow10(0);
    } else {
      PositionalValue(a, b[..n]);
      Regroup(MagnitudeValue(a), Pow10(n));
    }
  }

  lemma {:induction false} DigitsAre(c: char)
    requires IsDigit(c)
    ensures MagnitudeValue([c]) < 10 && "0123456789"[MagnitudeValue([c])] == c
  {
    assert [c][..0] == [];
  }

  lemma {:induction false} Unsigned(a: string)
    requires AllDigits(a)
    ensures ReadInt(a) == Some(MagnitudeValue(a)) && ReadInt("+" + a) == Some(MagnitudeValue(a))
    ensures ReadInt("-" + a) == Some(0 - MagnitudeValue(a) as int)
  {
    assert ("+" + a)[1..] == a && ("-" + a)[1..] == a && IsMagnitude(a);
    hide MagnitudeValue;
  }

  /** An underscore between digits is read over; one more, or one at either end, makes the text no integer. */
  lemma {:induction false} Underscores(a: string, b: string)
    requires AllDigits(a) && AllDigits(b)
    ensures ReadInt(a + "_" + b) == ReadInt(a + b) == Some(MagnitudeValue(a + b))
    ensures ReadInt(a + "__" + b).None? && ReadInt(a + "_").None? && ReadInt("_" + a).None?
  {
    UnderscoreBetween(a, b);
    UnderscoreValue(a, b);
    MisplacedUnderscore(a, b);
    hide MagnitudeValue, IsMagnitude;
    assert (a + "_" + b)[0] == a[0] && (a + b)[0] == a[0];
  }

  lemma {:induction false} UnderscoreBetween(a: string, b: string)
    requires AllDigits(a) && AllDigits(b)
    ensures IsMagnitude(a + "_" + b) && IsMagnitude(a + b)
  {
  }

  lemma {:induction false} MisplacedUnderscore(a: string, b: string)
    requires AllDigits(a) && AllDigits(b)
    ensures ReadInt(a + "__" + b).None? && ReadInt(a + "_").None? && ReadInt("_" + a).None?
  {
    var u := a + "__" + b;
    assert u[0] == a[0] && u[|a|] == '_' && u[|a| + 1] == '_';
    assert !IsMagnitude(u);
    hide MagnitudeValue;
  }

  lemma {:induction false} UnderscoreValue(a: string, b: string)
    requires AllDigits(a) && AllDigits(b)
    ensures forall i :: 0 <= i < |a + "_" + b| ==> IsDigit((a + "_" + b)[i]) || (a + "_" + b)[i] == '_'
    ensures MagnitudeValue(a + "_" + b) == MagnitudeValue(a + b)
    decreases |b|
  {
    var t, n := a + "_" + b, |b| - 1;
    assert t[..|t| - 1] == a + "_" + b[..n] && (a + b)[..|a + b| - 1] == a + b[..n];
    if n == 0 {
      assert t[..|t| - 1] == a + "_" && (a + "_")[..|a|] == a && a + b[..n] == a;
    } else {
      UnderscoreValue(a, b[..n]);
    }
  }
}
