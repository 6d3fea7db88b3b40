/**
 Big-endian integers: Python's `to_bytes(..., "big")` and `int.from_bytes(..., "big")`, and the
 minimal form `_int_bytes` that RLP integers use.
 */
module BigEndian {
  import opened Basics

  function Pow256(k: nat): (p: nat)
    ensures p > 0
  {
    if k == 0 then 1 else 256 * Pow256(k - 1)
  }

  /** Python's `int.bit_length()`. */
  function BitLength(n: nat): nat {
    if n == 0 then 0 else 1 + BitLength(n / 2)
  }

  /** `n.to_bytes(width, "big")`; Python raises `OverflowError` when `n` needs more bytes. */
  function ToBytes(n: nat, width: nat): (b: Bytes)
    requires n < Pow256(width)
    ensures |b| == width
    ensures FromBytes(b) == n
    decreases width
  {
    if width == 0 then [] else ToBytes(n / 256, width - 1) + [n % 256]
  }

  /** `int.from_bytes(b, "big")`. */
  function FromBytes(b: Bytes): nat {
    if b == [] then 0 else FromBytes(b[..|b| - 1]) * 256 + b[|b| - 1]
  }

  /** Neither padded on the left nor a spelled-out zero: the integers `_rlp_int` accepts. */
  predicate Canonical(b: Bytes) {
    b != [] ==> b[0] != 0
  }

  lemma {:induction false} BitLengthBytes(n: nat)
    requires n >= 256
    ensures BitLength(n) == BitLength(n / 256) + 8
  {
    var a := n / 2;
    var b := a / 2;
    var c := b / 2;
    var d := c / 2;
    var e := d / 2;
    var f := e / 2;
    var g := f / 2;
    assert BitLength(n) == 1 + BitLength(a) && BitLength(a) == 1 + BitLength(b);
    assert BitLength(b) == 1 + BitLength(c) && BitLength(c) == 1 + BitLength(d);
    assert BitLength(d) == 1 + BitLength(e) && BitLength(e) == 1 + BitLength(f);
    assert BitLength(f) == 1 + BitLength(g) && BitLength(g) == 1 + BitLength(g / 2);
    assert g / 2 == n / 256;
  }

  lemma {:induction false} BitLengthSmall(n: nat)
    requires 0 < n < 256
    ensures 1 <= BitLength(n) <= 8
    decreases n
  {
    assert forall k: nat {:trigger BitLength(k)} :: k < 2 ==> BitLength(k) == k;
    assert forall k: nat {:trigger BitLength(k)} :: 0 < k < 4 ==> BitLength(k) <= 2;
    assert forall k: nat {:trigger BitLength(k)} :: 0 < k < 8 ==> BitLength(k) <= 3;
    assert forall k: nat {:trigger BitLength(k)} :: 0 < k < 16 ==> BitLength(k) <= 4;
    assert forall k: nat {:trigger BitLength(k)} :: 0 < k < 32 ==> BitLength(k) <= 5;
    assert forall k: nat {:trigger BitLength(k)} :: 0 < k < 64 ==> BitLength(k) <= 6;
    assert forall k: nat {:trigger BitLength(k)} :: 0 < k < 128 ==> BitLength(k) <= 7;
  }

  /** The width `(bit_length + 7) // 8` is enough, and no smaller width is. */
  lemma {:induction false} WidthIsMinimal(n: nat)
    ensures n < Pow256((BitLength(n) + 7) / 8)
    ensures n > 0 ==> BitLength(n) > 0 && Pow256((BitLength(n) + 7) / 8 - 1) <= n
  {
    if n == 0 {
    } else if n < 256 {
      BitLengthSmall(n);
      assert (BitLength(n) + 7) / 8 == 1;
      assert Pow256(1) == 256 * Pow256(0);
    } else {
      BitLengthBytes(n);
      WidthIsMinimal(n / 256);
      var w := (BitLength(n / 256) + 7) / 8;
      assert (BitLength(n) + 7) / 8 == w + 1;
      assert Pow256(w + 1) == 256 * Pow256(w);
    }
  }

  /** `_int_bytes` for a non-negative value. */
  function IntBytes(n: nat): (b: Bytes)
    ensures Canonical(b) && FromBytes(b) == n
  {
    if n == 0 then
      []
    else
      WidthIsMinimal(n);
      var w := (BitLength(n) + 7) / 8;
      var b := ToBytes(n, w);
      ValueBounds(b);
      b
  }

  lemma {:induction false} ValueBounds(b: Bytes)
    ensures FromBytes(b) < Pow256(|b|)
    ensures b != [] && b[0] != 0 ==> Pow256(|b| - 1) <= FromBytes(b)
    ensures b != [] && b[0] == 0 ==> FromBytes(b) < Pow256(|b| - 1)
  {
    if |b| > 1 {
      ValueBounds(b[..|b| - 1]);
    } else if |b| == 1 {
      assert FromBytes(b[..0]) == 0;
    }
  }

  /** Equal widths and equal values give equal bytes. */
  lemma {:induction false} FromBytesInjective(a: Bytes, b: Bytes)
    requires |a| == |b| && FromBytes(a) == FromBytes(b)
    ensures a == b
  {
    if a != [] {
      FromBytesInjective(a[..|a| - 1], b[..|b| - 1]);
      assert a == a[..|a| - 1] + [a[|a| - 1]];
      assert b == b[..|b| - 1] + [b[|b| - 1]];
    }
  }

  lemma {:induction false} PowMonotone(i: nat, j: nat)
    requires i <= j
    ensures Pow256(i) <= Pow256(j)
    decreases j
  {
    if i < j {
      PowMonotone(i, j - 1);
    }
  }

  /** A canonical byte string has at most `k` bytes exactly when its value is below `256^k`. */
  lemma {:induction false} CanonicalWidth(b: Bytes, k: nat)
    requires Canonical(b)
    ensures |b| <= k <==> FromBytes(b) < Pow256(k)
  {
    ValueBounds(b);
    if |b| <= k {
      PowMonotone(|b|, k);
    } else {
      PowMonotone(k, |b| - 1);
    }
  }

  /** Canonical byte strings and naturals are in bijection: the other half of `IntBytes`. */
  lemma {:induction false} IntBytesOfValue(b: Bytes)
    requires Canonical(b)
    ensures IntBytes(FromBytes(b)) == b
  {
    var c := IntBytes(FromBytes(b));
    CanonicalWidth(b, |c|);
    CanonicalWidth(c, |c|);
    CanonicalWidth(b, |b|);
    CanonicalWidth(c, |b|);
    FromBytesInjective(b, c);
  }

  lemma {:induction false} Regroup(x: nat, p: nat, y: nat, z: nat)
    ensures (x * p + y) * 256 + z == x * (256 * p) + (y * 256 + z)
  {
  }

  /** The front bytes are the more significant ones. */
  lemma {:induction false} FromBytesConcat(a: Bytes, b: Bytes)
    ensures FromBytes(a + b) == FromBytes(a) * Pow256(|b|) + FromBytes(b)
    ensures |a| == 1 ==> FromBytes(a) == a[0]
    decreases |b|
  {
    if b == [] {
      assert a + b == a;
    } else {
      var n := |b| - 1;
      FromBytesConcat(a, b[..n]);
      assert (a + b)[..|a + b| - 1] == a + b[..n];
      Regroup(FromBytes(a), Pow256(n), FromBytes(b[..n]), b[n]);
    }
  }
}
