/** Nibble paths and their hex-prefix ("compact") form, Appendix C of the Ethereum Yellow Paper. */
module HexPrefix {
  import opened Basics
  import opened InclusionErrors

  /** `_nibbles`. */
  function Nibbles(raw: Bytes): (ns: seq<Nibble>)
    ensures |ns| == 2 * |raw|
  {
    if raw == [] then [] else [raw[0] / 16, raw[0] % 16] + Nibbles(raw[1..])
  }

  /** The bytes whose nibbles are `ns`. */
  function Pack(ns: seq<Nibble>): (raw: Bytes)
    requires |ns| % 2 == 0
    ensures Nibbles(raw) == ns
  {
    if ns == [] then
      []
    else
      var high: int, low: int := ns[0], ns[1];
      [16 * high + low] + Pack(ns[2..])
  }

  /** `_compact_path`: the path segment a node names, and whether the node is a leaf. */
  function CompactPath(raw: Bytes): Result<(seq<Nibble>, bool), InclusionError> {
    var ns := Nibbles(raw);
    if ns == [] || ns[0] > 3 then
      Err(InvalidHexPrefix)
    else
      var leaf := ns[0] >= 2;
      if ns[0] % 2 == 1 then
        Ok((ns[1..], leaf))
      else if |ns| < 2 || ns[1] != 0 then
        Err(NonCanonicalEvenPath)
      else
        Ok((ns[2..], leaf))
  }

  /** The hex-prefix encoding of a path segment. */
  function Compact(path: seq<Nibble>, leaf: bool): Bytes {
    var flag := if leaf then 2 else 0;
    if |path| % 2 == 1 then Pack([flag + 1] + path) else Pack([flag, 0] + path)
  }

  lemma {:induction false} NibblesConcat(a: Bytes, b: Bytes)
    ensures Nibbles(a + b) == Nibbles(a) + Nibbles(b)
  {
    if a == [] {
      assert a + b == b;
    } else {
      var c := a + b;
      assert c[0] == a[0] && c[1..] == a[1..] + b;
      NibblesConcat(a[1..], b);
      assert Nibbles(c) == [a[0] / 16, a[0] % 16] + Nibbles(c[1..]);
    }
  }

  lemma {:induction false} NibblesPrefix(a: Bytes, b: Bytes)
    requires Nibbles(a) <= Nibbles(b)
    ensures a <= b
  {
    if a != [] {
      var p, q := Nibbles(a), Nibbles(b);
      assert p[0] == q[0] && p[1] == q[1];
      assert p[2..] == Nibbles(a[1..]) && q[2..] == Nibbles(b[1..]);
      NibblesPrefix(a[1..], b[1..]);
    }
  }

  /** Hex-prefix paths and pairs (segment, leaf flag) are in bijection. */
  lemma {:induction false} CompactRoundTrip(path: seq<Nibble>, leaf: bool, raw: Bytes)
    ensures CompactPath(raw) == Ok((path, leaf)) <==> raw == Compact(path, leaf)
  {
    var flag := if leaf then 2 else 0;
    if raw == Compact(path, leaf) {
      var ns := Nibbles(raw);
      assert if |path| % 2 == 1 then ns == [flag + 1] + path else ns == [flag, 0] + path;
    }
    if CompactPath(raw) == Ok((path, leaf)) {
      var ns := Nibbles(raw);
      if ns[0] % 2 == 1 {
        assert ns == [flag + 1] + path;
      } else {
        assert ns == [flag, 0] + path;
      }
      assert Nibbles(Compact(path, leaf)) == ns;
      NibblesPrefix(Compact(path, leaf), raw);
      NibblesPrefix(raw, Compact(path, leaf));
    }
  }

  /** A byte is its two nibbles, the high one first. */
  lemma {:induction false} NibblesAre(raw: Bytes, i: nat)
    requires i < |raw|
    ensures Nibbles(raw)[2 * i] == raw[i] / 16 && Nibbles(raw)[2 * i + 1] == raw[i] % 16
  {
    if i > 0 {
      NibblesAre(raw[1..], i - 1);
    }
  }

  /**
   The hex-prefix bytes: the first nibble is the leaf flag in bit 1 and the parity of the path in bit 0; the path
   follows, behind a zero nibble if its length is even.
   */
  lemma {:induction false} CompactBytes(path: seq<Nibble>, leaf: bool)
    ensures var raw, odd := Compact(path, leaf), |path| % 2;
            && |raw| == |path| / 2 + 1
            && raw[0] / 16 == (if leaf then 2 else 0) + odd
            && raw[0] % 16 == (if odd == 1 then path[0] else 0)
            && forall i :: 0 <= i < |path| / 2 ==>
                 raw[i + 1] / 16 == path[2 * i + odd] && raw[i + 1] % 16 == path[2 * i + odd + 1]
  {
    forall i | 0 <= i < |path| / 2
      ensures var raw, odd := Compact(path, leaf), |path| % 2;
              raw[i + 1] / 16 == path[2 * i + odd] && raw[i + 1] % 16 == path[2 * i + odd + 1]
    {
      CompactByte(path, leaf, i);
    }
    FlagNibbles(path, leaf);
    NibblesAre(Compact(path, leaf), 0);
    hide Nibbles, Pack, Compact;
  }

  lemma {:induction false} CompactByte(path: seq<Nibble>, leaf: bool, i: nat)
    requires i < |path| / 2
    ensures var raw, odd := Compact(path, leaf), |path| % 2;
            && |raw| == |path| / 2 + 1
            && raw[i + 1] / 16 == path[2 * i + odd] && raw[i + 1] % 16 == path[2 * i + odd + 1]
  {
    var raw, odd := Compact(path, leaf), |path| % 2;
    var ns := Nibbles(raw);
    FlagNibbles(path, leaf);
    hide Pack, Compact;
    NibblesAre(raw, i + 1);
    assert ns[2 * (i + 1)] == path[2 * i + odd] && ns[2 * (i + 1) + 1] == path[2 * i + odd + 1];
  }

  lemma {:induction false} FlagNibbles(path: seq<Nibble>, leaf: bool)
    ensures var flag := if leaf then 2 else 0;
            Nibbles(Compact(path, leaf)) == if |path| % 2 == 1 then [flag + 1] + path else [flag, 0] + path
  {
  }
}
