/** The 2048-bit log bloom of a receipt, `_logs_bloom`, with its bits made explicit. */
module Bloom {
  import opened Basics
  import opened BigEndian

  // ----- bits of a natural number

  /** `1 << k`. */
  function Pow2(k: nat): (p: nat)
    ensures p > 0
  {
    if k == 0 then 1 else 2 * Pow2(k - 1)
  }

  predicate Bit(n: nat, k: nat) {
    if k == 0 then n % 2 == 1 else Bit(n / 2, k - 1)
  }

  /** `a | b`. */
  function Or(a: nat, b: nat): nat {
    if a == 0 && b == 0 then 0
    else (if Bit(a, 0) || Bit(b, 0) then 1 else 0) + 2 * Or(a / 2, b / 2)
  }

  lemma {:induction false} OrBits(a: nat, b: nat, k: nat)
    ensures Bit(Or(a, b), k) <==> Bit(a, k) || Bit(b, k)
  {
    if k > 0 {
      OrBits(a / 2, b / 2, k - 1);
    }
  }

  lemma {:induction false} OrWidth(a: nat, b: nat, width: nat)
    requires a < Pow2(width) && b < Pow2(width)
    ensures Or(a, b) < Pow2(width)
  {
    if width > 0 {
      OrWidth(a / 2, b / 2, width - 1);
    }
  }

  lemma {:induction false} PowerBits(k: nat, j: nat)
    ensures Bit(Pow2(k), j) <==> j == k
  {
    if j > 0 && k > 0 {
      PowerBits(k - 1, j - 1);
    } else if j > 0 {
      NoBits(j - 1);
    }
  }

  lemma {:induction false} NoBits(k: nat)
    ensures !Bit(0, k)
  {
    if k > 0 {
      NoBits(k - 1);
    }
  }

  lemma {:induction false} BitsDetermine(a: nat, b: nat, width: nat)
    requires a < Pow2(width) && b < Pow2(width)
    requires forall k: nat :: k < width ==> Bit(a, k) == Bit(b, k)
    ensures a == b
  {
    if width > 0 {
      assert Bit(a, 0) == Bit(b, 0);
      forall k: nat | k < width - 1
        ensures Bit(a / 2, k) == Bit(b / 2, k)
      {
        assert Bit(a, k + 1) == Bit(b, k + 1);
      }
      BitsDetermine(a / 2, b / 2, width - 1);
    }
  }

  function OrByte(a: Byte, b: Byte): Byte {
    assert Pow2(8) == 256;
    OrWidth(a, b, 8);
    Or(a, b)
  }

  // ----- the filter

  type Filter = b: Bytes | |b| == 256 witness seq(256, _ => 0)

  const ZERO: Filter := Zeros(256)

  /** Bit `n` of the filter, counted from the last byte as the source does. */
  predicate HasBit(filter: Filter, n: nat)
    requires n < 2048
  {
    Bit(filter[255 - n / 8], n % 8)
  }

  /** `bloom[255 - n // 8] |= 1 << (n % 8)`. */
  function WithBit(filter: Filter, n: nat): Filter
    requires n < 2048
  {
    filter[255 - n / 8 := OrByte(filter[255 - n / 8], PowerByte(n % 8))]
  }

  lemma {:induction false} WithBitBits(filter: Filter, n: nat, m: nat)
    requires n < 2048 && m < 2048
    ensures HasBit(WithBit(filter, n), m) <==> HasBit(filter, m) || m == n
  {
    hide Or, Bit, Pow2;
    OrBits(filter[255 - n / 8], PowerByte(n % 8), m % 8);
    PowerBits(n % 8, m % 8);
  }

  function PowerByte(k: nat): (b: Byte)
    requires k < 8
    ensures b == Pow2(k)
  {
    assert Pow2(7) == 128;
    PowerGrows(k, 7);
    Pow2(k)
  }

  lemma {:induction false} PowerGrows(j: nat, k: nat)
    requires j <= k
    ensures Pow2(j) <= Pow2(k)
  {
    if j < k {
      PowerGrows(j, k - 1);
    }
  }

  lemma {:induction false} BitsDetermineFilter(a: Filter, b: Filter)
    requires forall n: nat :: n < 2048 ==> HasBit(a, n) == HasBit(b, n)
    ensures a == b
  {
    forall i | 0 <= i < 256
      ensures a[i] == b[i]
    {
      forall k: nat | k < 8
        ensures Bit(a[i], k) == Bit(b[i], k)
      {
        var n := 8 * (255 - i) + k;
        assert n / 8 == 255 - i && n % 8 == k;
        assert HasBit(a, n) == HasBit(b, n);
      }
      assert Pow2(8) == 256;
      BitsDetermine(a[i], b[i], 8);
    }
  }

  // ----- what is added for one address or topic

  /** `int.from_bytes(digest[offset:offset + 2], "big") & 2047`. */
  function BitIndex(digest: Digest, offset: nat): (n: nat)
    requires offset <= 30
    ensures n < 2048
  {
    FromBytes(digest[offset..offset + 2]) % 2048
  }

  /** `value` sets bit `n`. */
  predicate Hits(keccak: Hash, value: Bytes, n: nat) {
    n == BitIndex(keccak(value), 0) || n == BitIndex(keccak(value), 2) || n == BitIndex(keccak(value), 4)
  }

  /** The bits at the first `count` of the offsets 0, 2 and 4. */
  function AddOffsets(digest: Digest, filter: Filter, count: nat): Filter
    requires count <= 3
  {
    if count == 0 then filter
    else WithBit(AddOffsets(digest, filter, count - 1), BitIndex(digest, 2 * (count - 1)))
  }

  function Add(keccak: Hash, filter: Filter, value: Bytes): Filter {
    AddOffsets(keccak(value), filter, 3)
  }

  lemma {:induction false} AddBits(keccak: Hash, filter: Filter, value: Bytes, n: nat)
    requires n < 2048
    ensures HasBit(Add(keccak, filter, value), n) <==> HasBit(filter, n) || Hits(keccak, value, n)
  {
    hide WithBit, HasBit, BitIndex;
    var digest := keccak(value);
    assert AddOffsets(digest, filter, 0) == filter;
    WithBitBits(filter, BitIndex(digest, 0), n);
    WithBitBits(AddOffsets(digest, filter, 1), BitIndex(digest, 2), n);
    WithBitBits(AddOffsets(digest, filter, 2), BitIndex(digest, 4), n);
  }

  function AddAll(keccak: Hash, filter: Filter, values: seq<Bytes>): Filter
    decreases |values|
  {
    if values == [] then filter
    else Add(keccak, AddAll(keccak, filter, values[..|values| - 1]), values[|values| - 1])
  }

  // ----- the bloom of a list of logs

  datatype Log = Log(address: Bytes, topics: seq<Bytes>, data: Bytes)

  /** The values hashed for `logs`: each log's address, then its topics. */
  function LogValues(logs: seq<Log>): seq<Bytes>
    decreases |logs|
  {
    if logs == [] then []
    else LogValues(logs[..|logs| - 1]) + [logs[|logs| - 1].address] + logs[|logs| - 1].topics
  }

  function LogsBloom(keccak: Hash, logs: seq<Log>): Filter {
    AddAll(keccak, ZERO, LogValues(logs))
  }

  lemma {:induction false} EmptyValues(keccak: Hash)
    ensures AddAll(keccak, ZERO, []) == ZERO
  {
  }

  lemma {:induction false} AddOneMore(keccak: Hash, before: seq<Bytes>, values: seq<Bytes>, v: nat)
    requires v < |values|
    ensures AddAll(keccak, ZERO, before + values[..v + 1])
         == Add(keccak, AddAll(keccak, ZERO, before + values[..v]), values[v])
  {
    hide Zeros, Add;
    var more := before + values[..v + 1];
    assert more[..|more| - 1] == before + values[..v];
  }

  /** `_logs_bloom`, writing the filter in place. */
  method ComputeLogsBloom(keccak: Hash, logs: seq<Log>) returns (bloom: Bytes)
    ensures bloom == LogsBloom(keccak, logs)
  {
    hide Zeros, Or, Add, AddAll;
    var filter := new Byte[256](_ => 0);
    assert filter[..] == ZERO;
    EmptyValues(keccak);
    var l := 0;
    while l < |logs|
      invariant 0 <= l <= |logs|
      invariant filter[..] == AddAll(keccak, ZERO, LogValues(logs[..l]))
    {
      var values := [logs[l].address] + logs[l].topics;
      ghost var before := LogValues(logs[..l]);
      var v := 0;
      assert before + values[..0] == before;
      while v < |values|
        invariant 0 <= v <= |values|
        invariant filter[..] == AddAll(keccak, ZERO, before + values[..v])
      {
        AddValue(keccak, filter, values[v]);
        AddOneMore(keccak, before, values, v);
        v := v + 1;
      }
      assert values[..v] == values && logs[..l + 1][..l] == logs[..l];
      assert LogValues(logs[..l + 1]) == before + values;
      l := l + 1;
    }
    assert logs[..l] == logs;
    bloom := filter[..];
  }

  /** The innermost loop: the three bits of one value. */
  method AddValue(keccak: Hash, filter: array<Byte>, value: Bytes)
    requires filter.Length == 256
    modifies filter
    ensures filter[..] == Add(keccak, old(filter[..]), value)
  {
    hide Or, OrByte, PowerByte, BitIndex, WithBit;
    var digest := keccak(value);
    var offset := 0;
    while offset < 6
      invariant offset in [0, 2, 4, 6]
      invariant filter[..] == AddOffsets(digest, old(filter[..]), offset / 2)
    {
      OrInPlace(filter, BitIndex(digest, offset));
      offset := offset + 2;
    }
  }

  /** `bloom[255 - bit // 8] |= 1 << (bit % 8)`. */
  method OrInPlace(filter: array<Byte>, bit: nat)
    requires filter.Length == 256 && bit < 2048
    modifies filter
    ensures filter[..] == WithBit(old(filter[..]), bit)
  {
    filter[255 - bit / 8] := OrByte(filter[255 - bit / 8], PowerByte(bit % 8));
  }

  // ----- properties

  lemma {:induction false} ZeroHasNoBits(n: nat)
    requires n < 2048
    ensures !HasBit(ZERO, n)
  {
    NoBits(n % 8);
  }

  lemma {:induction false} AddAllBits(keccak: Hash, filter: Filter, values: seq<Bytes>, n: nat)
    requires n < 2048
    ensures HasBit(AddAll(keccak, filter, values), n)
       <==> HasBit(filter, n) || exists v :: v in values && Hits(keccak, v, n)
    decreases |values|
  {
    if values != [] {
      var last := |values| - 1;
      AddAllBits(keccak, filter, values[..last], n);
      AddBits(keccak, AddAll(keccak, filter, values[..last]), values[last], n);
      assert forall v :: v in values <==> v in values[..last] || v == values[last];
    }
  }

  /** A bit is set exactly when some address or topic of the logs sets it. */
  lemma {:induction false} BloomIsExact(keccak: Hash, logs: seq<Log>, n: nat)
    requires n < 2048
    ensures HasBit(LogsBloom(keccak, logs), n) <==> exists v :: v in LogValues(logs) && Hits(keccak, v, n)
  {
    ZeroHasNoBits(n);
    AddAllBits(keccak, ZERO, LogValues(logs), n);
  }

  /** The values of `logs` are exactly its addresses and topics. */
  lemma {:induction false} LogValuesAre(logs: seq<Log>, v: Bytes)
    ensures v in LogValues(logs) <==> exists l :: l in logs && (v == l.address || v in l.topics)
    decreases |logs|
  {
    if logs != [] {
      var last := |logs| - 1;
      LogValuesAre(logs[..last], v);
      assert forall l :: l in logs <==> l in logs[..last] || l == logs[last];
    }
  }

  /** The bloom depends only on which addresses and topics occur, not on order or repetition. */
  lemma {:induction false} BloomIgnoresOrder(keccak: Hash, a: seq<Log>, b: seq<Log>)
    requires forall l :: l in a <==> l in b
    ensures LogsBloom(keccak, a) == LogsBloom(keccak, b)
  {
    forall v
      ensures v in LogValues(a) <==> v in LogValues(b)
    {
      LogValuesAre(a, v);
      LogValuesAre(b, v);
    }
    forall n: nat | n < 2048
      ensures HasBit(LogsBloom(keccak, a), n) == HasBit(LogsBloom(keccak, b), n)
    {
      BloomIsExact(keccak, a, n);
      BloomIsExact(keccak, b, n);
    }
    BitsDetermineFilter(LogsBloom(keccak, a), LogsBloom(keccak, b));
  }

  function OrFilter(a: Filter, b: Filter): Filter {
    seq(256, i requires 0 <= i < 256 => OrByte(a[i], b[i]))
  }

  /** The bloom of a concatenation is the bitwise or of the parts' blooms. */
  lemma {:induction false} BloomOfConcatenation(keccak: Hash, a: seq<Log>, b: seq<Log>)
    ensures LogsBloom(keccak, a + b) == OrFilter(LogsBloom(keccak, a), LogsBloom(keccak, b))
  {
    var union := OrFilter(LogsBloom(keccak, a), LogsBloom(keccak, b));
    forall n: nat | n < 2048
      ensures HasBit(LogsBloom(keccak, a + b), n) == HasBit(union, n)
    {
      ConcatenatedBit(keccak, a, b, n);
      OrFilterBit(LogsBloom(keccak, a), LogsBloom(keccak, b), n);
    }
    hide HasBit, LogsBloom, OrFilter;
    BitsDetermineFilter(LogsBloom(keccak, a + b), union);
  }

  lemma {:induction false} OrFilterBit(a: Filter, b: Filter, n: nat)
    requires n < 2048
    ensures HasBit(OrFilter(a, b), n) <==> HasBit(a, n) || HasBit(b, n)
  {
    hide Or, Bit;
    OrBits(a[255 - n / 8], b[255 - n / 8], n % 8);
  }

  lemma {:induction false} ConcatenatedBit(keccak: Hash, a: seq<Log>, b: seq<Log>, n: nat)
    requires n < 2048
    ensures HasBit(LogsBloom(keccak, a + b), n) <==> HasBit(LogsBloom(keccak, a), n) || HasBit(LogsBloom(keccak, b), n)
  {
    hide HasBit, LogsBloom, LogValues, Hits;
    BloomIsExact(keccak, a, n);
    BloomIsExact(keccak, b, n);
    BloomIsExact(keccak, a + b, n);
    forall v
      ensures v in LogValues(a + b) <==> v in LogValues(a) || v in LogValues(b)
    {
      LogValuesAre(a, v);
      LogValuesAre(b, v);
      LogValuesAre(a + b, v);
      assert forall l :: l in a + b <==> l in a || l in b;
    }
  }

  // ----- the bloom as the 2048-bit number of the Yellow Paper

  lemma {:induction false} BitByDivision(n: nat, k: nat)
    ensures Bit(n, k) <==> n / Pow2(k) % 2 == 1
  {
    if k > 0 {
      BitByDivision(n / 2, k - 1);
      HalfFirst(n, Pow2(k - 1));
    }
  }

  lemma {:induction false} HalfFirst(n: nat, p: nat)
    requires p > 0
    ensures n / 2 / p == n / (2 * p)
  {
    var q, r := n / (2 * p), n % (2 * p);
    assert n == q * (2 * p) + r;
    assert n / 2 == q * p + r / 2;
    assert 0 <= r / 2 < p;
    QuotientIs(n / 2, p, q, r / 2);
  }

  lemma {:induction false} QuotientIs(n: nat, p: nat, q: nat, r: nat)
    requires 0 <= r < p && n == q * p + r
    ensures n / p == q
  {
    var d, m := n / p, n % p;
    assert n == d * p + m;
    Difference(d, q, p);
    Multiples(d - q, p);
  }

  lemma {:induction false} Difference(x: int, y: int, p: int)
    ensures (x - y) * p == x * p - y * p
  {
  }

  lemma {:induction false} Multiples(x: int, p: int)
    requires p > 0
    ensures x >= 1 ==> x * p >= p
    ensures x <= -1 ==> x * p <= -p
  {
    Difference(x, 1, p);
    Difference(-1, x, p);
  }

  /** The bits below `width` are those of the lower part. */
  lemma {:induction false} ShiftedBits(high: nat, low: nat, width: nat, k: nat)
    requires low < Pow2(width)
    ensures Bit(high * Pow2(width) + low, k) <==> if k < width then Bit(low, k) else Bit(high, k - width)
  {
    if width > 0 {
      var n := high * Pow2(width) + low;
      assert high * Pow2(width) == 2 * (high * Pow2(width - 1));
      assert n / 2 == high * Pow2(width - 1) + low / 2 && n % 2 == low % 2;
      if k > 0 {
        ShiftedBits(high, low / 2, width - 1, k - 1);
      }
    } else {
      assert Pow2(0) == 1;
    }
  }

  /** Bit `n` of a big-endian number stands in the byte `n / 8` places from the end. */
  lemma {:induction false} BytesBit(b: Bytes, n: nat)
    requires n < 8 * |b|
    ensures Bit(FromBytes(b), n) <==> Bit(b[|b| - 1 - n / 8], n % 8)
    decreases |b|
  {
    var front, last := b[..|b| - 1], b[|b| - 1];
    assert Pow2(8) == 256;
    ShiftedBits(FromBytes(front), last, 8, n);
    if n >= 8 {
      BytesBit(front, n - 8);
    }
  }

  lemma {:induction false} TwoBytes(d: Digest, offset: nat)
    requires offset <= 30
    ensures BitIndex(d, offset) == (256 * d[offset] as int + d[offset + 1] as int) % 2048
  {
    var pair := d[offset..offset + 2];
    assert pair[..1][..0] == [];
    assert FromBytes(pair[..1]) == pair[0];
    assert pair[0] == d[offset] && pair[1] == d[offset + 1];
  }

  /** `value` sets bit `n`: the low eleven bits of one of the first three pairs of its hash's bytes. */
  predicate SetsBit(keccak: Hash, value: Bytes, n: nat) {
    var d := keccak(value);
    || n == (256 * d[0] as int + d[1] as int) % 2048
    || n == (256 * d[2] as int + d[3] as int) % 2048
    || n == (256 * d[4] as int + d[5] as int) % 2048
  }

  /** Bit `n` of the bloom, read as a number, is set exactly when an address or a topic of a log sets it. */
  lemma {:induction false} BloomAsNumber(keccak: Hash, logs: seq<Log>, n: nat)
    requires n < 2048
    ensures FromBytes(LogsBloom(keccak, logs)) / Pow2(n) % 2 == 1 <==>
              exists l, v :: l in logs && (v == l.address || v in l.topics) && SetsBit(keccak, v, n)
  {
    hide LogsBloom, Bit, Pow2, FromBytes, LogValues, Hits, SetsBit;
    var bloom := LogsBloom(keccak, logs);
    BitByDivision(FromBytes(bloom), n);
    BytesBit(bloom, n);
    BloomIsExact(keccak, logs, n);
    forall v
      ensures v in LogValues(logs) <==> exists l :: l in logs && (v == l.address || v in l.topics)
      ensures Hits(keccak, v, n) <==> SetsBit(keccak, v, n)
    {
      LogValuesAre(logs, v);
      HitsAre(keccak, v, n);
    }
  }

  lemma {:induction false} HitsAre(keccak: Hash, value: Bytes, n: nat)
    ensures Hits(keccak, value, n) <==> SetsBit(keccak, value, n)
  {
    hide BitIndex;
    TwoBytes(keccak(value), 0);
    TwoBytes(keccak(value), 2);
    TwoBytes(keccak(value), 4);
  }
}
