/**
 Canonical JSON texts, over which bundle roots are computed: `canonical_json_str` in
 `scripts/bundle_verify.py`, and the second encoder in `scripts/differential_fuzz.py`.
 */
module CanonicalJson {
  import opened Basics
  import opened Decimals
  import opened Ids

  /** JSON values as Python holds them; a dict keeps the order in which its keys were inserted. */
  datatype Json =
    | Null
    | Boolean(b: bool)
    | Number(n: int)
    | Str(s: string)
    | Array(items: seq<Json>)
    | Object(order: seq<Id>, entries: map<Id, Json>)

  predicate Distinct(keys: seq<Id>) {
    forall i, j :: 0 <= i < j < |keys| ==> keys[i] != keys[j]
  }

  /** In every dict, the order lists each key once. */
  predicate IsDict(x: Json) {
    match x
    case Array(items) => forall y :: y in items ==> IsDict(y)
    case Object(order, entries) =>
      && Distinct(order) && (forall k :: k in order ==> k in entries) && (forall k :: k in entries ==> k in order)
      && forall k :: k in entries ==> IsDict(entries[k])
    case _ => true
  }

  /** Python's `==`, which does not look at the order of keys. */
  predicate Same(x: Json, y: Json)
    decreases x
  {
    match x
    case Array(items) =>
      y.Array? && |items| == |y.items| && forall i :: 0 <= i < |items| ==> Same(items[i], y.items[i])
    case Object(order, entries) =>
      y.Object? && entries.Keys == y.entries.Keys && forall k :: k in entries ==> Same(entries[k], y.entries[k])
    case _ => x == y
  }

  // ----- text

  function HexDigit(n: nat): char
    requires n < 16
  {
    if n < 10 then n as char + '0' else (n - 10) as char + 'a'
  }

  /** The last `width` hexadecimal digits of a number. */
  function Hex(n: nat, width: nat): (h: string)
    ensures |h| == width
    decreases width
  {
    if width == 0 then [] else Hex(n / 16, width - 1) + [HexDigit(n % 16)]
  }

  function UnicodeEscape(n: nat): (t: string)
    requires n < 0x1_0000
    ensures |t| == 6 && t[0] == '\\' && t[1] == 'u'
  {
    ['\\', 'u'] + Hex(n, 4)
  }

  /** The letter of a character's two-character escape, if it has one. */
  function Letter(c: char): Option<char> {
    if c == '"' || c == '\\' then Some(c)
    else if c == '\n' then Some('n')
    else if c == '\r' then Some('r')
    else if c == '\t' then Some('t')
    else if c == '\U{C}' then Some('f')
    else if c == '\U{8}' then Some('b')
    else None
  }

  /** The surrogates of a character beyond the basic plane. */
  function High(c: char): (n: nat)
    requires c as int >= 0x1_0000
    ensures 0xD800 <= n < 0xDC00
  {
    0xD800 + (c as int - 0x1_0000) / 0x400
  }

  function Low(c: char): (n: nat)
    requires c as int >= 0x1_0000
    ensures 0xDC00 <= n < 0xE000
  {
    0xDC00 + (c as int - 0x1_0000) % 0x400
  }

  /** A character as `json.dumps` spells it in ASCII: beyond the basic plane, as a surrogate pair. */
  function Spelling(c: char): (t: string)
    ensures t != [] && t[0] != '"'
  {
    var n := c as int;
    if Letter(c).Some? then ['\\', Letter(c).value]
    else if ' ' <= c <= '~' then [c]
    else if n < 0x1_0000 then UnicodeEscape(n)
    else UnicodeEscape(High(c)) + UnicodeEscape(Low(c))
  }

  function SpellingAll(s: string): string {
    if s == [] then [] else Spelling(s[0]) + SpellingAll(s[1..])
  }

  /** `json.dumps` of a string. */
  function Quoted(s: string): string {
    ['"'] + SpellingAll(s) + ['"']
  }

  /** `",".join(parts)`. */
  function Join(parts: seq<string>): string {
    if parts == [] then []
    else if |parts| == 1 then parts[0]
    else parts[0] + [','] + Join(parts[1..])
  }

  // ----- the two encoders

  /** `json.dumps` with compact separators; keys come in the dict's own order. */
  function Dumps(x: Json): string
    requires IsDict(x)
    decreases x, 1
  {
    match x
    case Null => "null"
    case Boolean(b) => if b then "true" else "false"
    case Number(n) => Decimal(n)
    case Str(s) => Quoted(s)
    case Array(items) => ['['] + Join(DumpsItems(items)) + [']']
    case Object(order, _) => ['{'] + Join(DumpsEntries(x, order)) + ['}']
  }

  function DumpsItems(items: seq<Json>): (parts: seq<string>)
    requires forall y :: y in items ==> IsDict(y)
    ensures |parts| == |items|
    decreases items, 0
  {
    if items == [] then [] else [Dumps(items[0])] + DumpsItems(items[1..])
  }

  function DumpsEntries(x: Json, keys: seq<Id>): (parts: seq<string>)
    requires x.Object? && IsDict(x) && forall k :: k in keys ==> k in x.entries
    ensures |parts| == |keys|
    decreases x, 0, |keys|
  {
    if keys == [] then []
    else [Quoted(keys[0].text) + [':'] + Dumps(x.entries[keys[0]])] + DumpsEntries(x, keys[1..])
  }

  function InsertKey(key: Id, keys: seq<Id>): (r: seq<Id>)
    ensures forall k :: k in r <==> k == key || k in keys
  {
    if keys == [] || Less(key, keys[0]) then [key] + keys else [keys[0]] + InsertKey(key, keys[1..])
  }

  lemma {:induction false} InsertAscends(key: Id, keys: seq<Id>)
    requires Ascending(keys) && key !in keys
    ensures Ascending(InsertKey(key, keys))
  {
    if keys != [] {
      LessTotal(key, keys[0]);
      if Less(key, keys[0]) {
        forall j | 0 < j < |keys|
          ensures Less(key, keys[j])
        {
          LessTransitive(key, keys[0], keys[j]);
        }
      } else {
        InsertAscends(key, keys[1..]);
        assert forall k :: k in InsertKey(key, keys[1..]) ==> Less(keys[0], k);
      }
    }
  }

  /** `sorted(keys)`. */
  function Arranged(keys: seq<Id>): (r: seq<Id>)
    ensures forall k :: k in r <==> k in keys
  {
    if keys == [] then [] else InsertKey(keys[0], Arranged(keys[1..]))
  }

  lemma {:induction false} ArrangedAscends(keys: seq<Id>)
    requires Distinct(keys)
    ensures Ascending(Arranged(keys)) && Distinct(Arranged(keys))
  {
    if keys != [] {
      ArrangedAscends(keys[1..]);
      InsertAscends(keys[0], Arranged(keys[1..]));
    }
    AscendingIsDistinct(Arranged(keys));
  }

  /** `sort_key`: the same value with every dict rebuilt in the order of its keys. */
  function SortKeys(x: Json): Json {
    match x
    case Array(items) => Array(SortAll(items))
    case Object(order, entries) => Object(Arranged(order), map k | k in entries :: SortKeys(entries[k]))
    case _ => x
  }

  function SortAll(items: seq<Json>): (r: seq<Json>)
    ensures |r| == |items| && forall i :: 0 <= i < |items| ==> r[i] == SortKeys(items[i])
  {
    if items == [] then [] else [SortKeys(items[0])] + SortAll(items[1..])
  }

  lemma {:induction false} SortKeysIsDict(x: Json)
    requires IsDict(x)
    ensures IsDict(SortKeys(x))
  {
    match x
    case Array(items) =>
      forall y | y in SortAll(items)
        ensures IsDict(y)
      {
        var i :| 0 <= i < |items| && y == SortKeys(items[i]);
        SortKeysIsDict(items[i]);
      }
    case Object(order, entries) =>
      ArrangedAscends(order);
      forall k | k in entries
        ensures IsDict(SortKeys(entries[k]))
      {
        SortKeysIsDict(entries[k]);
      }
    case _ =>
  }

  lemma {:induction false} AscendingIsDistinct(keys: seq<Id>)
    requires Ascending(keys)
    ensures Distinct(keys)
  {
    forall i, j | 0 <= i < j < |keys|
      ensures keys[i] != keys[j]
    {
      LessTotal(keys[i], keys[j]);
    }
  }

  /** `canonical_json_str`: keys are sorted twice, by `sort_key` and by `json.dumps(..., sort_keys=True)`. */
  function Canonical(x: Json): string
    requires IsDict(x)
  {
    SortKeysIsDict(x);
    SortKeysIsDict(SortKeys(x));
    Dumps(SortKeys(SortKeys(x)))
  }

  /** `canonical_json` of the fuzzer, which sorts as it prints; scalars go to `json.dumps`. */
  function FuzzCanonical(x: Json): string
    requires IsDict(x)
    decreases x, 1
  {
    match x
    case Array(items) => ['['] + Join(FuzzItems(items)) + [']']
    case Object(order, _) => ['{'] + Join(FuzzEntries(x, Arranged(order))) + ['}']
    case _ => Dumps(x)
  }

  function FuzzItems(items: seq<Json>): seq<string>
    requires forall y :: y in items ==> IsDict(y)
    decreases items, 0
  {
    if items == [] then [] else [FuzzCanonical(items[0])] + FuzzItems(items[1..])
  }

  function FuzzEntries(x: Json, keys: seq<Id>): seq<string>
    requires x.Object? && IsDict(x) && forall k :: k in keys ==> k in x.entries
    decreases x, 0, |keys|
  {
    if keys == [] then []
    else [Quoted(keys[0].text) + [':'] + FuzzCanonical(x.entries[keys[0]])] + FuzzEntries(x, keys[1..])
  }

  // ----- the encoders agree

  lemma {:induction false} ArrangedIsArranged(keys: seq<Id>)
    requires Distinct(keys)
    ensures Arranged(Arranged(keys)) == Arranged(keys)
  {
    ArrangedAscends(keys);
    ArrangedAscends(Arranged(keys));
    AscendingUnique(Arranged(Arranged(keys)), Arranged(keys));
  }

  /** Sorting again changes nothing. */
  lemma {:induction false} SortKeysIdempotent(x: Json)
    requires IsDict(x)
    ensures SortKeys(SortKeys(x)) == SortKeys(x)
  {
    hide Arranged, SortAll;
    match x
    case Array(items) =>
      forall i | 0 <= i < |items|
        ensures SortKeys(SortKeys(items[i])) == SortKeys(items[i])
      {
        SortKeysIdempotent(items[i]);
      }
      assert SortAll(SortAll(items)) == SortAll(items);
    case Object(order, entries) =>
      ArrangedIsArranged(order);
      forall k | k in entries
        ensures SortKeys(SortKeys(entries[k])) == SortKeys(entries[k])
      {
        SortKeysIdempotent(entries[k]);
      }
      SortedTwice(x);
    case _ =>
  }

  lemma {:induction false} SortedTwice(x: Json)
    requires x.Object? && Arranged(Arranged(x.order)) == Arranged(x.order)
    requires forall k :: k in x.entries ==> SortKeys(SortKeys(x.entries[k])) == SortKeys(x.entries[k])
    ensures SortKeys(SortKeys(x)) == SortKeys(x)
  {
    hide Arranged;
    assert SortKeys(SortKeys(x)).entries == SortKeys(x).entries;
  }

  lemma {:induction false} FuzzIsSorted(x: Json)
    requires IsDict(x)
    ensures IsDict(SortKeys(x)) && FuzzCanonical(x) == Dumps(SortKeys(x))
    decreases x, 1
  {
    SortKeysIsDict(x);
    match x
    case Array(items) => FuzzItemsSorted(items);
    case Object(order, _) => FuzzEntriesSorted(x, Arranged(order));
    case _ =>
  }

  lemma {:induction false} FuzzItemsSorted(items: seq<Json>)
    requires forall y :: y in items ==> IsDict(y)
    ensures (forall y :: y in SortAll(items) ==> IsDict(y)) && FuzzItems(items) == DumpsItems(SortAll(items))
    decreases items, 0
  {
    if items != [] {
      FuzzIsSorted(items[0]);
      FuzzItemsSorted(items[1..]);
      assert SortAll(items) == [SortKeys(items[0])] + SortAll(items[1..]);
      assert SortAll(items)[1..] == SortAll(items[1..]);
    }
  }

  lemma {:induction false} FuzzEntriesSorted(x: Json, keys: seq<Id>)
    requires x.Object? && IsDict(x) && forall k :: k in keys ==> k in x.entries
    ensures IsDict(SortKeys(x)) && FuzzEntries(x, keys) == DumpsEntries(SortKeys(x), keys)
    decreases x, 0, |keys|
  {
    SortKeysIsDict(x);
    if keys != [] {
      FuzzIsSorted(x.entries[keys[0]]);
      FuzzEntriesSorted(x, keys[1..]);
    }
  }

  /** The verifier's encoder and the fuzzer's print the same text. */
  lemma {:induction false} EncodersAgree(x: Json)
    requires IsDict(x)
    ensures Canonical(x) == FuzzCanonical(x)
  {
    SortKeysIdempotent(x);
    FuzzIsSorted(x);
  }
}
