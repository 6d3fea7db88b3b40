/**
 A reader of JSON texts, after RFC 8259, for numbers without fractions and exponents: it recovers every value from
 the text that `json.dumps` prints for it.
 */
module JsonReader {
  import opened Basics
  import opened CanonicalJson
  import opened Decimals
  import opened Ids
  import opened JsonRpcText

  /** What is read, and the text behind it. */
  type Reading<T> = Option<(T, string)>

  // ----- strings, section 7

  function Escaped(letter: char): Option<char> {
    match letter
    case '"' => Some('"')
    case '\\' => Some('\\')
    case '/' => Some('/')
    case 'b' => Some('\U{8}')
    case 'f' => Some('\U{C}')
    case 'n' => Some('\n')
    case 'r' => Some('\r')
    case 't' => Some('\t')
    case _ => None
  }

  /** Four hexadecimal digits. */
  function CodeUnit(t: string): (n: Option<nat>)
    ensures n.Some? ==> |t| >= 4 && n.value < 0x1_0000
  {
    if |t| < 4 || !IsHexDigit(t[0]) || !IsHexDigit(t[1]) || !IsHexDigit(t[2]) || !IsHexDigit(t[3]) then None
    else
      var a: int, b: int, c: int, d: int := HexValue(t[0]), HexValue(t[1]), HexValue(t[2]), HexValue(t[3]);
      Some(0x1000 * a + 0x100 * b + 0x10 * c + d)
  }

  /** One character; two escaped surrogates make one. */
  function ReadChar(t: string): (r: Reading<char>)
    requires t != []
    ensures r.Some? ==> |r.value.1| < |t|
  {
    if t[0] < ' ' then None
    else if t[0] != '\\' then Some((t[0], t[1..]))
    else if |t| == 1 then None
    else if t[1] != 'u' then
      var c :- Escaped(t[1]);
      Some((c, t[2..]))
    else
      var n :- CodeUnit(t[2..]);
      if n < 0xD800 || 0xE000 <= n then Some((n as char, t[6..]))
      else if 0xDC00 <= n || |t| < 8 || t[6] != '\\' || t[7] != 'u' then None
      else
        var low :- CodeUnit(t[8..]);
        if 0xDC00 <= low < 0xE000 then
          Some(((0x1_0000 + 0x400 * (n - 0xD800) + (low - 0xDC00)) as char, t[12..]))
        else None
  }

  /** A string behind its opening quote. */
  function ReadString(t: string): (r: Reading<string>)
    ensures r.Some? ==> |r.value.1| < |t|
  {
    if t == [] then None
    else if t[0] == '"' then Some(([], t[1..]))
    else
      var (c, rest) :- ReadChar(t);
      var (s, after) :- ReadString(rest);
      Some(([c] + s, after))
  }

  // ----- numbers, section 6

  function DigitRun(t: string): (n: nat)
    ensures n <= |t|
    ensures forall i :: 0 <= i < n ==> IsDigit(t[i])
  {
    if t == [] || !IsDigit(t[0]) then 0 else 1 + DigitRun(t[1..])
  }

  /** The digits of a number end here. */
  predicate Ends(rest: string) {
    rest == [] || !IsDigit(rest[0])
  }

  /** An integer, without leading zeros; no text goes on with a fraction or an exponent. */
  function ReadNumber(t: string): (r: Reading<Json>)
    ensures r.Some? ==> |r.value.1| < |t|
  {
    var signed := t != [] && t[0] == '-';
    var from := if signed then t[1..] else t;
    var n := DigitRun(from);
    if n == 0 || (from[0] == '0' && n > 1) then None
    else
      var value: int := MagnitudeValue(from[..n]);
      Some((Number(if signed then -value else value), from[n..]))
  }

  // ----- values, sections 2 to 5

  function SkipBlank(t: string): (rest: string)
    ensures |rest| <= |t|
  {
    if t != [] && t[0] in " \t\n\r" then SkipBlank(t[1..]) else t
  }

  function Behind(t: string, x: Json, word: string): Reading<Json>
    requires word != []
    ensures Behind(t, x, word).Some? ==> |Behind(t, x, word).value.1| < |t|
  {
    if word <= t then Some((x, t[|word|..])) else None
  }

  function ReadValue(t: string): (r: Reading<Json>)
    ensures r.Some? ==> |r.value.1| < |t|
    decreases |t|, 0
  {
    var u := SkipBlank(t);
    if u == [] then None
    else if u[0] == '"' then
      var (s, rest) :- ReadString(u[1..]);
      Some((Str(s), rest))
    else if u[0] == '[' then
      var v := SkipBlank(u[1..]);
      if v != [] && v[0] == ']' then Some((Array([]), v[1..]))
      else
        var (items, rest) :- ReadItems(v);
        Some((Array(items), rest))
    else if u[0] == '{' then
      var v := SkipBlank(u[1..]);
      if v != [] && v[0] == '}' then Some((DictOf([]), v[1..]))
      else
        var (members, rest) :- ReadMembers(v);
        Some((DictOf(members), rest))
    else if u[0] == 'n' then Behind(u, Json.Null, "null")
    else if u[0] == 't' then Behind(u, Boolean(true), "true")
    else if u[0] == 'f' then Behind(u, Boolean(false), "false")
    else ReadNumber(u)
  }

  /** Values separated by commas, and the closing bracket. */
  function ReadItems(t: string): (r: Reading<seq<Json>>)
    ensures r.Some? ==> |r.value.1| < |t|
    decreases |t|, 1
  {
    var (x, rest) :- ReadValue(t);
    var u := SkipBlank(rest);
    if u == [] then None
    else if u[0] == ']' then Some(([x], u[1..]))
    else if u[0] != ',' then None
    else
      var (items, after) :- ReadItems(u[1..]);
      Some(([x] + items, after))
  }

  /** Members separated by commas, and the closing brace. */
  function ReadMembers(t: string): (r: Reading<seq<(Id, Json)>>)
    ensures r.Some? ==> |r.value.1| < |t|
    decreases |t|, 1
  {
    var u := SkipBlank(t);
    if u == [] || u[0] != '"' then None
    else
      var (key, afterKey) :- ReadString(u[1..]);
      var v := SkipBlank(afterKey);
      if v == [] || v[0] != ':' then None
      else
        var (x, rest) :- ReadValue(v[1..]);
        var w := SkipBlank(rest);
        if w == [] then None
        else if w[0] == '}' then Some(([(Id(key), x)], w[1..]))
        else if w[0] != ',' then None
        else
          var (members, after) :- ReadMembers(w[1..]);
          Some(([(Id(key), x)] + members, after))
  }

  /** A dict of these members: a key keeps its first place and takes its last value. */
  function DictOf(members: seq<(Id, Json)>): (x: Json)
    ensures x.Object?
    decreases |members|
  {
    if members == [] then Object([], map[])
    else
      var (key, value) := members[|members| - 1];
      var before := DictOf(members[..|members| - 1]);
      Object(if key in before.order then before.order else before.order + [key], before.entries[key := value])
  }

  /** `json.loads`: one value, and nothing but blanks behind it. */
  function ReadJson(t: string): Option<Json> {
    var (x, rest) :- ReadValue(t);
    if SkipBlank(rest) == [] then Some(x) else None
  }

  // ----- strings are recovered

  lemma {:induction false} HexDigitRead(n: nat)
    requires n < 16
    ensures IsHexDigit(HexDigit(n)) && HexValue(HexDigit(n)) == n
  {
  }

  lemma {:induction false} HexIs(n: nat)
    requires n < 0x1_0000
    ensures Hex(n, 4) == [HexDigit(n / 0x1000), HexDigit(n / 0x100 % 16), HexDigit(n / 0x10 % 16), HexDigit(n % 16)]
  {
    hide HexDigit;
    assert Hex(n, 4) == Hex(n / 16, 3) + [HexDigit(n % 16)];
    assert Hex(n / 16, 3) == Hex(n / 16 / 16, 2) + [HexDigit(n / 16 % 16)];
    assert Hex(n / 16 / 16, 2) == Hex(n / 16 / 16 / 16, 1) + [HexDigit(n / 16 / 16 % 16)];
    assert Hex(n / 16 / 16 / 16, 1) == Hex(n / 16 / 16 / 16 / 16, 0) + [HexDigit(n / 16 / 16 / 16 % 16)];
    assert n / 16 / 16 == n / 0x100 && n / 16 / 16 / 16 == n / 0x1000 && n / 0x1000 < 16;
  }

  lemma {:induction false} PlaceValues(n: nat)
    ensures n == 0x1000 * (n / 0x1000) + 0x100 * (n / 0x100 % 16) + 0x10 * (n / 0x10 % 16) + n % 16
  {
    assert n / 0x100 == 16 * (n / 0x1000) + n / 0x100 % 16 && n / 0x10 == 16 * (n / 0x100) + n / 0x10 % 16;
  }

  lemma {:induction false} CodeUnitRead(n: nat, rest: string)
    requires n < 0x1_0000
    ensures CodeUnit(Hex(n, 4) + rest) == Some(n)
  {
    HexIs(n);
    HexDigitRead(n / 0x1000);
    HexDigitRead(n / 0x100 % 16);
    HexDigitRead(n / 0x10 % 16);
    HexDigitRead(n % 16);
    hide HexDigit, Hex, HexValue, IsHexDigit;
    PlaceValues(n);
  }

  /** An escape read where it stands. */
  lemma {:induction false} EscapeRead(n: nat, rest: string)
    requires n < 0x1_0000
    ensures var t := UnicodeEscape(n) + rest;
            |t| >= 6 && t[0] == '\\' && t[1] == 'u' && CodeUnit(t[2..]) == Some(n) && t[6..] == rest
  {
    hide Hex, CodeUnit;
    CodeUnitRead(n, rest);
    assert (UnicodeEscape(n) + rest)[2..] == Hex(n, 4) + rest;
  }

  lemma {:induction false} LetterRead(c: char)
    requires Letter(c).Some?
    ensures Letter(c).value != 'u' && Escaped(Letter(c).value) == Some(c)
  {
  }

  lemma {:induction false} SurrogatesMean(c: char)
    requires c as int >= 0x1_0000
    ensures c == (0x1_0000 + 0x400 * (High(c) - 0xD800) + (Low(c) - 0xDC00)) as char
  {
  }

  lemma {:induction false} BeyondPlane(c: char)
    requires c as int >= 0x1_0000
    ensures Letter(c).None? && c > '~'
  {
  }

  lemma {:induction false} SurrogatesSpell(c: char, rest: string)
    requires c as int >= 0x1_0000
    ensures Spelling(c) + rest == UnicodeEscape(High(c)) + (UnicodeEscape(Low(c)) + rest)
  {
    hide UnicodeEscape, Letter, High, Low;
    BeyondPlane(c);
    assert Spelling(c) == UnicodeEscape(High(c)) + UnicodeEscape(Low(c));
  }

  lemma {:induction false} PairRead(c: char, rest: string)
    requires c as int >= 0x1_0000
    ensures ReadChar(Spelling(c) + rest) == Some((c, rest))
  {
    hide UnicodeEscape, CodeUnit, Letter, Spelling, High, Low, ReadChar;
    var high, low := High(c), Low(c);
    var second := UnicodeEscape(low) + rest;
    SurrogatesSpell(c, rest);
    SurrogatesMean(c);
    EscapeRead(high, second);
    EscapeRead(low, rest);
    PairStep(UnicodeEscape(high) + second, second, high, low);
  }

  /** Two escapes that follow each other, a high and a low surrogate. */
  lemma {:induction false} PairStep(t: string, second: string, high: nat, low: nat)
    requires |t| >= 6 && t[0] == '\\' && t[1] == 'u' && CodeUnit(t[2..]) == Some(high) && t[6..] == second
    requires |second| >= 6 && second[0] == '\\' && second[1] == 'u' && CodeUnit(second[2..]) == Some(low)
    requires 0xD800 <= high < 0xDC00 <= low < 0xE000
    ensures ReadChar(t) == Some(((0x1_0000 + 0x400 * (high - 0xD800) + (low - 0xDC00)) as char, second[6..]))
  {
    hide CodeUnit;
    assert t[6] == second[0] && t[7] == second[1] && t[8..] == second[2..] && t[12..] == second[6..];
  }

  lemma {:induction false} CharRead(c: char, rest: string)
    ensures ReadChar(Spelling(c) + rest) == Some((c, rest))
  {
    hide UnicodeEscape, CodeUnit, Escaped;
    var t := Spelling(c) + rest;
    if Letter(c).Some? {
      LetterRead(c);
      assert t[2..] == rest;
    } else if ' ' <= c <= '~' {
      assert t[1..] == rest;
    } else if c as int < 0x1_0000 {
      EscapeRead(c as int, rest);
    } else {
      PairRead(c, rest);
    }
  }

  /** A string is recovered, whatever follows its closing quote. */
  lemma {:induction false} StringRead(s: string, rest: string)
    ensures ReadString(SpellingAll(s) + ['"'] + rest) == Some((s, rest))
  {
    hide ReadChar, Spelling;
    var t := SpellingAll(s) + ['"'] + rest;
    if s == [] {
      assert t[1..] == rest;
    } else {
      var more := SpellingAll(s[1..]) + ['"'] + rest;
      assert t == Spelling(s[0]) + more;
      CharRead(s[0], more);
      StringRead(s[1..], rest);
      assert s == [s[0]] + s[1..];
    }
  }

  lemma {:induction false} QuotedRead(s: string, rest: string)
    ensures var t := Quoted(s) + rest;
            t != [] && t[0] == '"' && ReadString(t[1..]) == Some((s, rest))
  {
    hide SpellingAll, ReadString;
    StringRead(s, rest);
    assert (Quoted(s) + rest)[1..] == SpellingAll(s) + ['"'] + rest;
  }

  // ----- numbers are recovered

  lemma {:induction false} DigitRunIs(digits: string, rest: string)
    requires (forall i :: 0 <= i < |digits| ==> IsDigit(digits[i])) && Ends(rest)
    ensures DigitRun(digits + rest) == |digits|
  {
    if digits == [] {
      assert digits + rest == rest;
    } else {
      DigitRunIs(digits[1..], rest);
      assert (digits + rest)[1..] == digits[1..] + rest;
    }
  }

  lemma {:induction false} NoLeadingZero(n: nat)
    ensures Digits(n)[0] == '0' ==> n == 0 && |Digits(n)| == 1
  {
    if n >= 10 {
      NoLeadingZero(n / 10);
    }
  }

  lemma {:induction false} NumberRead(n: int, rest: string)
    requires Ends(rest)
    ensures ReadNumber(Decimal(n) + rest) == Some((Number(n), rest))
  {
    hide MagnitudeValue, Digits, Ends, ReadNumber;
    var t := Decimal(n) + rest;
    if n < 0 {
      NoLeadingZero(-n);
      assert t[1..] == Digits(-n) + rest;
      MagnitudeRead(t, true, Digits(-n), rest);
    } else {
      NoLeadingZero(n);
      assert t[0] == Digits(n)[0];
      MagnitudeRead(t, false, Digits(n), rest);
    }
  }

  lemma {:induction false} MagnitudeRead(t: string, signed: bool, digits: string, rest: string)
    requires AllDigits(digits) && Ends(rest) && (digits[0] == '0' ==> |digits| == 1)
    requires if signed then t != [] && t[0] == '-' && t[1..] == digits + rest else t == digits + rest
    ensures ReadNumber(t)
         == Some((Number(if signed then -(MagnitudeValue(digits) as int) else MagnitudeValue(digits)), rest))
  {
    DigitRunIs(digits, rest);
    hide MagnitudeValue, DigitRun, Ends;
    assert (digits + rest)[..|digits|] == digits && (digits + rest)[|digits|..] == rest;
  }

  // ----- values are recovered

  /** What follows the first of some parts: the other parts, the closing bracket and the rest. */
  function AfterFirst(parts: seq<string>, close: char, rest: string): (t: string)
    ensures t != [] && (t[0] == ',' || t[0] == close)
  {
    if parts == [] then [close] + rest else [','] + Join(parts) + [close] + rest
  }

  lemma {:induction false} SplitFirst(parts: seq<string>, close: char, rest: string)
    requires parts != []
    ensures Join(parts) + [close] + rest == parts[0] + AfterFirst(parts[1..], close, rest)
  {
  }

  lemma {:induction false} TailOf(parts: seq<string>, close: char, rest: string)
    ensures AfterFirst(parts, close, rest)[0] == if parts == [] then close else ','
    ensures AfterFirst(parts, close, rest)[1..] == if parts == [] then rest else Join(parts) + [close] + rest
  {
    hide Join;
  }

  lemma {:induction false} NotBlank(t: string)
    requires t != [] && t[0] !in " \t\n\r"
    ensures SkipBlank(t) == t
  {
  }

  /** The first character of a printed value. */
  predicate Starts(x: Json, c: char) {
    match x
    case Null => c == 'n'
    case Boolean(b) => c == if b then 't' else 'f'
    case Number(_) => c == '-' || IsDigit(c)
    case Str(_) => c == '"'
    case Array(_) => c == '['
    case Object(_, _) => c == '{'
  }

  lemma {:induction false} DumpsStarts(x: Json)
    requires IsDict(x)
    ensures Dumps(x) != [] && Starts(x, Dumps(x)[0])
  {
  }

  /** The value is recovered from its text, whatever follows, unless that would continue a number. */
  lemma {:induction false} ValueRead(x: Json, rest: string)
    requires IsDict(x) && Ends(rest)
    ensures ReadValue(Dumps(x) + rest) == Some((x, rest))
    decreases x, 1
  {
    hide ReadItems, ReadMembers, ReadNumber, ReadString, SkipBlank, DictOf, Ends;
    var t := Dumps(x) + rest;
    DumpsStarts(x);
    NotBlank(t);
    match x
    case Null => assert t[4..] == rest;
    case Boolean(b) => assert t[|Dumps(x)|..] == rest;
    case Number(n) => NumberRead(n, rest);
    case Str(s) => QuotedRead(s, rest);
    case Array(items) => ArrayRead(items, rest);
    case Object(_, _) => ObjectRead(x, rest);
  }

  lemma {:induction false} ArrayRead(items: seq<Json>, rest: string)
    requires forall y :: y in items ==> IsDict(y)
    ensures ReadValue(['['] + Join(DumpsItems(items)) + [']'] + rest) == Some((Array(items), rest))
    decreases items, 1
  {
    var inner := Join(DumpsItems(items)) + [']'] + rest;
    var t := ['['] + Join(DumpsItems(items)) + [']'] + rest;
    assert t[1..] == inner;
    assert items == [] ==> inner == [']'] + rest && inner[1..] == rest;
    hide Join, DumpsItems, ReadMembers, ReadItems, ReadString, ReadNumber, SkipBlank, DictOf;
    NotBlank(t);
    if items == [] {
      NotBlank(inner);
    } else {
      FirstItem(items, rest);
      NotBlank(inner);
      ItemsRead(items, rest);
    }
  }

  lemma {:induction false} FirstItem(items: seq<Json>, rest: string)
    requires items != [] && forall y :: y in items ==> IsDict(y)
    ensures var inner := Join(DumpsItems(items)) + [']'] + rest;
            inner != [] && inner[0] !in " \t\n\r" && inner[0] != ']'
  {
    SplitFirst(DumpsItems(items), ']', rest);
    DumpsStarts(items[0]);
    hide Dumps, Join, AfterFirst;
    assert DumpsItems(items)[0] == Dumps(items[0]);
  }

  lemma {:induction false} ItemsStep(t: string, x: Json, u: string)
    requires ReadValue(t) == Some((x, u)) && u != [] && u[0] in ",]"
    ensures u[0] == ']' ==> ReadItems(t) == Some(([x], u[1..]))
    ensures u[0] == ',' && ReadItems(u[1..]).Some? ==>
              ReadItems(t) == Some(([x] + ReadItems(u[1..]).value.0, ReadItems(u[1..]).value.1))
  {
    NotBlank(u);
    hide ReadValue, SkipBlank;
  }

  lemma {:induction false} CommaEnds(u: string)
    requires u != [] && u[0] in ",]}"
    ensures Ends(u)
  {
  }

  lemma {:induction false} ItemsRead(items: seq<Json>, rest: string)
    requires items != [] && forall y :: y in items ==> IsDict(y)
    ensures ReadItems(Join(DumpsItems(items)) + [']'] + rest) == Some((items, rest))
    decreases items, 0
  {
    var parts := DumpsItems(items[1..]);
    assert DumpsItems(items)[0] == Dumps(items[0]) && DumpsItems(items)[1..] == parts;
    hide Join, Dumps, DumpsItems, IsDict, AfterFirst, ReadValue, ReadItems, Ends;
    SplitFirst(DumpsItems(items), ']', rest);
    var u := AfterFirst(parts, ']', rest);
    CommaEnds(u);
    ValueRead(items[0], u);
    TailOf(parts, ']', rest);
    ItemsStep(Dumps(items[0]) + u, items[0], u);
    assert items == [items[0]] + items[1..];
    if parts != [] {
      ItemsRead(items[1..], rest);
      assert ReadItems(u[1..]) == Some((items[1..], rest));
    } else {
      assert u[1..] == rest && items == [items[0]];
    }
  }

  /** The members of a dict for these of its keys. */
  function MembersOf(x: Json, keys: seq<Id>): (members: seq<(Id, Json)>)
    requires x.Object? && forall k :: k in keys ==> k in x.entries
    ensures |members| == |keys| && forall i :: 0 <= i < |keys| ==> members[i] == (keys[i], x.entries[keys[i]])
  {
    if keys == [] then [] else [(keys[0], x.entries[keys[0]])] + MembersOf(x, keys[1..])
  }

  lemma {:induction false} BraceStep(t: string, inner: string)
    requires t != [] && t[0] == '{' && t[1..] == inner && inner != [] && inner[0] in "\"}"
    ensures inner[0] == '}' ==> ReadValue(t) == Some((DictOf([]), inner[1..]))
    ensures inner[0] == '"' && ReadMembers(inner).Some? ==>
              ReadValue(t) == Some((DictOf(ReadMembers(inner).value.0), ReadMembers(inner).value.1))
  {
    NotBlank(t);
    NotBlank(inner);
    hide ReadMembers, ReadItems, ReadString, ReadNumber, SkipBlank, DictOf, Behind;
  }

  lemma {:induction false} ObjectRead(x: Json, rest: string)
    requires x.Object? && IsDict(x)
    ensures ReadValue(['{'] + Join(DumpsEntries(x, x.order)) + ['}'] + rest) == Some((x, rest))
    decreases x, 0, |x.order| + 1
  {
    var inner := Join(DumpsEntries(x, x.order)) + ['}'] + rest;
    var t := ['{'] + Join(DumpsEntries(x, x.order)) + ['}'] + rest;
    assert t[1..] == inner;
    assert x.order == [] ==> inner == ['}'] + rest && inner[1..] == rest;
    hide Join, DumpsEntries, ReadMembers, ReadValue, DictOf, MembersOf;
    MembersMakeDict(x);
    if x.order != [] {
      FirstMember(x, rest);
      MembersRead(x, x.order, rest);
    }
    BraceStep(t, inner);
  }

  lemma {:induction false} MembersMakeDict(x: Json)
    requires x.Object? && IsDict(x)
    ensures DictOf(MembersOf(x, x.order)) == x && (x.order == [] ==> x == DictOf([]))
  {
    DictRebuilt(x, x.order, MembersOf(x, x.order));
    hide DictOf, MembersOf, Distinct;
    assert DictOf(MembersOf(x, x.order)).entries == x.entries;
    assert x.order == [] ==> MembersOf(x, x.order) == [];
  }

  lemma {:induction false} FirstMember(x: Json, rest: string)
    requires x.Object? && IsDict(x) && x.order != []
    ensures var inner := Join(DumpsEntries(x, x.order)) + ['}'] + rest;
            inner != [] && inner[0] == '"'
  {
    SplitFirst(DumpsEntries(x, x.order), '}', rest);
    hide Dumps, Join, AfterFirst, SpellingAll;
    assert DumpsEntries(x, x.order)[0][0] == '"';
  }

  lemma {:induction false} DictOfMore(before: seq<(Id, Json)>, key: Id, value: Json)
    ensures var x, dict := DictOf(before), DictOf(before + [(key, value)]);
            && dict.order == (if key in x.order then x.order else x.order + [key])
            && dict.entries == x.entries[key := value]
  {
    var all := before + [(key, value)];
    assert all[|all| - 1] == (key, value) && all[..|all| - 1] == before;
  }

  lemma {:induction false} DictRebuilt(x: Json, keys: seq<Id>, members: seq<(Id, Json)>)
    requires x.Object? && Distinct(keys) && forall k :: k in keys ==> k in x.entries
    requires |members| == |keys| && forall i :: 0 <= i < |keys| ==> members[i] == (keys[i], x.entries[keys[i]])
    ensures var dict := DictOf(members);
            && dict.order == keys && (forall k :: k in dict.entries <==> k in keys)
            && forall k :: k in keys ==> dict.entries[k] == x.entries[k]
    decreases |keys|
  {
    if keys != [] {
      var n := |keys| - 1;
      DictRebuilt(x, keys[..n], members[..n]);
      assert keys == keys[..n] + [keys[n]] && members == members[..n] + [members[n]];
      assert keys[n] !in keys[..n];
      hide Distinct, DictOf;
      DictOfMore(members[..n], keys[n], members[n].1);
    }
  }

  lemma {:induction false} MembersStep(t: string, key: string, afterKey: string, x: Json, u: string)
    requires t != [] && t[0] == '"' && ReadString(t[1..]) == Some((key, afterKey))
    requires afterKey != [] && afterKey[0] == ':' && ReadValue(afterKey[1..]) == Some((x, u))
    requires u != [] && u[0] in ",}"
    ensures u[0] == '}' ==> ReadMembers(t) == Some(([(Id(key), x)], u[1..]))
    ensures u[0] == ',' && ReadMembers(u[1..]).Some? ==>
              ReadMembers(t) == Some(([(Id(key), x)] + ReadMembers(u[1..]).value.0, ReadMembers(u[1..]).value.1))
  {
    NotBlank(t);
    NotBlank(afterKey);
    NotBlank(u);
    hide ReadValue, ReadString, SkipBlank;
  }

  /** A key and the colon behind it, read where they stand. */
  lemma {:induction false} KeyRead(key: string, value: string, u: string)
    ensures var t, afterKey := Quoted(key) + [':'] + value + u, [':'] + value + u;
            && t != [] && t[0] == '"' && ReadString(t[1..]) == Some((key, afterKey))
            && afterKey[1..] == value + u
  {
    hide Quoted, ReadString;
    var afterKey := [':'] + value + u;
    assert Quoted(key) + [':'] + value + u == Quoted(key) + afterKey;
    QuotedRead(key, afterKey);
  }

  lemma {:induction false} EntriesTail(x: Json, keys: seq<Id>)
    requires x.Object? && IsDict(x) && keys != [] && forall k :: k in keys ==> k in x.entries
    ensures DumpsEntries(x, keys)[0] == Quoted(keys[0].text) + [':'] + Dumps(x.entries[keys[0]])
    ensures DumpsEntries(x, keys)[1..] == DumpsEntries(x, keys[1..])
  {
    hide Dumps, Quoted;
  }

  lemma {:induction false} MembersRead(x: Json, keys: seq<Id>, rest: string)
    requires x.Object? && IsDict(x) && keys != [] && forall k :: k in keys ==> k in x.entries
    ensures ReadMembers(Join(DumpsEntries(x, keys)) + ['}'] + rest) == Some((MembersOf(x, keys), rest))
    decreases x, 0, |keys|
  {
    hide Join, Dumps, DumpsEntries, AfterFirst, Quoted, ReadValue, ReadString, ReadMembers;
    var parts := DumpsEntries(x, keys[1..]);
    var u := AfterFirst(parts, '}', rest);
    var value := Dumps(x.entries[keys[0]]);
    var t := Quoted(keys[0].text) + [':'] + value + u;
    EntriesTail(x, keys);
    SplitFirst(DumpsEntries(x, keys), '}', rest);
    KeyRead(keys[0].text, value, u);
    ValueRead(x.entries[keys[0]], u);
    TailOf(parts, '}', rest);
    MembersStep(t, keys[0].text, [':'] + value + u, x.entries[keys[0]], u);
    if parts != [] {
      MembersRead(x, keys[1..], rest);
      assert ReadMembers(u[1..]) == Some((MembersOf(x, keys[1..]), rest));
    } else {
      assert keys[1..] == [] && u[1..] == rest;
      assert MembersOf(x, keys) == [(keys[0], x.entries[keys[0]])];
    }
  }

  /** A printed value is read back. */
  lemma {:induction false} DumpsRead(x: Json)
    requires IsDict(x)
    ensures ReadJson(Dumps(x)) == Some(x)
  {
    hide Dumps, ReadValue, IsDict;
    ValueRead(x, []);
    assert Dumps(x) + [] == Dumps(x);
  }

  /** A number with a leading zero is no JSON text, with or without its sign. */
  lemma {:induction false} LeadingZeroIsRejected(t: string)
    requires |t| >= 2 && t[0] == '0' && IsDigit(t[1])
    ensures ReadValue(t) == None && ReadValue("-" + t) == None
  {
    var s := "-" + t;
    assert s[1..] == t;
    NotBlank(t);
    NotBlank(s);
    assert DigitRun(t) == 2 + DigitRun(t[1..][1..]);
    hide SkipBlank, ReadString, ReadItems, ReadMembers, MagnitudeValue;
  }
}
