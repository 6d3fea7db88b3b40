/**
 Texts outside the printed form: what the readers make of sets, symbols, unclosed collections and parentheses, which
 texts the second reader takes for which scalars, and which texts are errors.
 */
module EdnEdges {
  import opened Basics
  import opened Decimals
  import opened EdnData
  import opened EdnLayout
  import opened EdnReader
  import opened EdnRoundTrip
  import opened NotebookEdn

  // ----- the first reader: symbols and sets

  /** A symbol is an integer if Python's `int` takes it for one, and itself otherwise. */
  lemma {:induction false} SymbolIsRead(w: string, rest: string)
    requires w != [] && w[0] !in ":;" && EndsHere(Conformance, rest)
    requires forall i :: 0 <= i < |w| ==> IsTokenChar(w[i])
    ensures ReadValue(w + rest)
         == Ok((Atom(if ReadInt(w).Some? then Int(ReadInt(w).value) else Str(w)), rest))
  {
    TokenGoesOn(w, rest);
    var t := w + rest;
    assert t[0] == w[0] && t[..|w|] == w && t[|w|..] == rest;
    SkipStays(t);
    hide ReadInt, TokenLength, Skip;
  }

  function WordsOf(lits: seq<Literal>): (toks: seq<Token>)
    ensures |toks| == |lits|
  {
    if lits == [] then [] else [Word(lits[0])] + WordsOf(lits[1..])
  }

  ghost function Denoted(lits: seq<Literal>): set<Scalar> {
    set l | l in lits :: DenoteLiteral(l)
  }

  lemma {:induction false} SetStep(s: string, members: set<Scalar>, member: Scalar, next: string)
    requires Skip(s) != [] && Skip(s)[0] != '}' && ReadValue(Skip(s)) == Ok((Atom(member), next))
    ensures ReadSet(s, members) == ReadSet(next, members + {member})
  {
    hide Skip, ReadValue;
  }

  lemma {:induction false} FirstMember(l: Literal, more: seq<Token>, gaps: seq<string>, members: set<Scalar>)
    requires ValidLiteral(l) && ValidLayout(Conformance, [Word(l)] + more, gaps)
    ensures ValidLayout(Conformance, more, gaps[1..])
    ensures ReadSet(Layout([Word(l)] + more, gaps), members)
         == ReadSet(Layout(more, gaps[1..]), members + {DenoteLiteral(l)})
  {
    hide ReadValue, ReadSet, Layout, ValidLayout, Skip, DenoteLiteral, ValidLiteral;
    assert Tokens(Lit(l)) == [Word(l)] && ValidValue(Lit(l));
    LayoutLength([Word(l)] + more, gaps);
    ReadWordLaidOut(l, more, gaps);
    ValueStarts(Lit(l), more, gaps);
    SetStep(Layout([Word(l)] + more, gaps), members, DenoteLiteral(l), Layout(more, gaps[1..]));
  }

  lemma {:induction false} DenotedSplit(lits: seq<Literal>)
    requires lits != []
    ensures Denoted(lits) == {DenoteLiteral(lits[0])} + Denoted(lits[1..])
  {
    hide DenoteLiteral;
    assert forall l :: l in lits <==> l == lits[0] || l in lits[1..];
  }

  lemma {:induction false} MembersRead(lits: seq<Literal>, rest: seq<Token>, gaps: seq<string>, members: set<Scalar>)
    requires (forall l :: l in lits ==> ValidLiteral(l))
    requires ValidLayout(Conformance, WordsOf(lits) + [Bracket('}')] + rest, gaps)
    ensures |gaps| > |lits| + 1
    ensures ReadSet(Layout(WordsOf(lits) + [Bracket('}')] + rest, gaps), members)
         == Ok((Members(members + Denoted(lits)), Layout(rest, gaps[|lits| + 1..])))
  {
    LayoutLength(WordsOf(lits) + [Bracket('}')] + rest, gaps);
    assert lits != [] ==>
        WordsOf(lits) + [Bracket('}')] + rest == [Word(lits[0])] + (WordsOf(lits[1..]) + [Bracket('}')] + rest);
    hide ReadValue, ReadSet, Layout, ValidLayout, Skip, DenoteLiteral, ValidLiteral;
    if lits == [] {
      assert WordsOf(lits) + [Bracket('}')] + rest == [Bracket('}')] + rest && members + Denoted(lits) == members;
      CloseCollection('}', rest, gaps);
      SetEnd(Layout([Bracket('}')] + rest, gaps), members, Layout(rest, gaps[1..]));
    } else {
      FirstMember(lits[0], WordsOf(lits[1..]) + [Bracket('}')] + rest, gaps, members);
      MembersRead(lits[1..], rest, gaps[1..], members + {DenoteLiteral(lits[0])});
      DenotedSplit(lits);
      hide Denoted;
      assert gaps[1..][|lits[1..]| + 1..] == gaps[|lits| + 1..];
      assert members + {DenoteLiteral(lits[0])} + Denoted(lits[1..]) == members + Denoted(lits);
    }
  }

  lemma {:induction false} SetEnd(s: string, members: set<Scalar>, rest: string)
    requires Skip(s) == ['}'] + rest
    ensures ReadSet(s, members) == Ok((Members(members), rest))
  {
    hide Skip;
    assert (['}'] + rest)[1..] == rest;
  }

  lemma {:induction false} OpenSet(s: string)
    ensures ReadValue("#{" + s) == ReadSet(s, {})
  {
    var t := "#{" + s;
    assert t[2..] == s;
    SkipStays(t);
    hide Skip, ReadSet;
  }

  /** A set literal of printed scalars is read as the set of what they stand for. */
  lemma {:induction false} SetIsRead(lits: seq<Literal>, rest: seq<Token>, gaps: seq<string>)
    requires (forall l :: l in lits ==> ValidLiteral(l))
    requires ValidLayout(Conformance, WordsOf(lits) + [Bracket('}')] + rest, gaps)
    ensures |gaps| > |lits| + 1
    ensures ReadValue("#{" + Layout(WordsOf(lits) + [Bracket('}')] + rest, gaps))
         == Ok((Members(set l | l in lits :: DenoteLiteral(l)), Layout(rest, gaps[|lits| + 1..])))
  {
    LayoutLength(WordsOf(lits) + [Bracket('}')] + rest, gaps);
    hide ReadValue, ReadSet, Layout, ValidLayout, ValidLiteral;
    MembersRead(lits, rest, gaps, {});
    OpenSet(Layout(WordsOf(lits) + [Bracket('}')] + rest, gaps));
    assert {} + Denoted(lits) == Denoted(lits);
  }

  // ----- the first reader: collections that the text does not close

  lemma {:induction false} ItemsUnclosed(values: seq<Value>, gaps: seq<string>, items: seq<Data>)
    requires (forall x :: x in values ==> ValidValue(x)) && ValidLayout(Conformance, TokensAll(values), gaps)
    requires Skip(gaps[|TokensAll(values)|]) == []
    ensures ReadVector(Layout(TokensAll(values), gaps), items) == Ok((Items(items + DenoteAll(values)), []))
    decreases |values|
  {
    LayoutLength(TokensAll(values), gaps);
    if values == [] {
      hide Skip;
      assert items + [] == items;
    } else {
      var more := TokensAll(values[1..]);
      assert TokensAll(values) == Tokens(values[0]) + more;
      hide ReadValue, ReadVector, Layout, ValidLayout, Skip, Tokens, Denote, TokensAll, ValidValue;
      ReadPrinted(values[0], more, gaps);
      FirstItem(values[0], items, more, gaps);
      assert gaps[|Tokens(values[0])|..][|more|] == gaps[|TokensAll(values)|];
      ItemsUnclosed(values[1..], gaps[|Tokens(values[0])|..], items + [Denote(values[0])]);
      DenoteSplit(values, items);
    }
  }

  /** A vector that the text does not close ends with the text; it is no error. */
  lemma {:induction false} UnclosedVector(values: seq<Value>, gaps: seq<string>)
    requires (forall x :: x in values ==> ValidValue(x)) && ValidLayout(Conformance, TokensAll(values), gaps)
    requires Skip(gaps[|TokensAll(values)|]) == []
    ensures ReadValue("[" + Layout(TokensAll(values), gaps)) == Ok((Items(DenoteAll(values)), []))
  {
    LayoutLength(TokensAll(values), gaps);
    hide ReadValue, ReadVector, Layout, ValidLayout, Skip, TokensAll, ValidValue;
    ItemsUnclosed(values, gaps, []);
    OpenCollection(Layout(TokensAll(values), gaps));
    assert [] + DenoteAll(values) == DenoteAll(values);
  }

  lemma {:induction false} PairsUnclosed(pairs: seq<Pair>, gaps: seq<string>, entries: map<Scalar, Data>)
    requires (forall p :: p in pairs ==> ValidLiteral(p.key) && ValidValue(p.value))
    requires ValidLayout(Conformance, TokensPairs(pairs), gaps) && Skip(gaps[|TokensPairs(pairs)|]) == []
    ensures ReadMap(Layout(TokensPairs(pairs), gaps), entries) == Ok((Dict(DenotePairs(entries, pairs)), []))
    decreases |pairs|
  {
    LayoutLength(TokensPairs(pairs), gaps);
    if pairs == [] {
      hide Skip;
    } else {
      var more := TokensPairs(pairs[1..]);
      assert TokensPairs(pairs) == TokensPair(pairs[0]) + more;
      hide ReadValue, ReadMap, Layout, ValidLayout, Skip, TokensPair, TokensPairs, DenotePairs, DenotePair;
      hide DenoteLiteral, ValidLiteral, ValidValue;
      ReadPairPrinted(pairs[0], more, gaps);
      FirstPair(pairs[0], entries, more, gaps);
      DenoteFirst(entries, pairs);
      assert gaps[|TokensPair(pairs[0])|..][|more|] == gaps[|TokensPairs(pairs)|];
      PairsUnclosed(pairs[1..], gaps[|TokensPair(pairs[0])|..],
                    entries[DenoteLiteral(pairs[0].key) := DenotePair(pairs[0])]);
    }
  }

  /** Nor is a map. */
  lemma {:induction false} UnclosedMap(pairs: seq<Pair>, gaps: seq<string>)
    requires (forall p :: p in pairs ==> ValidLiteral(p.key) && ValidValue(p.value))
    requires ValidLayout(Conformance, TokensPairs(pairs), gaps) && Skip(gaps[|TokensPairs(pairs)|]) == []
    ensures ReadValue("{" + Layout(TokensPairs(pairs), gaps)) == Ok((Dict(DenotePairs(map[], pairs)), []))
  {
    LayoutLength(TokensPairs(pairs), gaps);
    hide ReadValue, ReadMap, Layout, ValidLayout, Skip, TokensPairs, DenotePairs, ValidLiteral, ValidValue;
    PairsUnclosed(pairs, gaps, map[]);
    OpenCollection(Layout(TokensPairs(pairs), gaps));
  }

  lemma {:induction false} MembersUnclosed(lits: seq<Literal>, gaps: seq<string>, members: set<Scalar>)
    requires (forall l :: l in lits ==> ValidLiteral(l)) && ValidLayout(Conformance, WordsOf(lits), gaps)
    requires Skip(gaps[|lits|]) == []
    ensures ReadSet(Layout(WordsOf(lits), gaps), members) == Ok((Members(members + Denoted(lits)), []))
  {
    LayoutLength(WordsOf(lits), gaps);
    if lits == [] {
      hide Skip;
      assert members + Denoted(lits) == members;
    } else {
      hide ReadValue, ReadSet, Layout, ValidLayout, Skip, DenoteLiteral, ValidLiteral, Denoted;
      FirstMember(lits[0], WordsOf(lits[1..]), gaps, members);
      MembersUnclosed(lits[1..], gaps[1..], members + {DenoteLiteral(lits[0])});
      DenotedSplit(lits);
      assert members + {DenoteLiteral(lits[0])} + Denoted(lits[1..]) == members + Denoted(lits);
    }
  }

  /** Nor is a set. */
  lemma {:induction false} UnclosedSet(lits: seq<Literal>, gaps: seq<string>)
    requires (forall l :: l in lits ==> ValidLiteral(l)) && ValidLayout(Conformance, WordsOf(lits), gaps)
    requires Skip(gaps[|lits|]) == []
    ensures ReadValue("#{" + Layout(WordsOf(lits), gaps)) == Ok((Members(set l | l in lits :: DenoteLiteral(l)), []))
  {
    LayoutLength(WordsOf(lits), gaps);
    hide ReadValue, ReadSet, Layout, ValidLayout, ValidLiteral, Skip;
    MembersUnclosed(lits, gaps, {});
    OpenSet(Layout(WordsOf(lits), gaps));
    assert {} + Denoted(lits) == Denoted(lits);
  }

  // ----- the first reader: errors

  lemma {:induction false} NoQuote(s: string)
    requires '"' !in s
    ensures ReadString(s) == Err(UnterminatedString)
    decreases |s|
  {
    if s != [] {
      var escaped := s[0] == '\\' && |s| > 1;
      NoQuote(if escaped then s[2..] else s[1..]);
    }
  }

  /** What the text of a value cannot start with, and what must not follow its first character. */
  lemma {:induction false} ReadErrors(c: char, s: string)
    ensures c in "]})(," ==> ReadValue([c] + s) == Err(UnexpectedCharacter)
    ensures c == '#' && (s == [] || s[0] != '{') ==> ReadValue([c] + s) == Err(UnsupportedDispatch)
    ensures c == ':' && (s == [] || !IsTokenChar(s[0])) ==> ReadValue([c] + s) == Err(MalformedKeyword)
    ensures c == '"' && '"' !in s ==> ReadValue([c] + s) == Err(UnterminatedString)
    ensures Skip(s) == [] ==> ReadValue(s) == Err(UnexpectedEnd)
  {
    var t := [c] + s;
    assert t[1..] == s && (s != [] ==> t[1] == s[0]);
    if c in "]})(,#:\"" {
      SkipStays(t);
      if c == '"' && '"' !in s {
        NoQuote(s);
      }
      hide Skip, ReadString, TokenLength, ReadMap, ReadVector, ReadSet;
    }
  }

  /** A collection cannot be a key. */
  lemma {:induction false} CollectionAsKey(values: seq<Value>, v: Value, gaps: seq<string>)
    requires ValidValue(Vec(values)) && ValidValue(v) && ValidLayout(Conformance, Tokens(Vec(values)) + Tokens(v), gaps)
    ensures ReadValue("{" + Layout(Tokens(Vec(values)) + Tokens(v), gaps)) == Err(Unhashable)
  {
    var n := |Tokens(Vec(values))|;
    var text := Layout(Tokens(Vec(values)) + Tokens(v), gaps);
    hide ReadValue, Layout, ValidLayout, ValidToken, Skip, Tokens, ValidValue;
    ReadPrinted(Vec(values), Tokens(v), gaps);
    assert Tokens(v) + [] == Tokens(v);
    ReadPrinted(v, [], gaps[n..]);
    ValueStarts(Vec(values), Tokens(v), gaps);
    OpenCollection(text);
  }

  // ----- the second reader: scalars

  /** An optional minus sign and ASCII digits. */
  ghost predicate SpellsInt(t: string, n: int) {
    || (AllDigits(t) && n == MagnitudeValue(t))
    || (t != [] && t[0] == '-' && AllDigits(t[1..]) && n == 0 - MagnitudeValue(t[1..]) as int)
  }

  /** Digits or none, a point and digits. */
  ghost predicate IsPointed(d: string) {
    exists a, b :: (a == [] || AllDigits(a)) && AllDigits(b) && d == a + "." + b
  }

  /** That, with an optional minus sign. */
  ghost predicate SpellsFloat(t: string) {
    IsPointed(t) || (t != [] && t[0] == '-' && IsPointed(t[1..]))
  }

  lemma {:induction false} FractionIs(d: string)
    ensures IsFraction(d) <==> IsPointed(d)
    ensures IsPointed(d) ==> d != [] && d[0] != '-'
  {
    if IsFraction(d) {
      var k :| 0 <= k < |d| && d[k] == '.' && AllDigits(d[k + 1..]) && forall i :: 0 <= i < k ==> IsDigit(d[i]);
      var a, b := d[..k], d[k + 1..];
      assert d == a + "." + b && (a == [] || AllDigits(a));
    }
    if a, b :| (a == [] || AllDigits(a)) && AllDigits(b) && d == a + "." + b {
      var k := |a|;
      assert d[k] == '.' && d[k + 1..] == b && forall i :: 0 <= i < k ==> d[i] == a[i];
    }
  }

  lemma {:induction false} FloatTextIs(t: string)
    ensures IsFloatText(t) <==> SpellsFloat(t)
  {
    FractionIs(t);
    if t != [] {
      FractionIs(t[1..]);
    }
    hide IsFraction, IsPointed;
  }

  /** Which texts the second reader takes for which scalars. */
  lemma {:induction false} AtomsAre(t: string)
    ensures AtomOf(t) == Nil <==> t == "nil"
    ensures forall b :: AtomOf(t) == Bool(b) <==> t == if b then "true" else "false"
    ensures forall n :: AtomOf(t) == Int(n) <==> SpellsInt(t, n)
    ensures forall x :: AtomOf(t) == Float(x) <==> x == t && SpellsFloat(t)
    ensures forall s :: AtomOf(t) == Str(s) <==>
              if |t| >= 4 && t[..4] == "STR:" then s == t[4..]
              else s == t && t !in ["nil", "true", "false"] && !SpellsFloat(t) && forall n :: !SpellsInt(t, n)
  {
    FloatTextIs(t);
    WordsAreNoNumbers(t);
    IntTextIs(t);
    if IsFloatText(t) {
      NotBoth(t);
    }
    hide IsFloatText, IsIntText, IntText, SpellsFloat, SpellsInt;
    assert "STR:" <= t <==> |t| >= 4 && t[..4] == "STR:";
  }

  lemma {:induction false} IntTextIs(t: string)
    ensures IsIntText(t) ==> forall n :: SpellsInt(t, n) <==> n == IntText(t)
    ensures !IsIntText(t) ==> forall n :: !SpellsInt(t, n)
  {
    hide MagnitudeValue;
  }

  lemma {:induction false} NotBoth(t: string)
    requires IsFloatText(t)
    ensures !IsIntText(t)
  {
  }

  lemma {:induction false} WordsAreNoNumbers(t: string)
    ensures t == "nil" || t == "true" || t == "false" || "STR:" <= t ==> !IsFloatText(t) && !IsIntText(t)
  {
  }

  // ----- the second reader: collections and errors

  /** Parentheses are read as brackets are. */
  lemma {:induction false} ParenthesesAreRead(values: seq<Value>, rest: seq<string>)
    requires forall x :: x in values ==> ValidValue(x)
    ensures ParseValue(["("] + TokenizedAll(TokensAll(values)) + [")"] + rest) == Ok((Items(DenoteAll(values)), rest))
  {
    var inner := TokenizedAll(TokensAll(values)) + [")"] + rest;
    var toks := ["("] + TokenizedAll(TokensAll(values)) + [")"] + rest;
    assert toks[0] == "(" && toks[1..] == inner;
    ParseItemsPrinted(values, ")", [], rest);
    assert [] + DenoteAll(values) == DenoteAll(values);
    hide ParseSeq, TokenizedAll, TokensAll;
  }

  lemma {:induction false} ItemsUnfinished(values: seq<Value>, close: string, items: seq<Data>)
    requires (forall x :: x in values ==> ValidValue(x)) && close in [")", "]"]
    ensures ParseSeq(TokenizedAll(TokensAll(values)), close, items) == Err(MissingClose)
    decreases |values|
  {
    if values != [] {
      var more := TokenizedAll(TokensAll(values[1..]));
      TokenizedConcat(Tokens(values[0]), TokensAll(values[1..]));
      assert TokenizedAll(TokensAll(values)) == TokenizedAll(Tokens(values[0])) + more;
      ValueTokenStarts(values[0]);
      ParsePrinted(values[0], more);
      hide ParseValue, Tokens, Denote, TokenizedAll, ValidValue, TokensAll;
      ItemsUnfinished(values[1..], close, items + [Denote(values[0])]);
    }
  }

  lemma {:induction false} PairsUnfinished(pairs: seq<Pair>, entries: map<Scalar, Data>)
    requires forall p :: p in pairs ==> ValidLiteral(p.key) && ValidValue(p.value)
    ensures ParseMap(TokenizedAll(TokensPairs(pairs)), entries) == Err(MissingClose)
    decreases |pairs|
  {
    if pairs != [] {
      var more := TokenizedAll(TokensPairs(pairs[1..]));
      TokenizedConcat(TokensPair(pairs[0]), TokensPairs(pairs[1..]));
      assert TokenizedAll(TokensPairs(pairs)) == TokenizedAll(TokensPair(pairs[0])) + more;
      ParsePairPrinted(pairs[0], more);
      hide ParseValue, TokensPair, TokensPairs, DenotePair, TokenizedAll, ValidValue, ValidLiteral, DenoteLiteral;
      PairsUnfinished(pairs[1..], entries[DenoteLiteral(pairs[0].key) := DenotePair(pairs[0])]);
    }
  }

  /** Collections that are not closed are errors of the second reader. */
  lemma {:induction false} UnclosedIsError(values: seq<Value>, pairs: seq<Pair>)
    requires forall x :: x in values ==> ValidValue(x)
    requires forall p :: p in pairs ==> ValidLiteral(p.key) && ValidValue(p.value)
    ensures ParseValue(["("] + TokenizedAll(TokensAll(values))) == Err(MissingClose)
    ensures ParseValue(["["] + TokenizedAll(TokensAll(values))) == Err(MissingClose)
    ensures ParseValue(["{"] + TokenizedAll(TokensPairs(pairs))) == Err(MissingClose)
  {
    var items, entries := TokenizedAll(TokensAll(values)), TokenizedAll(TokensPairs(pairs));
    assert (["("] + items)[1..] == items && (["["] + items)[1..] == items && (["{"] + entries)[1..] == entries;
    ItemsUnfinished(values, ")", []);
    ItemsUnfinished(values, "]", []);
    PairsUnfinished(pairs, map[]);
    hide ParseSeq, ParseMap, TokenizedAll, TokensAll, TokensPairs;
  }

  /** A collection cannot be a key here either. */
  lemma {:induction false} CollectionAsKeyParsed(values: seq<Value>, v: Value)
    requires ValidValue(Vec(values)) && ValidValue(v)
    ensures ParseValue(["{"] + TokenizedAll(Tokens(Vec(values))) + TokenizedAll(Tokens(v))) == Err(Unhashable)
  {
    var key, value := TokenizedAll(Tokens(Vec(values))), TokenizedAll(Tokens(v));
    var toks := ["{"] + key + value;
    assert toks[1..] == key + value;
    ParsePrinted(Vec(values), value);
    ParsePrinted(v, []);
    assert value + [] == value;
    ValueTokenStarts(Vec(values));
    hide TokenizedAll, Tokens, ParseSeq;
  }

  lemma {:induction false} BodyWithoutQuote(s: string)
    requires '"' !in s && '\\' !in s
    ensures StringBody(s) == (s, [])
  {
    if s != [] {
      BodyWithoutQuote(s[1..]);
      assert s == [s[0]] + s[1..];
    }
  }

  /** The second reader takes a string without its closing quote to go on to the end of the text. */
  lemma {:induction false} UnterminatedIsRead(s: string)
    requires '"' !in s && '\\' !in s
    ensures ParseText(['"'] + s) == Ok(Atom(Str(s)))
  {
    var text, t := ['"'] + s, STRING_MARK + s;
    assert text[1..] == s;
    BodyWithoutQuote(s);
    StringAtom(s);
    hide StringBody, RunLength, AfterComment, AtomOf;
    assert Tokenize(text) == [t] + Tokenize([]) && Tokenize(text) == [t];
    assert t[0] == 'S';
    assert ParseValue([t]) == Ok((Atom(AtomOf(t)), [t][1..]));
  }

  /** Without any token the second reader returns nil. */
  lemma {:induction false} BlankIsNil(text: string)
    requires IsLastGap(Notebook, text)
    ensures ParseText(text) == Ok(Atom(Nil))
  {
    NoTokensExactly(text);
    hide Tokenize, IsLastGap;
  }
}
