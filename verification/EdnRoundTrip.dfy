/**
 Printed EDN values are read back from every layout in which a reader sees gaps between the tokens and ends of words.
 */
module EdnRoundTrip {
  import opened Basics
  import opened Whitespace
  import opened Decimals
  import opened EdnData
  import opened EdnLayout
  import opened EdnReader
  import opened NotebookEdn

  predicate ValidToken(t: Token) {
    match t
    case Bracket(c) => c in "[]{}"
    case Word(l) => ValidLiteral(l)
  }

  // ----- gaps

  lemma {:induction false} CommentEnds(g: string, rest: string)
    requires '\n' in g
    ensures AfterComment(g + rest) == AfterComment(g) + rest
    ensures ToNewline(g + rest) == ['\n'] + AfterComment(g) + rest
  {
    if g[0] == '\n' {
      assert (g + rest)[1..] == g[1..] + rest;
      assert g + rest == ['\n'] + g[1..] + rest;
    } else {
      CommentEnds(g[1..], rest);
      assert (g + rest)[1..] == g[1..] + rest;
    }
  }

  lemma {:induction false} BreakIsSkipped(s: string)
    ensures Skip(['\n'] + s) == Skip(s)
  {
    assert (['\n'] + s)[1..] == s;
  }

  /** The first reader skips its gaps. */
  lemma {:induction false} SkipGap(g: string, rest: string)
    requires IsGap(Conformance, g)
    ensures Skip(g + rest) == Skip(rest)
    decreases |g|
  {
    hide ToNewline, AfterComment;
    if g == [] {
      assert g + rest == rest;
    } else {
      assert (g + rest)[0] == g[0] && (g + rest)[1..] == g[1..] + rest;
      if IsSpace(g[0]) && IsGap(Conformance, g[1..]) {
        SkipGap(g[1..], rest);
      } else {
        CommentEnds(g, rest);
        SkipGap(AfterComment(g), rest);
        BreakIsSkipped(AfterComment(g) + rest);
        assert ToNewline(g + rest) == ['\n'] + (AfterComment(g) + rest);
      }
    }
  }

  /** The second reader makes no token of its gaps. */
  lemma {:induction false} TokenizeGap(g: string, rest: string)
    requires IsGap(Notebook, g)
    ensures Tokenize(g + rest) == Tokenize(rest)
    decreases |g|
  {
    hide AfterComment, StringBody, RunLength;
    if g == [] {
      assert g + rest == rest;
    } else {
      assert (g + rest)[0] == g[0] && (g + rest)[1..] == g[1..] + rest;
      if IsSeparator(g[0]) && IsGap(Notebook, g[1..]) {
        TokenizeGap(g[1..], rest);
      } else {
        CommentEnds(g, rest);
        TokenizeGap(AfterComment(g), rest);
      }
    }
  }

  /** It makes no token of a text exactly if that is a gap up to the end. */
  lemma {:induction false} NoTokensExactly(s: string)
    ensures Tokenize(s) == [] <==> IsLastGap(Notebook, s)
    decreases |s|
  {
    if s != [] {
      if IsSeparator(s[0]) {
        NoTokensExactly(s[1..]);
      } else if s[0] == ';' {
        NoTokensExactly(AfterComment(s));
      }
      hide StringBody, RunLength, AfterComment;
    }
  }

  // ----- spelled words

  /** A word and the run behind it are one token of the first reader. */
  lemma {:induction false} TokenGoesOn(w: string, rest: string)
    requires forall i :: 0 <= i < |w| ==> IsTokenChar(w[i])
    ensures TokenLength(w + rest) == |w| + TokenLength(rest)
  {
    if w == [] {
      assert w + rest == rest;
    } else {
      TokenGoesOn(w[1..], rest);
      assert (w + rest)[1..] == w[1..] + rest;
    }
  }

  /** And one of the second. */
  lemma {:induction false} RunGoesOn(w: string, rest: string)
    requires forall i :: 0 <= i < |w| ==> IsRunChar(w[i])
    ensures RunLength(w + rest) == |w| + RunLength(rest)
  {
    if w == [] {
      assert w + rest == rest;
    } else {
      RunGoesOn(w[1..], rest);
      assert (w + rest)[1..] == w[1..] + rest;
    }
  }

  lemma {:induction false} NameIsWord(w: string)
    requires forall i :: 0 <= i < |w| ==> IsNameChar(w[i])
    ensures forall i :: 0 <= i < |w| ==> IsTokenChar(w[i]) && IsRunChar(w[i])
  {
  }

  lemma {:induction false} EscapedSplit(s: string, rest: string)
    requires s != []
    ensures var text := Escaped(s) + ['"'] + rest;
            var tail := Escaped(s[1..]) + ['"'] + rest;
            if s[0] == '"' || s[0] == '\\' then text[..2] == ['\\', s[0]] && text[2..] == tail
            else text[..1] == [s[0]] && text[1..] == tail
    ensures s == [s[0]] + s[1..]
  {
    var tail := Escaped(s[1..]) + ['"'] + rest;
    var head := if s[0] == '"' || s[0] == '\\' then ['\\', s[0]] else [s[0]];
    assert Escaped(s) == head + Escaped(s[1..]);
    hide Escaped;
    assert Escaped(s) + ['"'] + rest == head + tail;
    assert (head + tail)[..|head|] == head && (head + tail)[|head|..] == tail;
  }

  lemma {:induction false} EscapedIsRead(s: string, rest: string)
    ensures ReadString(Escaped(s) + ['"'] + rest) == Ok((s, rest))
    ensures StringBody(Escaped(s) + ['"'] + rest) == (s, rest)
  {
    var text := Escaped(s) + ['"'] + rest;
    if s == [] {
      assert text[0] == '"' && text[1..] == rest;
    } else {
      hide Escaped;
      EscapedIsRead(s[1..], rest);
      EscapedSplit(s, rest);
      assert text[0] == if s[0] == '"' || s[0] == '\\' then '\\' else s[0];
    }
  }

  lemma {:induction false} DecimalIsName(n: int)
    ensures forall i :: 0 <= i < |Decimal(n)| ==> IsNameChar(Decimal(n)[i])
    ensures Decimal(n)[0] != ':'
  {
    hide IsSpace;
    var d := Decimal(n);
    forall i | 0 <= i < |d|
      ensures IsNameChar(d[i])
    {
      DigitIsName(d[i]);
    }
  }

  lemma {:induction false} DigitIsName(c: char)
    requires IsDigit(c) || c == '-'
    ensures IsNameChar(c)
  {
  }

  // ----- the first reader

  lemma {:induction false} SkipStays(s: string)
    requires s != [] && !IsSpace(s[0]) && s[0] != ';'
    ensures Skip(s) == s
  {
  }

  lemma {:induction false} SkipTwice(s: string)
    ensures Skip(Skip(s)) == Skip(s)
  {
    if Skip(s) != [] {
      SkipStays(Skip(s));
    }
  }

  /** Blanks and comments before a value do not matter. */
  lemma {:induction false} ReadAfterGap(g: string, s: string)
    requires IsGap(Conformance, g)
    ensures ReadValue(g + s) == ReadValue(s)
    ensures ReadValue(Skip(s)) == ReadValue(s)
  {
    SkipGap(g, s);
    SkipTwice(s);
    hide Skip, ReadMap, ReadVector, ReadSet, ReadString, ReadKeyword, ReadSymbol;
  }

  /** How a token's spelling starts: never blank, and a closing bracket only for a closing bracket. */
  lemma {:induction false} SpellStarts(t: Token)
    requires ValidToken(t)
    ensures Spell(t) != [] && !IsSpace(Spell(t)[0]) && Spell(t)[0] != ';'
    ensures t.Word? ==> Spell(t)[0] !in "[]{}" && Spell(t)[0] != '#'
  {
    if t.Word? && t.lit.IntLit? {
      DecimalIsName(t.lit.n);
    }
  }

  /** What the first reader makes of a token that is no keyword. */
  function WordValue(text: string): Scalar {
    var number := ReadInt(text);
    if number.Some? then Int(number.value) else Str(text)
  }

  /** The first reader reads a word together with all token characters behind it. */
  lemma {:induction false} ReadRun(l: Literal, rest: string)
    requires ValidLiteral(l) && NeedsEnd(Word(l))
    ensures var k := TokenLength(rest);
            ReadValue(Spell(Word(l)) + rest) == Ok((Atom(WordValue(Spell(Word(l)) + rest[..k])), rest[k..]))
  {
    match l
    case IntLit(n) => ReadIntegerRun(n, rest);
    case KeyLit(name) => ReadKeywordRun(name, rest);
  }

  lemma {:induction false} ReadIntegerRun(n: int, rest: string)
    ensures var k := TokenLength(rest);
            ReadValue(Decimal(n) + rest) == Ok((Atom(WordValue(Decimal(n) + rest[..k])), rest[k..]))
  {
    hide Decimal, TokenLength, ReadValue, WordValue, IsNameChar, IsTokenChar, IsRunChar;
    var d, k := Decimal(n), TokenLength(rest);
    DecimalIsName(n);
    NameIsWord(d);
    TokenGoesOn(d, rest);
    assert (d + rest)[0] == d[0];
    ReadToken(d + rest);
    assert (d + rest)[..|d| + k] == d + rest[..k] && (d + rest)[|d| + k..] == rest[k..];
  }

  /** A token that does not start a keyword. */
  lemma {:induction false} ReadToken(t: string)
    requires t != [] && IsNameChar(t[0]) && t[0] != ':'
    ensures ReadValue(t) == Ok((Atom(WordValue(t[..TokenLength(t)])), t[TokenLength(t)..]))
  {
    SkipStays(t);
    hide ReadInt, TokenLength, IsSpace, Skip;
  }

  lemma {:induction false} ReadKeywordRun(name: string, rest: string)
    requires ValidLiteral(KeyLit(name))
    ensures var k := TokenLength(rest);
            ReadValue([':'] + name + rest) == Ok((Atom(WordValue([':'] + name + rest[..k])), rest[k..]))
  {
    hide TokenLength, ReadValue, WordValue, IsNameChar, IsTokenChar, IsRunChar;
    var k := TokenLength(rest);
    NameIsWord(name);
    TokenGoesOn(name, rest);
    ReadKey(name + rest);
    assert [':'] + (name + rest) == [':'] + name + rest;
    assert (name + rest)[..|name| + k] == name + rest[..k] && (name + rest)[|name| + k..] == rest[k..];
    assert [':'] + (name + rest[..k]) == [':'] + name + rest[..k];
    ColonIsNoNumber([':'] + name + rest[..k]);
  }

  lemma {:induction false} ReadKey(s: string)
    requires TokenLength(s) > 0
    ensures ReadValue([':'] + s) == Ok((Atom(Str([':'] + s[..TokenLength(s)])), s[TokenLength(s)..]))
  {
    var t := [':'] + s;
    assert t[0] == ':' && t[1..] == s;
    SkipStays(t);
    hide TokenLength, IsSpace, Skip;
  }

  lemma {:induction false} ColonIsNoNumber(text: string)
    requires text != [] && text[0] == ':'
    ensures WordValue(text) == Str(text)
  {
    hide MagnitudeValue;
    assert !IsDigit(text[0]);
  }

  lemma {:induction false} WordValueOf(l: Literal)
    requires ValidLiteral(l) && NeedsEnd(Word(l))
    ensures WordValue(Spell(Word(l))) == DenoteLiteral(l)
  {
    match l
    case IntLit(n) => ReadDecimal(n);
    case KeyLit(name) => ColonIsNoNumber([':'] + name);
  }

  /** The first reader reads an integer or keyword and stops behind it exactly if no token character follows. */
  lemma {:induction false} WordIsReadExactly(l: Literal, rest: string)
    requires ValidLiteral(l) && NeedsEnd(Word(l))
    ensures ReadValue(Spell(Word(l)) + rest) == Ok((Atom(DenoteLiteral(l)), rest)) <==> EndsHere(Conformance, rest)
  {
    ReadRun(l, rest);
    WordValueOf(l);
    hide ReadValue, WordValue, Spell;
    assert TokenLength(rest) == 0 ==> Spell(Word(l)) + rest[..0] == Spell(Word(l)) && rest[0..] == rest;
  }

  lemma {:induction false} ReadWord(l: Literal, rest: string)
    requires ValidLiteral(l) && (NeedsEnd(Word(l)) ==> EndsHere(Conformance, rest))
    ensures ReadValue(Spell(Word(l)) + rest) == Ok((Atom(DenoteLiteral(l)), rest))
  {
    if l.StrLit? {
      ReadStringLiteral(l.s, rest);
    } else {
      WordIsReadExactly(l, rest);
    }
  }

  lemma {:induction false} ReadStringLiteral(s: string, rest: string)
    ensures ReadValue(['"'] + Escaped(s) + ['"'] + rest) == Ok((Atom(Str(s)), rest))
  {
    var t := ['"'] + Escaped(s) + ['"'] + rest;
    EscapedIsRead(s, rest);
    SkipStays(t);
    hide ReadString, Escaped, IsSpace, Skip;
    assert t[1..] == Escaped(s) + ['"'] + rest;
  }

  /** The first token of a layout, as the text shows it after its gap. */
  lemma {:induction false} LayoutStarts(toks: seq<Token>, gaps: seq<string>)
    requires toks != [] && ValidLayout(Conformance, toks, gaps) && ValidToken(toks[0])
    ensures ValidLayout(Conformance, toks[1..], gaps[1..])
    ensures Skip(Layout(toks, gaps)) == Spell(toks[0]) + Layout(toks[1..], gaps[1..])
    ensures ReadValue(Layout(toks, gaps)) == ReadValue(Spell(toks[0]) + Layout(toks[1..], gaps[1..]))
    ensures ReadValue(Skip(Layout(toks, gaps))) == ReadValue(Layout(toks, gaps))
  {
    LayoutTail(Conformance, toks, gaps);
    var s := Spell(toks[0]) + Layout(toks[1..], gaps[1..]);
    assert Layout(toks, gaps) == gaps[0] + s;
    SpellStarts(toks[0]);
    SkipGap(gaps[0], s);
    SkipStays(s);
    ReadAfterGap(gaps[0], s);
  }

  lemma {:induction false} ReadWordLaidOut(l: Literal, rest: seq<Token>, gaps: seq<string>)
    requires ValidLiteral(l) && ValidLayout(Conformance, [Word(l)] + rest, gaps)
    ensures ReadValue(Layout([Word(l)] + rest, gaps)) == Ok((Atom(DenoteLiteral(l)), Layout(rest, gaps[1..])))
    ensures ValidLayout(Conformance, rest, gaps[1..])
  {
    var toks := [Word(l)] + rest;
    assert toks[1..] == rest;
    LayoutStarts(toks, gaps);
    LayoutTail(Conformance, toks, gaps);
    hide ReadValue, Spell, Layout, ValidLiteral;
    ReadWord(l, Layout(rest, gaps[1..]));
  }

  predicate AllValid(toks: seq<Token>) {
    forall t :: t in toks ==> ValidToken(t)
  }

  lemma {:induction false} TokensValid(v: Value)
    requires ValidValue(v)
    ensures AllValid(Tokens(v))
    ensures v.Vec? ==> AllValid(TokensAll(v.values))
    ensures v.Map? ==> AllValid(TokensPairs(v.pairs))
    decreases v, 1
  {
    match v
    case Lit(_) =>
    case Vec(values) => TokensAllValid(values);
    case Map(pairs) => TokensPairsValid(pairs);
  }

  lemma {:induction false} TokensAllValid(values: seq<Value>)
    requires forall x :: x in values ==> ValidValue(x)
    ensures AllValid(TokensAll(values))
    decreases values, 0
  {
    if values != [] {
      TokensValid(values[0]);
      TokensAllValid(values[1..]);
    }
  }

  lemma {:induction false} TokensPairValid(p: Pair)
    requires ValidLiteral(p.key) && ValidValue(p.value)
    ensures AllValid(TokensPair(p))
    decreases p, 0
  {
    TokensValid(p.value);
  }

  lemma {:induction false} TokensPairsValid(pairs: seq<Pair>)
    requires forall p :: p in pairs ==> ValidLiteral(p.key) && ValidValue(p.value)
    ensures AllValid(TokensPairs(pairs))
    decreases pairs, 0
  {
    if pairs != [] {
      TokensPairValid(pairs[0]);
      TokensPairsValid(pairs[1..]);
    }
  }

  lemma {:induction false} OpenCollection(s: string)
    ensures ReadValue("[" + s) == ReadVector(s, []) && ReadValue("{" + s) == ReadMap(s, map[])
  {
    assert ("[" + s)[1..] == s && ("{" + s)[1..] == s;
    SkipStays("[" + s);
    SkipStays("{" + s);
    hide Skip, ReadVector, ReadMap;
  }

  lemma {:induction false} VectorStep(s: string, items: seq<Data>, item: Data, next: string)
    requires Skip(s) != [] && Skip(s)[0] != ']' && ReadValue(Skip(s)) == Ok((item, next))
    ensures ReadVector(s, items) == ReadVector(next, items + [item])
  {
    hide Skip, ReadValue;
  }

  lemma {:induction false} VectorEnd(s: string, items: seq<Data>, rest: string)
    requires Skip(s) == [']'] + rest
    ensures ReadVector(s, items) == Ok((Items(items), rest))
  {
    hide Skip;
    assert ([']'] + rest)[1..] == rest;
  }

  lemma {:induction false} MapStep(s: string, entries: map<Scalar, Data>, key: Scalar, afterKey: string, value: Data,
                                   next: string)
    requires Skip(s) != [] && Skip(s)[0] != '}' && ReadValue(Skip(s)) == Ok((Atom(key), afterKey))
    requires ReadValue(afterKey) == Ok((value, next))
    ensures ReadMap(s, entries) == ReadMap(next, entries[key := value])
  {
    hide Skip, ReadValue;
  }

  lemma {:induction false} MapEnd(s: string, entries: map<Scalar, Data>, rest: string)
    requires Skip(s) == ['}'] + rest
    ensures ReadMap(s, entries) == Ok((Dict(entries), rest))
  {
    hide Skip;
    assert (['}'] + rest)[1..] == rest;
  }

  lemma {:induction false} LayoutLength(toks: seq<Token>, gaps: seq<string>)
    requires ValidLayout(Conformance, toks, gaps)
    ensures |gaps| == |toks| + 1
  {
  }

  lemma {:induction false} LayoutOpens(open: char, inner: seq<Token>, gaps: seq<string>)
    requires ValidLayout(Conformance, [Bracket(open)] + inner, gaps) && open in "[{"
    ensures ValidLayout(Conformance, inner, gaps[1..]) && |gaps| == |inner| + 2
    ensures ReadValue(Layout([Bracket(open)] + inner, gaps)) == ReadValue([open] + Layout(inner, gaps[1..]))
  {
    hide ReadValue, Layout, Skip, IsGap, WordsEnd;
    assert ([Bracket(open)] + inner)[1..] == inner;
    LayoutStarts([Bracket(open)] + inner, gaps);
  }

  /** A vector reads as its items do, once the opening bracket is passed. */
  lemma {:induction false} VectorFromItems(values: seq<Value>, rest: seq<Token>, gaps: seq<string>)
    requires ValidLayout(Conformance, Tokens(Vec(values)) + rest, gaps)
    ensures var inner := TokensAll(values) + [Bracket(']')] + rest;
            && ValidLayout(Conformance, inner, gaps[1..])
            && ReadValue(Layout(Tokens(Vec(values)) + rest, gaps)) == ReadVector(Layout(inner, gaps[1..]), [])
            && |inner| >= |TokensAll(values)| + 1
            && gaps[1..][|TokensAll(values)| + 1..] == gaps[|Tokens(Vec(values))|..]
  {
    hide ReadValue, ReadVector, Layout, ValidLayout, TokensAll, TokensPairs;
    var inner := TokensAll(values) + [Bracket(']')] + rest;
    assert Tokens(Vec(values)) + rest == [Bracket('[')] + inner;
    LayoutLength([Bracket('[')] + inner, gaps);
    LayoutOpens('[', inner, gaps);
    OpenCollection(Layout(inner, gaps[1..]));
  }

  /** A map reads as its pairs do, once the opening brace is passed. */
  lemma {:induction false} MapFromPairs(pairs: seq<Pair>, rest: seq<Token>, gaps: seq<string>)
    requires ValidLayout(Conformance, Tokens(Map(pairs)) + rest, gaps)
    ensures var inner := TokensPairs(pairs) + [Bracket('}')] + rest;
            && ValidLayout(Conformance, inner, gaps[1..])
            && ReadValue(Layout(Tokens(Map(pairs)) + rest, gaps)) == ReadMap(Layout(inner, gaps[1..]), map[])
            && |inner| >= |TokensPairs(pairs)| + 1
            && gaps[1..][|TokensPairs(pairs)| + 1..] == gaps[|Tokens(Map(pairs))|..]
  {
    hide ReadValue, ReadMap, Layout, ValidLayout, TokensAll, TokensPairs;
    var inner := TokensPairs(pairs) + [Bracket('}')] + rest;
    assert Tokens(Map(pairs)) + rest == [Bracket('{')] + inner;
    LayoutLength([Bracket('{')] + inner, gaps);
    LayoutOpens('{', inner, gaps);
    OpenCollection(Layout(inner, gaps[1..]));
  }

  /** The first reader reads back a printed value and stops where it ends. */
  lemma {:induction false} ReadPrinted(v: Value, rest: seq<Token>, gaps: seq<string>)
    requires ValidValue(v) && ValidLayout(Conformance, Tokens(v) + rest, gaps)
    ensures |gaps| >= |Tokens(v)| && ValidLayout(Conformance, rest, gaps[|Tokens(v)|..])
    ensures ReadValue(Layout(Tokens(v) + rest, gaps)) == Ok((Denote(v), Layout(rest, gaps[|Tokens(v)|..])))
    decreases v, 1
  {
    assert |gaps| == |Tokens(v)| + |rest| + 1;
    hide ReadValue, ReadVector, ReadMap, Layout, ValidLayout, ValidToken, ValidLiteral, AllValid;
    hide TokensAll, TokensPairs;
    match v
    case Lit(l) =>
      assert Tokens(v) + rest == [Word(l)] + rest;
      ReadWordLaidOut(l, rest, gaps);
    case Vec(values) =>
      VectorFromItems(values, rest, gaps);
      ReadItemsPrinted(values, [], rest, gaps[1..]);
      assert [] + DenoteAll(values) == DenoteAll(values);
    case Map(pairs) =>
      MapFromPairs(pairs, rest, gaps);
      ReadPairsPrinted(pairs, map[], rest, gaps[1..]);
  }

  lemma {:induction false} CloseCollection(c: char, rest: seq<Token>, gaps: seq<string>)
    requires c == ']' || c == '}'
    requires ValidLayout(Conformance, [Bracket(c)] + rest, gaps)
    ensures Skip(Layout([Bracket(c)] + rest, gaps)) == [c] + Layout(rest, gaps[1..])
    ensures ValidLayout(Conformance, rest, gaps[1..])
  {
    assert ([Bracket(c)] + rest)[1..] == rest;
    LayoutStarts([Bracket(c)] + rest, gaps);
  }

  /** The tokens of a non-empty list of values are those of the first and those of the others. */
  lemma {:induction false} SplitItems(values: seq<Value>, rest: seq<Token>, gaps: seq<string>)
    requires values != [] && |gaps| == |TokensAll(values)| + 1 + |rest| + 1
    ensures TokensAll(values) + [Bracket(']')] + rest
         == Tokens(values[0]) + (TokensAll(values[1..]) + [Bracket(']')] + rest)
    ensures |TokensAll(values)| == |Tokens(values[0])| + |TokensAll(values[1..])|
    ensures gaps[|Tokens(values[0])|..][|TokensAll(values[1..])| + 1..] == gaps[|TokensAll(values)| + 1..]
  {
  }

  lemma {:induction false} ReadItemsPrinted(values: seq<Value>, items: seq<Data>, rest: seq<Token>, gaps: seq<string>)
    requires (forall x :: x in values ==> ValidValue(x))
    requires ValidLayout(Conformance, TokensAll(values) + [Bracket(']')] + rest, gaps)
    ensures |gaps| >= |TokensAll(values)| + 1 && ValidLayout(Conformance, rest, gaps[|TokensAll(values)| + 1..])
    ensures ReadVector(Layout(TokensAll(values) + [Bracket(']')] + rest, gaps), items)
         == Ok((Items(items + DenoteAll(values)), Layout(rest, gaps[|TokensAll(values)| + 1..])))
    decreases values, 0
  {
    assert |gaps| == |TokensAll(values) + [Bracket(']')] + rest| + 1;
    assert values == [] ==> TokensAll(values) + [Bracket(']')] + rest == [Bracket(']')] + rest;
    assert values == [] ==> items + DenoteAll(values) == items;
    hide ReadValue, ReadVector, Layout, ValidLayout, ValidToken, Skip, Tokens, Denote, AllValid, TokensAll, ValidValue;
    hide DenoteAll, EndsHere, NeedsEnd, IsGap;
    if values == [] {
      NoItemsPrinted(items, rest, gaps);
    } else {
      SplitItems(values, rest, gaps);
      var more := TokensAll(values[1..]) + [Bracket(']')] + rest;
      ReadPrinted(values[0], more, gaps);
      FirstItem(values[0], items, more, gaps);
      ReadItemsPrinted(values[1..], items + [Denote(values[0])], rest, gaps[|Tokens(values[0])|..]);
      DenoteSplit(values, items);
    }
  }

  lemma {:induction false} NoItemsPrinted(items: seq<Data>, rest: seq<Token>, gaps: seq<string>)
    requires ValidLayout(Conformance, [Bracket(']')] + rest, gaps)
    ensures |gaps| >= 1 && ValidLayout(Conformance, rest, gaps[1..])
    ensures ReadVector(Layout([Bracket(']')] + rest, gaps), items) == Ok((Items(items), Layout(rest, gaps[1..])))
  {
    hide ReadVector, Layout, Skip, IsGap;
    CloseCollection(']', rest, gaps);
    VectorEnd(Layout([Bracket(']')] + rest, gaps), items, Layout(rest, gaps[1..]));
  }

  lemma {:induction false} DenoteSplit(values: seq<Value>, items: seq<Data>)
    requires values != []
    ensures items + [Denote(values[0])] + DenoteAll(values[1..]) == items + DenoteAll(values)
  {
    hide Denote;
  }

  /** One item read, the vector reader goes on behind it. */
  lemma {:induction false} FirstItem(v: Value, items: seq<Data>, more: seq<Token>, gaps: seq<string>)
    requires ValidValue(v) && ValidLayout(Conformance, Tokens(v) + more, gaps) && |gaps| >= |Tokens(v)|
    requires |gaps[|Tokens(v)|..]| == |more| + 1
    requires ReadValue(Layout(Tokens(v) + more, gaps)) == Ok((Denote(v), Layout(more, gaps[|Tokens(v)|..])))
    ensures ReadVector(Layout(Tokens(v) + more, gaps), items)
         == ReadVector(Layout(more, gaps[|Tokens(v)|..]), items + [Denote(v)])
  {
    hide ReadValue, ReadVector, Layout, ValidLayout, Skip, Tokens, Denote, ValidValue;
    ValueStarts(v, more, gaps);
    VectorStep(Layout(Tokens(v) + more, gaps), items, Denote(v), Layout(more, gaps[|Tokens(v)|..]));
  }

  /** A value's text does not start like the end of a collection, so the reader goes on to read it. */
  lemma {:induction false} ValueStarts(v: Value, rest: seq<Token>, gaps: seq<string>)
    requires ValidValue(v) && ValidLayout(Conformance, Tokens(v) + rest, gaps)
    ensures var t := Skip(Layout(Tokens(v) + rest, gaps));
            t != [] && t[0] != ']' && t[0] != '}' && ReadValue(t) == ReadValue(Layout(Tokens(v) + rest, gaps))
  {
    TokensValid(v);
    var toks := Tokens(v) + rest;
    assert toks[0] in Tokens(v);
    hide ReadValue, Layout, ValidLayout, ValidToken, Skip;
    LayoutStarts(toks, gaps);
    SpellStarts(toks[0]);
  }

  lemma {:induction false} ReadPairPrinted(p: Pair, rest: seq<Token>, gaps: seq<string>)
    requires ValidLiteral(p.key) && ValidValue(p.value)
    requires ValidLayout(Conformance, TokensPair(p) + rest, gaps)
    ensures var s := Layout(TokensPair(p) + rest, gaps);
            && Skip(s) != [] && Skip(s)[0] != '}'
            && ReadValue(Skip(s)).Ok? && ReadValue(Skip(s)).value.0 == Atom(DenoteLiteral(p.key))
            && |gaps| >= |TokensPair(p)| && ValidLayout(Conformance, rest, gaps[|TokensPair(p)|..])
            && ReadValue(ReadValue(Skip(s)).value.1) == Ok((DenotePair(p), Layout(rest, gaps[|TokensPair(p)|..])))
    decreases p, 0
  {
    var more := Tokens(p.value) + rest;
    assert TokensPair(p) + rest == [Word(p.key)] + more;
    assert |gaps| == 1 + |more| + 1;
    hide ReadValue, Layout, ValidLayout, ValidToken, Skip;
    assert Tokens(Lit(p.key)) == [Word(p.key)];
    TokensValid(p.value);
    assert more[0] in Tokens(p.value);
    ValueStarts(Lit(p.key), more, gaps);
    ReadWordLaidOut(p.key, more, gaps);
    LayoutTail(Conformance, [Word(p.key)] + more, gaps);
    assert ([Word(p.key)] + more)[1..] == more;
    ReadPrinted(p.value, rest, gaps[1..]);
    assert gaps[1..][|Tokens(p.value)|..] == gaps[|TokensPair(p)|..];
  }

  lemma {:induction false} SplitPairs(pairs: seq<Pair>, rest: seq<Token>, gaps: seq<string>)
    requires pairs != [] && |gaps| == |TokensPairs(pairs)| + 1 + |rest| + 1
    ensures TokensPairs(pairs) + [Bracket('}')] + rest
         == TokensPair(pairs[0]) + (TokensPairs(pairs[1..]) + [Bracket('}')] + rest)
    ensures |TokensPairs(pairs)| == |TokensPair(pairs[0])| + |TokensPairs(pairs[1..])|
    ensures gaps[|TokensPair(pairs[0])|..][|TokensPairs(pairs[1..])| + 1..] == gaps[|TokensPairs(pairs)| + 1..]
  {
    hide TokensPair;
  }

  lemma {:induction false} ReadPairsPrinted(pairs: seq<Pair>, entries: map<Scalar, Data>, rest: seq<Token>,
                                            gaps: seq<string>)
    requires (forall p :: p in pairs ==> ValidLiteral(p.key) && ValidValue(p.value))
    requires ValidLayout(Conformance, TokensPairs(pairs) + [Bracket('}')] + rest, gaps)
    ensures |gaps| >= |TokensPairs(pairs)| + 1 && ValidLayout(Conformance, rest, gaps[|TokensPairs(pairs)| + 1..])
    ensures ReadMap(Layout(TokensPairs(pairs) + [Bracket('}')] + rest, gaps), entries)
         == Ok((Dict(DenotePairs(entries, pairs)), Layout(rest, gaps[|TokensPairs(pairs)| + 1..])))
    decreases pairs, 0
  {
    hide ReadValue, ReadMap, Layout, ValidLayout, ValidToken, Skip, TokensPair, TokensPairs, DenotePairs;
    hide DenotePair, DenoteLiteral, ValidLiteral, ValidValue;
    LayoutLength(TokensPairs(pairs) + [Bracket('}')] + rest, gaps);
    if pairs == [] {
      NoPairs(entries, rest);
      NoPairsPrinted(entries, rest, gaps);
    } else {
      SplitPairs(pairs, rest, gaps);
      var more := TokensPairs(pairs[1..]) + [Bracket('}')] + rest;
      ReadPairPrinted(pairs[0], more, gaps);
      FirstPair(pairs[0], entries, more, gaps);
      DenoteFirst(entries, pairs);
      ReadPairsPrinted(pairs[1..], entries[DenoteLiteral(pairs[0].key) := DenotePair(pairs[0])], rest,
                       gaps[|TokensPair(pairs[0])|..]);
    }
  }

  lemma {:induction false} NoPairs(entries: map<Scalar, Data>, rest: seq<Token>)
    ensures TokensPairs([]) + [Bracket('}')] + rest == [Bracket('}')] + rest && DenotePairs(entries, []) == entries
  {
  }

  lemma {:induction false} DenoteFirst(entries: map<Scalar, Data>, pairs: seq<Pair>)
    requires pairs != []
    ensures DenotePairs(entries, pairs)
         == DenotePairs(entries[DenoteLiteral(pairs[0].key) := DenotePair(pairs[0])], pairs[1..])
  {
  }

  lemma {:induction false} NoPairsPrinted(entries: map<Scalar, Data>, rest: seq<Token>, gaps: seq<string>)
    requires ValidLayout(Conformance, [Bracket('}')] + rest, gaps)
    ensures |gaps| >= 1 && ValidLayout(Conformance, rest, gaps[1..])
    ensures ReadMap(Layout([Bracket('}')] + rest, gaps), entries) == Ok((Dict(entries), Layout(rest, gaps[1..])))
  {
    hide ReadMap, Layout, Skip, IsGap;
    CloseCollection('}', rest, gaps);
    MapEnd(Layout([Bracket('}')] + rest, gaps), entries, Layout(rest, gaps[1..]));
  }

  /** One pair read, the map reader goes on behind it. */
  lemma {:induction false} FirstPair(p: Pair, entries: map<Scalar, Data>, more: seq<Token>, gaps: seq<string>)
    requires |gaps| == |TokensPair(p) + more| + 1
    requires var s := Layout(TokensPair(p) + more, gaps);
             && Skip(s) != [] && Skip(s)[0] != '}'
             && ReadValue(Skip(s)).Ok? && ReadValue(Skip(s)).value.0 == Atom(DenoteLiteral(p.key))
             && ReadValue(ReadValue(Skip(s)).value.1) == Ok((DenotePair(p), Layout(more, gaps[|TokensPair(p)|..])))
    ensures ReadMap(Layout(TokensPair(p) + more, gaps), entries)
         == ReadMap(Layout(more, gaps[|TokensPair(p)|..]), entries[DenoteLiteral(p.key) := DenotePair(p)])
  {
    hide ReadValue, ReadMap, Layout, Skip, TokensPair, DenotePair, DenoteLiteral;
    var s := Layout(TokensPair(p) + more, gaps);
    MapStep(s, entries, DenoteLiteral(p.key), ReadValue(Skip(s)).value.1, DenotePair(p),
            Layout(more, gaps[|TokensPair(p)|..]));
  }

  // ----- the second reader

  /** A token as the second reader's tokenizer produces it. */
  function Tokenized(t: Token): string {
    match t
    case Bracket(c) => [c]
    case Word(StrLit(s)) => STRING_MARK + s
    case Word(_) => Spell(t)
  }

  function TokenizedAll(toks: seq<Token>): seq<string> {
    if toks == [] then [] else [Tokenized(toks[0])] + TokenizedAll(toks[1..])
  }

  lemma {:induction false} TokenizedConcat(a: seq<Token>, b: seq<Token>)
    ensures TokenizedAll(a + b) == TokenizedAll(a) + TokenizedAll(b)
  {
    hide Tokenized;
    if a == [] {
      assert a + b == b;
    } else {
      TokenizedConcat(a[1..], b);
      assert (a + b)[1..] == a[1..] + b;
    }
  }

  /** The second reader makes one token of a word and all run characters behind it. */
  lemma {:induction false} TokenizeRun(w: string, rest: string)
    requires w != [] && forall i :: 0 <= i < |w| ==> IsNameChar(w[i])
    ensures var k := RunLength(rest);
            Tokenize(w + rest) == [w + rest[..k]] + Tokenize(rest[k..])
  {
    hide IsSpace, RunLength, StringBody, AfterComment;
    var t, k := w + rest, RunLength(rest);
    NameIsWord(w);
    RunGoesOn(w, rest);
    assert t[0] == w[0] && IsNameChar(w[0]);
    assert IsRunChar(t[0]) && t[0] != '"';
    assert t[..|w| + k] == w + rest[..k] && t[|w| + k..] == rest[k..];
  }

  lemma {:induction false} WordIsName(l: Literal)
    requires ValidLiteral(l) && NeedsEnd(Word(l))
    ensures var w := Spell(Word(l));
            w != [] && forall i :: 0 <= i < |w| ==> IsNameChar(w[i])
  {
    hide IsNameChar;
    match l
    case IntLit(n) => DecimalIsName(n);
    case KeyLit(_) => ColonIsName();
  }

  /** The second reader makes a token of an integer or keyword alone exactly if no run character follows. */
  lemma {:induction false} WordIsTokenExactly(l: Literal, rest: string)
    requires ValidLiteral(l) && NeedsEnd(Word(l))
    ensures var w := Spell(Word(l));
            && Tokenize(w + rest) != []
            && (Tokenize(w + rest)[0] == w <==> EndsHere(Notebook, rest))
            && (EndsHere(Notebook, rest) ==> Tokenize(w + rest) == [w] + Tokenize(rest))
  {
    WordIsName(l);
    var w, k := Spell(Word(l)), RunLength(rest);
    TokenizeRun(w, rest);
    hide Tokenize, Spell, IsNameChar;
    assert k == 0 ==> w + rest[..0] == w && rest[0..] == rest;
    assert |w + rest[..k]| == |w| + k;
  }

  lemma {:induction false} TokenizeToken(t: Token, rest: string)
    requires ValidToken(t) && (NeedsEnd(t) ==> EndsHere(Notebook, rest))
    ensures Tokenize(Spell(t) + rest) == [Tokenized(t)] + Tokenize(rest)
  {
    match t
    case Bracket(c) =>
      assert (Spell(t) + rest)[1..] == rest;
    case Word(StrLit(s)) =>
      EscapedIsRead(s, rest);
      assert (Spell(t) + rest)[1..] == Escaped(s) + ['"'] + rest;
    case Word(l) =>
      WordIsTokenExactly(l, rest);
  }

  lemma {:induction false} ColonIsName()
    ensures IsNameChar(':')
  {
  }

  /** One token behind its gap. */
  lemma {:induction false} TokenizeFirst(toks: seq<Token>, gaps: seq<string>)
    requires toks != [] && AllValid(toks) && AreGaps(Notebook, toks, gaps)
    ensures var rest := Layout(toks[1..], gaps[1..]);
            && Tokenize(Layout(toks, gaps)) != []
            && if NeedsEnd(toks[0]) ==> EndsHere(Notebook, rest) then
                 Tokenize(Layout(toks, gaps)) == [Tokenized(toks[0])] + Tokenize(rest)
               else
                 Tokenize(Layout(toks, gaps))[0] != Tokenized(toks[0])
  {
    var rest := Layout(toks[1..], gaps[1..]);
    TokenizeGap(gaps[0], Spell(toks[0]) + rest);
    assert Layout(toks, gaps) == gaps[0] + (Spell(toks[0]) + rest);
    assert toks[0] in toks && ValidToken(toks[0]);
    hide Tokenize, Spell, IsGap, EndsHere;
    if NeedsEnd(toks[0]) ==> EndsHere(Notebook, rest) {
      TokenizeToken(toks[0], rest);
    } else {
      WordIsTokenExactly(toks[0].lit, rest);
    }
  }

  /** The tokenizer recovers the tokens from a layout, and then those of what follows, exactly if the words end. */
  lemma {:induction false} TokenizeLayout(toks: seq<Token>, gaps: seq<string>)
    requires AllValid(toks) && AreGaps(Notebook, toks, gaps)
    ensures Tokenize(Layout(toks, gaps)) == TokenizedAll(toks) + Tokenize(gaps[|toks|])
       <==> WordsEnd(Notebook, toks, gaps)
    decreases |toks|
  {
    hide Tokenize, Spell, IsGap, ValidToken, Tokenized, EndsHere, NeedsEnd;
    if toks == [] {
      assert TokenizedAll(toks) + Tokenize(gaps[0]) == Tokenize(gaps[0]);
    } else {
      TokenizeFirst(toks, gaps);
      GapsTail(Notebook, toks, gaps);
      TokenizeLayout(toks[1..], gaps[1..]);
      WordsEndTail(Notebook, toks, gaps);
      hide Layout, WordsEnd, AreGaps;
      var first, others := [Tokenized(toks[0])], TokenizedAll(toks[1..]) + Tokenize(gaps[|toks|]);
      assert TokenizedAll(toks) + Tokenize(gaps[|toks|]) == first + others;
      assert (first + others)[0] == Tokenized(toks[0]) && (first + others)[1..] == others;
      var rest := Tokenize(Layout(toks[1..], gaps[1..]));
      assert (first + rest)[1..] == rest;
    }
  }

  lemma {:induction false} NotANumber(t: string)
    requires t != [] && t[0] == ':'
    ensures AtomOf(t) == Str(t)
  {
    NotANumberText(t);
    hide IsFloatText, IsIntText, IntText;
  }

  lemma {:induction false} NotANumberText(t: string)
    requires t != [] && t[0] == ':'
    ensures !IsIntText(t) && !IsFloatText(t)
  {
    hide IntText, MagnitudeValue;
    assert !IsDigit(t[0]);
    assert !AllDigits(t) && !IsFraction(t);
  }

  lemma {:induction false} StringAtom(s: string)
    ensures AtomOf(STRING_MARK + s) == Str(s)
  {
    hide IsFloatText, IsIntText;
    var t := STRING_MARK + s;
    assert t[0] == 'S' && t[|STRING_MARK|..] == s;
  }

  lemma {:induction false} AtomOfLiteral(l: Literal)
    requires ValidLiteral(l)
    ensures AtomOf(Tokenized(Word(l))) == DenoteLiteral(l)
    ensures Tokenized(Word(l)) !in ["(", "[", "{", ")", "]", "}"]
  {
    var t := Tokenized(Word(l));
    match l
    case IntLit(n) =>
      AtomOfInteger(n);
    case StrLit(s) =>
      StringAtom(s);
      hide AtomOf;
      assert t[0] == 'S';
    case KeyLit(name) =>
      NotANumber(t);
  }

  lemma {:induction false} AtomOfInteger(n: int)
    ensures AtomOf(Decimal(n)) == Int(n)
    ensures Decimal(n) !in ["(", "[", "{", ")", "]", "}"]
  {
    var t := Decimal(n);
    assert t[0] == '-' || IsDigit(t[0]);
    assert IsIntText(t) && IntText(t) == n by {
      if n < 0 {
        assert t[1..] == Digits(-n);
      }
    }
    assert t != "nil" && t != "true" && t != "false" && !(STRING_MARK <= t);
    hide Decimal, IntText, IsIntText, IsFloatText;
  }

  /** The second reader's parser reads back the tokens of a printed value, whatever follows. */
  lemma {:induction false} ParsePrinted(v: Value, rest: seq<string>)
    requires ValidValue(v)
    ensures ParseValue(TokenizedAll(Tokens(v)) + rest) == Ok((Denote(v), rest))
    decreases v, 1
  {
    var toks := TokenizedAll(Tokens(v)) + rest;
    match v
    case Lit(l) =>
      AtomOfLiteral(l);
      assert TokenizedAll([Word(l)]) == [Tokenized(Word(l))];
      assert toks[1..] == rest;
    case Vec(values) =>
      WrapTokens('[', TokensAll(values), ']', rest);
      ParseItemsPrinted(values, "]", [], rest);
      assert [] + DenoteAll(values) == DenoteAll(values);
    case Map(pairs) =>
      WrapTokens('{', TokensPairs(pairs), '}', rest);
      ParsePairsPrinted(pairs, map[], rest);
  }

  lemma {:induction false} WrapTokens(open: char, inner: seq<Token>, close: char, rest: seq<string>)
    ensures TokenizedAll([Bracket(open)] + inner + [Bracket(close)]) + rest
         == [[open]] + (TokenizedAll(inner) + [[close]] + rest)
  {
    TokenizedConcat([Bracket(open)] + inner, [Bracket(close)]);
    TokenizedConcat([Bracket(open)], inner);
    assert TokenizedAll([Bracket(open)]) == [[open]] && TokenizedAll([Bracket(close)]) == [[close]];
  }

  /** A value's first token closes nothing. */
  lemma {:induction false} ValueTokenStarts(v: Value)
    requires ValidValue(v)
    ensures TokenizedAll(Tokens(v)) != [] && TokenizedAll(Tokens(v))[0] !in [")", "]", "}"]
  {
    assert Tokens(v)[0] == match v
                           case Lit(l) => Word(l)
                           case Vec(_) => Bracket('[')
                           case Map(_) => Bracket('{');
    if v.Lit? {
      AtomOfLiteral(v.lit);
    }
    hide Tokens;
  }

  lemma {:induction false} ParseItemsPrinted(values: seq<Value>, close: string, items: seq<Data>, rest: seq<string>)
    requires (forall x :: x in values ==> ValidValue(x)) && close in [")", "]"]
    ensures ParseSeq(TokenizedAll(TokensAll(values)) + [close] + rest, close, items)
         == Ok((Items(items + DenoteAll(values)), rest))
    decreases values, 0
  {
    var toks := TokenizedAll(TokensAll(values)) + [close] + rest;
    if values == [] {
      assert toks[0] == close && toks[1..] == rest && items + [] == items;
    } else {
      var first := TokenizedAll(Tokens(values[0]));
      var more := TokenizedAll(TokensAll(values[1..])) + [close] + rest;
      TokenizedConcat(Tokens(values[0]), TokensAll(values[1..]));
      assert toks == first + more;
      ValueTokenStarts(values[0]);
      ParsePrinted(values[0], more);
      hide ParseValue, Tokens, Denote, TokenizedAll, ValidValue;
      ParseItemsPrinted(values[1..], close, items + [Denote(values[0])], rest);
      DenoteSplit(values, items);
    }
  }

  lemma {:induction false} ParsePairPrinted(p: Pair, rest: seq<string>)
    requires ValidLiteral(p.key) && ValidValue(p.value)
    ensures var toks := TokenizedAll(TokensPair(p)) + rest;
            && toks != [] && toks[0] != "}"
            && ParseValue(toks).Ok? && ParseValue(toks).value.0 == Atom(DenoteLiteral(p.key))
            && ParseValue(ParseValue(toks).value.1) == Ok((DenotePair(p), rest))
    decreases p, 0
  {
    var toks := TokenizedAll(TokensPair(p)) + rest;
    AtomOfLiteral(p.key);
    TokenizedConcat([Word(p.key)], Tokens(p.value));
    var afterKey := TokenizedAll(Tokens(p.value)) + rest;
    assert TokenizedAll([Word(p.key)]) == [Tokenized(Word(p.key))];
    assert toks[0] == Tokenized(Word(p.key)) && toks[1..] == afterKey;
    hide AtomOf, Tokenized, Denote, Tokens, TokenizedAll, DenoteLiteral;
    ParsePrinted(p.value, rest);
  }

  lemma {:induction false} ParsePairsPrinted(pairs: seq<Pair>, entries: map<Scalar, Data>, rest: seq<string>)
    requires forall p :: p in pairs ==> ValidLiteral(p.key) && ValidValue(p.value)
    ensures ParseMap(TokenizedAll(TokensPairs(pairs)) + ["}"] + rest, entries)
         == Ok((Dict(DenotePairs(entries, pairs)), rest))
    decreases pairs, 0
  {
    var toks := TokenizedAll(TokensPairs(pairs)) + ["}"] + rest;
    if pairs == [] {
      assert toks[0] == "}" && toks[1..] == rest;
    } else {
      var first := TokenizedAll(TokensPair(pairs[0]));
      var more := TokenizedAll(TokensPairs(pairs[1..])) + ["}"] + rest;
      TokenizedConcat(TokensPair(pairs[0]), TokensPairs(pairs[1..]));
      assert toks == first + more;
      ParsePairPrinted(pairs[0], more);
      hide ParseValue, TokensPair, DenotePair, TokenizedAll, ValidValue, ValidLiteral, DenoteLiteral;
      ParsePairsPrinted(pairs[1..], entries[DenoteLiteral(pairs[0].key) := DenotePair(pairs[0])], rest);
    }
  }

  // ----- both readers

  /** The second reader accepts a printed value exactly if nothing but a gap follows it. */
  lemma {:induction false} ParseLayout(v: Value, gaps: seq<string>)
    requires ValidValue(v) && ValidLayout(Notebook, Tokens(v), gaps)
    ensures ParseText(Layout(Tokens(v), gaps))
         == if IsLastGap(Notebook, gaps[|Tokens(v)|]) then Ok(Denote(v)) else Err(TrailingInput)
  {
    TokensValid(v);
    TokenizeLayout(Tokens(v), gaps);
    NoTokensExactly(gaps[|Tokens(v)|]);
    ParsePrinted(v, Tokenize(gaps[|Tokens(v)|]));
    ValueTokenStarts(v);
    hide ParseValue, Tokenize, Layout, Tokens, TokenizedAll, WordsEnd, IsLastGap;
  }

  /**
   Every printable value is read back by both readers, with what follows left over, from every layout whose gaps and
   ends of words are such for both; so on these texts the two agree.
   */
  lemma {:induction false} BothReadersRecover(v: Value, gaps: seq<string>)
    requires ValidValue(v) && ValidLayout(Conformance, Tokens(v), gaps) && ValidLayout(Notebook, Tokens(v), gaps)
    ensures var text, after := Layout(Tokens(v), gaps), gaps[|Tokens(v)|];
            && ReadValue(text) == Ok((Denote(v), after))
            && ParseText(text) == if IsLastGap(Notebook, after) then Ok(Denote(v)) else Err(TrailingInput)
  {
    assert Tokens(v) + [] == Tokens(v);
    ReadPrinted(v, [], gaps);
    ParseLayout(v, gaps);
    hide ReadValue, ParseText, Tokens, Denote;
  }
}
