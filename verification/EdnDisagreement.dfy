/** Texts on which the two EDN readers disagree: where one of them ends a word, the other reads on. */
module EdnDisagreement {
  import opened Basics
  import opened Whitespace
  import opened Decimals
  import opened EdnData
  import opened EdnLayout
  import opened EdnReader
  import opened EdnRoundTrip
  import opened NotebookEdn

  /** The characters at which one reader ends a word and the other goes on. */
  lemma {:induction false} EndsDifferExactly(rest: string)
    ensures EndsHere(Conformance, rest) != EndsHere(Notebook, rest)
       <==> && rest != []
            && (|| rest[0] == ';' || rest[0] == '"' || rest[0] == '#'
                || (IsSpace(rest[0]) && rest[0] !in " \t\r\n"))
    ensures EndsHere(Conformance, rest) <==> rest == [] || IsSpace(rest[0]) || rest[0] in "[]{}#\"(),"
    ensures EndsHere(Notebook, rest) <==> rest == [] || rest[0] in " \t\r\n,()[]{};"
  {
  }

  /** Behind an integer or keyword, exactly there one reader reads the word alone and the other does not. */
  lemma {:induction false} WordReadDifferently(l: Literal, rest: string)
    requires ValidLiteral(l) && NeedsEnd(Word(l))
    ensures var w := Spell(Word(l));
            && Tokenize(w + rest) != []
            && ((ReadValue(w + rest) == Ok((Atom(DenoteLiteral(l)), rest))) != (Tokenize(w + rest)[0] == w)
                <==> && rest != []
                     && (|| rest[0] == ';' || rest[0] == '"' || rest[0] == '#'
                         || (IsSpace(rest[0]) && rest[0] !in " \t\r\n")))
  {
    WordIsReadExactly(l, rest);
    WordIsTokenExactly(l, rest);
    EndsDifferExactly(rest);
    hide ReadValue, Tokenize, Spell, EndsHere, IsSpace;
  }

  /** A text with such a character reads as a number in neither reader. */
  lemma {:induction false} ForeignIsNoNumber(text: string, i: nat)
    requires i < |text| && (text[i] == ';' || text[i] == '"')
    ensures ReadInt(text).None? && !IsIntText(text) && !IsFloatText(text)
  {
    hide IsMagnitude, AllDigits, IsFraction, MagnitudeValue, IntText;
    ForeignIsNoDigits(text, i);
    if i > 0 {
      assert text[1..][i - 1] == text[i];
      ForeignIsNoDigits(text[1..], i - 1);
    }
  }

  lemma {:induction false} ForeignIsNoDigits(text: string, i: nat)
    requires i < |text| && (text[i] == ';' || text[i] == '"')
    ensures !IsMagnitude(text) && !AllDigits(text) && !IsFraction(text)
  {
    assert !IsDigit(text[i]);
    forall k | 0 <= k < |text| && text[k] == '.' && forall j :: 0 <= j < k ==> IsDigit(text[j])
      ensures !AllDigits(text[k + 1..])
    {
      assert i > k;
      assert text[k + 1..][i - k - 1] == text[i];
    }
  }

  /**
   A comment directly behind an integer or keyword: the second reader ends the word and skips the comment, the first
   takes the comment's first run of token characters into a longer string.
   */
  lemma {:induction false} CommentBehindWord(l: Literal, comment: string)
    requires ValidLiteral(l) && NeedsEnd(Word(l))
    requires comment != [] && comment[0] == ';' && IsLastGap(Notebook, comment)
    ensures var w, k := Spell(Word(l)), TokenLength(comment);
            && ParseText(w + comment) == Ok(Atom(DenoteLiteral(l)))
            && ReadValue(w + comment) == Ok((Atom(Str(w + comment[..k])), comment[k..]))
            && DenoteLiteral(l) != Str(w + comment[..k])
  {
    var w, k := Spell(Word(l)), TokenLength(comment);
    ReadRun(l, comment);
    ForeignIsNoNumber(w + comment[..k], |w|);
    OneWord(l, comment);
    ParseLayout(Lit(l), [[], comment]);
    hide ReadValue, ParseText, TokenLength, ReadInt, Layout, Decimal;
  }

  /** A word alone as a layout. */
  lemma {:induction false} OneWord(l: Literal, after: string)
    requires ValidLiteral(l) && EndsHere(Notebook, after)
    ensures ValidLayout(Notebook, Tokens(Lit(l)), [[], after])
    ensures Layout(Tokens(Lit(l)), [[], after]) == Spell(Word(l)) + after
  {
    var toks, gaps := Tokens(Lit(l)), [[], after];
    assert toks == [Word(l)] && toks[1..] == [] && gaps[1..] == [after];
    hide Spell;
    assert Layout([], [after]) == after;
    assert [] + Spell(Word(l)) == Spell(Word(l));
  }

  /** A string directly behind an integer or keyword: the first reader ends the word, the second goes on. */
  lemma {:induction false} StringBehindWord(l: Literal, s: string, after: string)
    requires ValidLiteral(l) && NeedsEnd(Word(l))
    ensures var w, rest := Spell(Word(l)), Spell(Word(StrLit(s))) + after;
            && ReadValue(w + rest) == Ok((Atom(DenoteLiteral(l)), rest))
            && ParseText(w + rest) != Ok(Atom(DenoteLiteral(l)))
  {
    var w, rest := Spell(Word(l)), Spell(Word(StrLit(s))) + after;
    assert rest[0] == '"';
    WordIsReadExactly(l, rest);
    QuoteGoesOn(l, rest);
    hide ReadValue, ParseText;
  }

  lemma {:induction false} QuoteGoesOn(l: Literal, rest: string)
    requires ValidLiteral(l) && NeedsEnd(Word(l)) && rest != [] && rest[0] == '"'
    ensures ParseText(Spell(Word(l)) + rest) != Ok(Atom(DenoteLiteral(l)))
  {
    var w, k := Spell(Word(l)), RunLength(rest);
    WordIsName(l);
    TokenizeRun(w, rest);
    LongWordAtom(l, w + rest[..k]);
    hide Tokenize, RunLength, Spell, AtomOf, DenoteLiteral, IsNameChar;
    assert (w + rest[..k])[|w|] == '"' && |w + rest[..k]| > 1;
  }

  lemma {:induction false} LongWordAtom(l: Literal, t: string)
    requires ValidLiteral(l) && NeedsEnd(Word(l))
    requires var w := Spell(Word(l)); |t| > |w| && t[..|w|] == w && t[|w|] == '"'
    ensures AtomOf(t) != DenoteLiteral(l)
  {
    ForeignIsNoNumber(t, |Spell(Word(l))|);
    assert t[0] == Spell(Word(l))[0];
    hide IsIntText, IsFloatText, IntText, Decimal;
  }
}
