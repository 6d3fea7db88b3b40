/**
 Printed EDN texts: the tokens of a value with gaps between them, and what each of the two readers takes for a gap and
 for the end of a word.
 */
module EdnLayout {
  import opened Whitespace
  import opened EdnData
  import opened EdnReader
  import opened NotebookEdn

  datatype Side = Conformance | Notebook

  /** A character that the reader skips between tokens. */
  predicate Separates(side: Side, c: char) {
    match side
    case Conformance => IsSpace(c)
    case Notebook => IsSeparator(c)
  }

  /** A character with which the reader goes on reading a word. */
  predicate Continues(side: Side, c: char) {
    match side
    case Conformance => IsTokenChar(c)
    case Notebook => IsRunChar(c)
  }

  /** Separators and comments; every comment ends with a newline. */
  predicate IsGap(side: Side, g: string)
    decreases |g|
  {
    || g == []
    || (Separates(side, g[0]) && IsGap(side, g[1..]))
    || (g[0] == ';' && '\n' in g && IsGap(side, AfterComment(g)))
  }

  /** A gap up to the end of the text, where the last comment needs no newline. */
  predicate IsLastGap(side: Side, g: string)
    decreases |g|
  {
    g == [] || (Separates(side, g[0]) && IsLastGap(side, g[1..])) || (g[0] == ';' && IsLastGap(side, AfterComment(g)))
  }

  /** A word that is not a string ends only where something ends it. */
  predicate NeedsEnd(t: Token) {
    t.Word? && !t.lit.StrLit?
  }

  /** A word ends before `rest`. */
  predicate EndsHere(side: Side, rest: string) {
    rest == [] || !Continues(side, rest[0])
  }

  /** Tokens behind their gaps; the last of `gaps` is whatever follows them. */
  function Layout(toks: seq<Token>, gaps: seq<string>): string
    requires |gaps| == |toks| + 1
  {
    if toks == [] then gaps[0] else gaps[0] + Spell(toks[0]) + Layout(toks[1..], gaps[1..])
  }

  predicate AreGaps(side: Side, toks: seq<Token>, gaps: seq<string>) {
    |gaps| == |toks| + 1 && forall i :: 0 <= i < |toks| ==> IsGap(side, gaps[i])
  }

  /** The character behind every integer and keyword is one that ends it. */
  predicate WordsEnd(side: Side, toks: seq<Token>, gaps: seq<string>)
    requires |gaps| == |toks| + 1
  {
    forall i :: 0 <= i < |toks| && NeedsEnd(toks[i]) ==> EndsHere(side, Layout(toks[i + 1..], gaps[i + 1..]))
  }

  predicate ValidLayout(side: Side, toks: seq<Token>, gaps: seq<string>) {
    AreGaps(side, toks, gaps) && WordsEnd(side, toks, gaps)
  }

  lemma {:induction false} GapsTail(side: Side, toks: seq<Token>, gaps: seq<string>)
    requires toks != [] && AreGaps(side, toks, gaps)
    ensures AreGaps(side, toks[1..], gaps[1..])
  {
    hide IsGap;
  }

  /** All words end exactly if the first one does and the others do. */
  lemma {:induction false} WordsEndTail(side: Side, toks: seq<Token>, gaps: seq<string>)
    requires toks != [] && |gaps| == |toks| + 1
    ensures WordsEnd(side, toks, gaps) <==>
              && (NeedsEnd(toks[0]) ==> EndsHere(side, Layout(toks[1..], gaps[1..])))
              && WordsEnd(side, toks[1..], gaps[1..])
  {
    hide Layout, EndsHere, NeedsEnd;
    forall i | 0 <= i < |toks| - 1
      ensures toks[1..][i] == toks[i + 1]
      ensures Layout(toks[1..][i + 1..], gaps[1..][i + 1..]) == Layout(toks[i + 2..], gaps[i + 2..])
    {
      assert toks[1..][i + 1..] == toks[i + 2..] && gaps[1..][i + 1..] == gaps[i + 2..];
    }
    if WordsEnd(side, toks, gaps) {
      assert NeedsEnd(toks[0]) ==> EndsHere(side, Layout(toks[0 + 1..], gaps[0 + 1..]));
      forall i | 0 <= i < |toks| - 1 && NeedsEnd(toks[1..][i])
        ensures EndsHere(side, Layout(toks[1..][i + 1..], gaps[1..][i + 1..]))
      {
        var j := i + 1;
        assert NeedsEnd(toks[j]) ==> EndsHere(side, Layout(toks[j + 1..], gaps[j + 1..]));
      }
    }
    if WordsEnd(side, toks[1..], gaps[1..]) {
      forall j | 1 <= j < |toks| && NeedsEnd(toks[j])
        ensures EndsHere(side, Layout(toks[j + 1..], gaps[j + 1..]))
      {
        var i := j - 1;
        assert NeedsEnd(toks[1..][i]) ==> EndsHere(side, Layout(toks[1..][i + 1..], gaps[1..][i + 1..]));
      }
    }
  }

  lemma {:induction false} LayoutTail(side: Side, toks: seq<Token>, gaps: seq<string>)
    requires toks != [] && ValidLayout(side, toks, gaps)
    ensures ValidLayout(side, toks[1..], gaps[1..])
    ensures NeedsEnd(toks[0]) ==> EndsHere(side, Layout(toks[1..], gaps[1..]))
  {
    hide IsGap, WordsEnd, EndsHere, NeedsEnd, Layout;
    GapsTail(side, toks, gaps);
    WordsEndTail(side, toks, gaps);
  }
}
