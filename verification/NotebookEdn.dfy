/** The notebook EDN reader, `scripts/notebook_shots_util.py`: a tokenizer and a parser over its tokens. */
module NotebookEdn {
  import opened Basics
  import opened Decimals
  import opened EdnData

  // ----- tokens

  predicate IsSeparator(c: char) {
    c in " \t\r\n,"
  }

  predicate IsBracket(c: char) {
    c in "()[]{}"
  }

  /** A character that belongs to an atom's run. */
  predicate IsRunChar(c: char) {
    !IsSeparator(c) && !IsBracket(c) && c != ';'
  }

  function RunLength(s: string): (n: nat)
    ensures n <= |s|
    ensures n > 0 <==> s != [] && IsRunChar(s[0])
  {
    if s == [] || !IsRunChar(s[0]) then 0 else 1 + RunLength(s[1..])
  }

  /** Where the comment at the start of `s` ends: after its newline, or at the end of the text. */
  function AfterComment(s: string): (r: string)
    ensures |r| <= |s|
    ensures s != [] ==> |r| < |s|
  {
    if s == [] then [] else if s[0] == '\n' then s[1..] else AfterComment(s[1..])
  }

  /** A string's characters and what follows it; a missing closing quote is not an error here. */
  function StringBody(s: string): (r: (string, string))
    ensures |r.1| <= |s|
    decreases |s|
  {
    if s == [] then ([], [])
    else if s[0] == '\\' && |s| > 1 then
      var rest := StringBody(s[2..]);
      ([s[1]] + rest.0, rest.1)
    else if s[0] == '"' then ([], s[1..])
    else
      var rest := StringBody(s[1..]);
      ([s[0]] + rest.0, rest.1)
  }

  const STRING_MARK := "STR:"

  /** `_tokenize`. */
  function Tokenize(s: string): seq<string>
    decreases |s|
  {
    if s == [] then []
    else if IsSeparator(s[0]) then Tokenize(s[1..])
    else if s[0] == ';' then Tokenize(AfterComment(s))
    else if IsBracket(s[0]) then [[s[0]]] + Tokenize(s[1..])
    else if s[0] == '"' then
      var (text, rest) := StringBody(s[1..]);
      [STRING_MARK + text] + Tokenize(rest)
    else
      var n := RunLength(s);
      [s[..n]] + Tokenize(s[n..])
  }

  method FindNewline(s: string, start: nat) returns (end: nat)
    requires start < |s| && s[start] == ';'
    ensures start < end <= |s| && s[end..] == AfterComment(s[start..])
  {
    end := start;
    while end < |s| && s[end] != '\n'
      invariant start <= end <= |s|
      invariant AfterComment(s[start..]) == AfterComment(s[end..])
      invariant end == start ==> s[end] == ';'
    {
      assert s[end..][1..] == s[end + 1..];
      end := end + 1;
    }
    if end < |s| {
      assert s[end..][1..] == s[end + 1..];
      end := end + 1;
    }
  }

  /** One step of `ScanString`, with what was read so far in front. */
  lemma {:induction false} BodyStep(s: string, i: nat, text: string)
    requires i < |s|
    ensures var (body, rest) := StringBody(s[i..]);
            if s[i] == '\\' && i + 1 < |s| then
              (text + body, rest) == (text + [s[i + 1]] + StringBody(s[i + 2..]).0, StringBody(s[i + 2..]).1)
            else if s[i] == '"' then
              (text + body, rest) == (text, s[i + 1..])
            else
              (text + body, rest) == (text + [s[i]] + StringBody(s[i + 1..]).0, StringBody(s[i + 1..]).1)
  {
    assert s[i..][1..] == s[i + 1..] && (i + 1 < |s| ==> s[i..][2..] == s[i + 2..]);
    if s[i] == '\\' && i + 1 < |s| {
      var rest := StringBody(s[i + 2..]).0;
      assert text + ([s[i + 1]] + rest) == text + [s[i + 1]] + rest;
    } else if s[i] == '"' {
      assert text + [] == text;
    } else {
      var rest := StringBody(s[i + 1..]).0;
      assert text + ([s[i]] + rest) == text + [s[i]] + rest;
    }
  }

  method ScanString(s: string, start: nat) returns (text: string, end: nat)
    requires start <= |s|
    ensures start <= end <= |s| && (text, s[end..]) == StringBody(s[start..])
  {
    text, end := [], start;
    ghost var r := StringBody(s[start..]);
    assert [] + r.0 == r.0;
    while end < |s|
      invariant start <= end <= |s|
      invariant r == (text + StringBody(s[end..]).0, StringBody(s[end..]).1)
      decreases |s| - end
    {
      BodyStep(s, end, text);
      hide StringBody;
      if s[end] == '\\' && end + 1 < |s| {
        text := text + [s[end + 1]];
        end := end + 2;
      } else if s[end] == '"' {
        end := end + 1;
        return;
      } else {
        text := text + [s[end]];
        end := end + 1;
      }
    }
    assert text + [] == text;
  }

  method ScanRun(s: string, start: nat) returns (end: nat)
    requires start < |s| && IsRunChar(s[start])
    ensures start < end <= |s| && end - start == RunLength(s[start..])
  {
    end := start;
    ghost var r := RunLength(s[start..]);
    while end < |s| && IsRunChar(s[end])
      invariant start <= end <= |s|
      invariant r == end - start + RunLength(s[end..])
    {
      assert s[end..][1..] == s[end + 1..];
      end := end + 1;
    }
  }

  /** `_tokenize`, as the loop over an index that it is. */
  method TokenizeText(s: string) returns (toks: seq<string>)
    ensures toks == Tokenize(s)
  {
    hide AfterComment, StringBody, RunLength, IsSeparator, IsBracket;
    toks := [];
    var i := 0;
    while i < |s|
      invariant 0 <= i <= |s|
      invariant Tokenize(s) == toks + Tokenize(s[i..])
      decreases |s| - i
    {
      ghost var rest := s[i..];
      assert rest[0] == s[i] && rest[1..] == s[i + 1..];
      ghost var before := toks;
      if IsSeparator(s[i]) {
        i := i + 1;
      } else if s[i] == ';' {
        i := FindNewline(s, i);
      } else if IsBracket(s[i]) {
        toks := toks + [[s[i]]];
        assert before + ([[s[i]]] + Tokenize(s[i + 1..])) == toks + Tokenize(s[i + 1..]);
        i := i + 1;
      } else if s[i] == '"' {
        var text, end := ScanString(s, i + 1);
        toks := toks + [STRING_MARK + text];
        assert before + ([STRING_MARK + text] + Tokenize(s[end..])) == toks + Tokenize(s[end..]);
        i := end;
      } else {
        assert IsRunChar(s[i]);
        var end := ScanRun(s, i);
        assert rest[..end - i] == s[i..end] && rest[end - i..] == s[end..];
        toks := toks + [s[i..end]];
        assert before + ([s[i..end]] + Tokenize(s[end..])) == toks + Tokenize(s[end..]);
        i := end;
      }
    }
    assert toks + [] == toks && s[i..] == [];
  }

  // ----- atoms

  /** `^-?\d+$`, with ASCII digits. */
  predicate IsIntText(t: string) {
    AllDigits(t) || (t != [] && t[0] == '-' && AllDigits(t[1..]))
  }

  /** `^-?\d*\.\d+$`, with ASCII digits. */
  predicate IsFloatText(t: string) {
    IsFraction(if t != [] && t[0] == '-' then t[1..] else t)
  }

  predicate IsFraction(d: string) {
    exists k :: 0 <= k < |d| && d[k] == '.' && AllDigits(d[k + 1..]) && forall i :: 0 <= i < k ==> IsDigit(d[i])
  }

  function IntText(t: string): int
    requires IsIntText(t)
  {
    if t[0] == '-' then 0 - MagnitudeValue(t[1..]) as int else MagnitudeValue(t)
  }

  /** `_atom`. */
  function AtomOf(t: string): Scalar {
    if t == "nil" then Nil
    else if t == "true" then Bool(true)
    else if t == "false" then Bool(false)
    else if STRING_MARK <= t then Str(t[|STRING_MARK|..])
    else if IsIntText(t) then Int(IntText(t))
    else if IsFloatText(t) then Float(t)
    else Str(t)
  }

  // ----- parsing

  /** `parse`: the first value and the tokens after it. */
  function ParseValue(toks: seq<string>): (r: Result<(Data, seq<string>), EdnError>)
    ensures r.Ok? ==> |r.value.1| < |toks|
    decreases |toks|, 0
  {
    if toks == [] then Err(UnexpectedEnd)
    else if toks[0] == "(" then ParseSeq(toks[1..], ")", [])
    else if toks[0] == "[" then ParseSeq(toks[1..], "]", [])
    else if toks[0] == "{" then ParseMap(toks[1..], map[])
    else Ok((Atom(AtomOf(toks[0])), toks[1..]))
  }

  function ParseSeq(toks: seq<string>, close: string, items: seq<Data>): (r: Result<(Data, seq<string>), EdnError>)
    ensures r.Ok? ==> |r.value.1| < |toks|
    decreases |toks|, 1
  {
    if toks == [] then Err(MissingClose)
    else if toks[0] == close then Ok((Items(items), toks[1..]))
    else
      var (item, rest) :- ParseValue(toks);
      ParseSeq(rest, close, items + [item])
  }

  function ParseMap(toks: seq<string>, entries: map<Scalar, Data>): (r: Result<(Data, seq<string>), EdnError>)
    ensures r.Ok? ==> |r.value.1| < |toks|
    decreases |toks|, 1
  {
    if toks == [] then Err(MissingClose)
    else if toks[0] == "}" then Ok((Dict(entries), toks[1..]))
    else
      var (key, afterKey) :- ParseValue(toks);
      var (value, rest) :- ParseValue(afterKey);
      if !key.Atom? then Err(Unhashable) else ParseMap(rest, entries[key.a := value])
  }

  /** `parse_edn`: an empty text reads as nil, and nothing may follow the value. */
  function ParseText(text: string): Result<Data, EdnError> {
    var toks := Tokenize(text);
    if toks == [] then Ok(Atom(Nil))
    else
      var (value, rest) :- ParseValue(toks);
      if rest == [] then Ok(value) else Err(TrailingInput)
  }

  ghost predicate Parses(spec: Result<(Data, seq<string>), EdnError>, r: Result<Data, EdnError>, rest: seq<string>) {
    match spec
    case Ok((data, left)) => r == Ok(data) && rest == left
    case Err(e) => r == Err(e)
  }

  class Parser {
    const toks: seq<string>
    var i: nat

    constructor (toks: seq<string>)
      ensures this.toks == toks && i == 0
    {
      this.toks := toks;
      i := 0;
    }

    predicate Valid()
      reads this
    {
      i <= |toks|
    }

    function Rest(): seq<string>
      reads this
      requires Valid()
    {
      toks[i..]
    }

    method Parse() returns (r: Result<Data, EdnError>)
      requires Valid()
      modifies this`i
      ensures Valid() && Parses(ParseValue(old(Rest())), r, Rest())
      decreases |Rest()|, 0
    {
      hide AtomOf;
      if i == |toks| {
        return Err(UnexpectedEnd);
      }
      var t := toks[i];
      assert Rest()[1..] == toks[i + 1..];
      i := i + 1;
      if t == "(" {
        r := Sequence(")");
      } else if t == "[" {
        r := Sequence("]");
      } else if t == "{" {
        r := Mapping();
      } else {
        r := Ok(Atom(AtomOf(t)));
      }
    }

    method Sequence(close: string) returns (r: Result<Data, EdnError>)
      requires Valid()
      modifies this`i
      ensures Valid() && Parses(ParseSeq(old(Rest()), close, []), r, Rest())
      decreases |Rest()|, 1
    {
      var items: seq<Data> := [];
      ghost var s := Rest();
      while true
        invariant Valid() && ParseSeq(s, close, []) == ParseSeq(Rest(), close, items) && |Rest()| <= |s|
        decreases |Rest()|
      {
        if i < |toks| && toks[i] == close {
          assert Rest()[1..] == toks[i + 1..];
          i := i + 1;
          return Ok(Items(items));
        }
        if i == |toks| {
          return Err(MissingClose);
        }
        var item :- Parse();
        items := items + [item];
      }
    }

    method Mapping() returns (r: Result<Data, EdnError>)
      requires Valid()
      modifies this`i
      ensures Valid() && Parses(ParseMap(old(Rest()), map[]), r, Rest())
      decreases |Rest()|, 1
    {
      var entries: map<Scalar, Data> := map[];
      ghost var s := Rest();
      while true
        invariant Valid() && ParseMap(s, map[]) == ParseMap(Rest(), entries) && |Rest()| <= |s|
        decreases |Rest()|
      {
        if i < |toks| && toks[i] == "}" {
          assert Rest()[1..] == toks[i + 1..];
          i := i + 1;
          return Ok(Dict(entries));
        }
        if i == |toks| {
          return Err(MissingClose);
        }
        var key :- Parse();
        var value :- Parse();
        if !key.Atom? {
          return Err(Unhashable);
        }
        entries := entries[key.a := value];
      }
    }
  }

  method ParseEdn(text: string) returns (r: Result<Data, EdnError>)
    ensures r == ParseText(text)
  {
    hide Tokenize, ParseValue;
    var toks := TokenizeText(text);
    var parser := new Parser(toks);
    if toks == [] {
      return Ok(Atom(Nil));
    }
    assert toks[0..] == toks;
    var value :- parser.Parse();
    if parser.i != |toks| {
      return Err(TrailingInput);
    }
    return Ok(value);
  }
}
