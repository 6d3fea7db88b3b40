/**
 The conformance EDN reader, `scripts/edn.py`: a recursive descent over a moving position.

 The specification functions read the rest of the text; the class moves `pos` through it. At an
 unclosed collection the source steps past the end of the text; nothing is left to read from there on.
 */
module EdnReader {
  import opened Basics
  import opened Whitespace
  import opened Decimals
  import opened EdnData

  // ----- what is read

  /** `_skip`: whitespace and comments. A comment stops before its newline, which is whitespace. */
  function Skip(s: string): (r: string)
    ensures |r| <= |s|
    ensures r != [] ==> !IsSpace(r[0]) && r[0] != ';'
    decreases |s|
  {
    if s == [] then s
    else if IsSpace(s[0]) then Skip(s[1..])
    else if s[0] == ';' then Skip(ToNewline(s))
    else s
  }

  function ToNewline(s: string): (r: string)
    ensures |r| <= |s|
    ensures s != [] && s[0] != '\n' ==> |r| < |s|
  {
    if s == [] || s[0] == '\n' then s else ToNewline(s[1..])
  }

  /** A character of the token pattern. */
  predicate IsTokenChar(c: char) {
    !IsSpace(c) && c !in "[]{}#\"(),"
  }

  function TokenLength(s: string): (n: nat)
    ensures n <= |s|
    ensures n > 0 <==> s != [] && IsTokenChar(s[0])
  {
    if s == [] || !IsTokenChar(s[0]) then 0 else 1 + TokenLength(s[1..])
  }

  /** The rest of a string literal: its characters, and what follows the closing quote. */
  function ReadString(s: string): (r: Result<(string, string), EdnError>)
    ensures r.Ok? ==> |r.value.1| < |s|
    decreases |s|
  {
    if s == [] then Err(UnterminatedString)
    else if s[0] == '"' then Ok(([], s[1..]))
    else
      var escaped := s[0] == '\\' && |s| > 1;
      var rest :- ReadString(if escaped then s[2..] else s[1..]);
      Ok(([if escaped then s[1] else s[0]] + rest.0, rest.1))
  }

  /** `value`: the first value and what follows it. Every value takes up at least one character. */
  function ReadValue(s: string): (r: Result<(Data, string), EdnError>)
    ensures r.Ok? ==> |r.value.1| < |s|
    decreases |s|, 0
  {
    var t := Skip(s);
    if t == [] then Err(UnexpectedEnd)
    else if t[0] == '{' then ReadMap(t[1..], map[])
    else if t[0] == '[' then ReadVector(t[1..], [])
    else if t[0] == '#' then
      if |t| == 1 || t[1] != '{' then Err(UnsupportedDispatch) else ReadSet(t[2..], {})
    else if t[0] == '"' then
      var (text, rest) :- ReadString(t[1..]);
      Ok((Atom(Str(text)), rest))
    else if t[0] == ':' then ReadKeyword(t)
    else ReadSymbol(t)
  }

  /** A keyword is kept as a string, with its colon. */
  function ReadKeyword(t: string): (r: Result<(Data, string), EdnError>)
    requires t != []
    ensures r.Ok? ==> |r.value.1| < |t|
  {
    var n := TokenLength(t[1..]);
    if n == 0 then Err(MalformedKeyword) else Ok((Atom(Str([t[0]] + t[1..][..n])), t[1..][n..]))
  }

  /** Any other token: an integer if Python reads it as one, the token itself otherwise. */
  function ReadSymbol(t: string): (r: Result<(Data, string), EdnError>)
    ensures r.Ok? ==> |r.value.1| < |t|
  {
    var n := TokenLength(t);
    if n == 0 then Err(UnexpectedCharacter)
    else
      var number := ReadInt(t[..n]);
      Ok((Atom(if number.Some? then Int(number.value) else Str(t[..n])), t[n..]))
  }

  function ReadMap(s: string, entries: map<Scalar, Data>): (r: Result<(Data, string), EdnError>)
    ensures r.Ok? ==> |r.value.1| <= |s|
    decreases |s|, 1
  {
    var t := Skip(s);
    if t == [] then Ok((Dict(entries), t))
    else if t[0] == '}' then Ok((Dict(entries), t[1..]))
    else
      var (key, afterKey) :- ReadValue(t);
      var (value, rest) :- ReadValue(afterKey);
      if !key.Atom? then Err(Unhashable) else ReadMap(rest, entries[key.a := value])
  }

  function ReadVector(s: string, items: seq<Data>): (r: Result<(Data, string), EdnError>)
    ensures r.Ok? ==> |r.value.1| <= |s|
    decreases |s|, 1
  {
    var t := Skip(s);
    if t == [] then Ok((Items(items), t))
    else if t[0] == ']' then Ok((Items(items), t[1..]))
    else
      var (item, rest) :- ReadValue(t);
      ReadVector(rest, items + [item])
  }

  function ReadSet(s: string, members: set<Scalar>): (r: Result<(Data, string), EdnError>)
    ensures r.Ok? ==> |r.value.1| <= |s|
    decreases |s|, 1
  {
    var t := Skip(s);
    if t == [] then Ok((Members(members), t))
    else if t[0] == '}' then Ok((Members(members), t[1..]))
    else
      var (member, rest) :- ReadValue(t);
      if !member.Atom? then Err(Unhashable) else ReadSet(rest, members + {member.a})
  }

  // ----- the reader

  class Reader {
    const text: string
    var pos: nat

    constructor (text: string)
      ensures this.text == text && pos == 0
    {
      this.text := text;
      pos := 0;
    }

    /** The text from the current position on. */
    function Rest(): (r: string)
      reads this
    {
      if pos <= |text| then text[pos..] else []
    }

    method SkipBlank()
      modifies this`pos
      ensures Rest() == Skip(old(Rest())) && pos >= old(pos)
    {
      while pos < |text|
        invariant Skip(Rest()) == Skip(old(Rest())) && pos >= old(pos)
        decreases |text| - pos
      {
        var c := text[pos];
        ghost var s := Rest();
        assert s[0] == c && s[1..] == text[pos + 1..];
        if IsSpace(c) {
          pos := pos + 1;
        } else if c == ';' {
          SkipComment();
        } else {
          break;
        }
      }
    }

    method SkipComment()
      requires pos < |text| && text[pos] == ';'
      modifies this`pos
      ensures Rest() == ToNewline(old(Rest())) && old(pos) < pos <= |text|
    {
      ghost var s := Rest();
      while pos < |text| && text[pos] != '\n'
        invariant old(pos) <= pos <= |text|
        invariant ToNewline(Rest()) == ToNewline(s)
      {
        assert Rest()[1..] == text[pos + 1..];
        pos := pos + 1;
      }
    }

    /** `_TOKEN_RE.match`: the length of the token at the current position. */
    method MatchToken() returns (n: nat)
      ensures n == TokenLength(Rest())
    {
      var end := pos;
      ghost var s := Rest();
      n := 0;
      while end < |text| && IsTokenChar(text[end])
        invariant end == pos + n && n <= |s|
        invariant TokenLength(s) == n + TokenLength(s[n..])
        decreases |text| - end
      {
        assert s[n..][1..] == s[n + 1..];
        end, n := end + 1, n + 1;
      }
    }

    /** The string branch, after the opening quote. */
    method StringLiteral() returns (r: Result<string, EdnError>)
      modifies this`pos
      ensures match ReadString(old(Rest()))
              case Ok((text, rest)) => r == Ok(text) && Rest() == rest
              case Err(e) => r == Err(e)
    {
      hide ReadString, Prepend;
      var buffer: string := [];
      ghost var s := Rest();
      StringStart(s);
      while pos < |text| && text[pos] != '"'
        invariant ReadString(s) == Prepend(buffer, ReadString(Rest()))
        decreases |text| - pos
      {
        StringStep(Rest(), buffer);
        assert Rest()[1..] == text[pos + 1..];
        assert |Rest()| > 1 ==> Rest()[2..] == text[pos + 2..];
        if text[pos] == '\\' && pos + 1 < |text| {
          pos := pos + 1;
        }
        buffer := buffer + [text[pos]];
        pos := pos + 1;
      }
      StringEnd(Rest(), buffer);
      if pos >= |text| {
        return Err(UnterminatedString);
      }
      assert Rest()[1..] == text[pos + 1..];
      pos := pos + 1;
      return Ok(buffer);
    }

    /** `value`. */
    method Value() returns (r: Result<Data, EdnError>)
      modifies this`pos
      ensures Follows(ReadValue(old(Rest())), r, Rest())
      decreases |Rest()|, 0
    {
      hide Skip, ReadMap, ReadVector, ReadSet, ReadString, ReadKeyword, ReadSymbol;
      SkipBlank();
      ghost var t := Rest();
      if pos >= |text| {
        return Err(UnexpectedEnd);
      }
      var c := text[pos];
      assert t[1..] == text[pos + 1..];
      if c == '{' {
        pos := pos + 1;
        r := MapLiteral();
      } else if c == '[' {
        pos := pos + 1;
        r := VectorLiteral();
      } else if c == '#' {
        pos := pos + 1;
        if pos >= |text| || text[pos] != '{' {
          return Err(UnsupportedDispatch);
        }
        pos := pos + 1;
        assert t[2..] == text[pos..];
        r := SetLiteral();
      } else if c == '"' {
        pos := pos + 1;
        var text :- StringLiteral();
        return Ok(Atom(Str(text)));
      } else if c == ':' {
        r := Keyword();
      } else {
        r := Symbol();
      }
    }

    method Keyword() returns (r: Result<Data, EdnError>)
      requires pos < |text|
      modifies this`pos
      ensures Follows(ReadKeyword(old(Rest())), r, Rest())
    {
      hide TokenLength;
      assert Rest()[1..] == text[pos + 1..];
      pos := pos + 1;
      var n := MatchToken();
      if n == 0 {
        return Err(MalformedKeyword);
      }
      r := Ok(Atom(Str([text[pos - 1]] + text[pos..pos + n])));
      assert Rest()[..n] == text[pos..pos + n] && Rest()[n..] == text[pos + n..];
      pos := pos + n;
    }

    method Symbol() returns (r: Result<Data, EdnError>)
      modifies this`pos
      ensures Follows(ReadSymbol(old(Rest())), r, Rest())
    {
      hide TokenLength, ReadInt;
      var n := MatchToken();
      if n == 0 {
        return Err(UnexpectedCharacter);
      }
      assert Rest()[..n] == text[pos..pos + n] && Rest()[n..] == text[pos + n..];
      var token := text[pos..pos + n];
      var number := ReadInt(token);
      pos := pos + n;
      return Ok(Atom(if number.Some? then Int(number.value) else Str(token)));
    }

    /** The map branch, after the opening brace. */
    method MapLiteral() returns (r: Result<Data, EdnError>)
      modifies this`pos
      ensures Follows(ReadMap(old(Rest()), map[]), r, Rest())
      decreases |Rest()|, 1
    {
      var entries: map<Scalar, Data> := map[];
      ghost var s := Rest();
      while true
        invariant ReadMap(s, map[]) == ReadMap(Rest(), entries) && |Rest()| <= |s|
        decreases |Rest()|
      {
        SkipBlank();
        if pos >= |text| || text[pos] == '}' {
          assert pos < |text| ==> Rest()[1..] == text[pos + 1..];
          pos := pos + 1;
          return Ok(Dict(entries));
        }
        var key :- Value();
        var value :- Value();
        if !key.Atom? {
          return Err(Unhashable);
        }
        entries := entries[key.a := value];
      }
    }

    /** The vector branch, after the opening bracket. */
    method VectorLiteral() returns (r: Result<Data, EdnError>)
      modifies this`pos
      ensures Follows(ReadVector(old(Rest()), []), r, Rest())
      decreases |Rest()|, 1
    {
      var items: seq<Data> := [];
      ghost var s := Rest();
      while true
        invariant ReadVector(s, []) == ReadVector(Rest(), items) && |Rest()| <= |s|
        decreases |Rest()|
      {
        SkipBlank();
        if pos >= |text| || text[pos] == ']' {
          assert pos < |text| ==> Rest()[1..] == text[pos + 1..];
          pos := pos + 1;
          return Ok(Items(items));
        }
        var item :- Value();
        items := items + [item];
      }
    }

    /** The set branch, after `#{`. */
    method SetLiteral() returns (r: Result<Data, EdnError>)
      modifies this`pos
      ensures Follows(ReadSet(old(Rest()), {}), r, Rest())
      decreases |Rest()|, 1
    {
      var members: set<Scalar> := {};
      ghost var s := Rest();
      while true
        invariant ReadSet(s, {}) == ReadSet(Rest(), members) && |Rest()| <= |s|
        decreases |Rest()|
      {
        SkipBlank();
        if pos >= |text| || text[pos] == '}' {
          assert pos < |text| ==> Rest()[1..] == text[pos + 1..];
          pos := pos + 1;
          return Ok(Members(members));
        }
        var member :- Value();
        if !member.Atom? {
          return Err(Unhashable);
        }
        members := members + {member.a};
      }
    }
  }

  /** `r` and the text left over are what the specification says. */
  ghost predicate Follows(spec: Result<(Data, string), EdnError>, r: Result<Data, EdnError>, rest: string) {
    match spec
    case Ok((data, left)) => r == Ok(data) && rest == left
    case Err(e) => r == Err(e)
  }

  function Prepend(buffer: string, r: Result<(string, string), EdnError>): Result<(string, string), EdnError> {
    match r
    case Ok((text, rest)) => Ok((buffer + text, rest))
    case Err(e) => Err(e)
  }

  lemma {:induction false} StringStart(s: string)
    ensures Prepend([], ReadString(s)) == ReadString(s)
  {
    if ReadString(s).Ok? {
      assert [] + ReadString(s).value.0 == ReadString(s).value.0;
    }
  }

  lemma {:induction false} StringStep(s: string, buffer: string)
    requires s != [] && s[0] != '"'
    ensures var escaped := s[0] == '\\' && |s| > 1;
            Prepend(buffer, ReadString(s))
            == Prepend(buffer + [if escaped then s[1] else s[0]], ReadString(if escaped then s[2..] else s[1..]))
  {
    var escaped := s[0] == '\\' && |s| > 1;
    var c := if escaped then s[1] else s[0];
    var r := ReadString(if escaped then s[2..] else s[1..]);
    if r.Ok? {
      assert buffer + ([c] + r.value.0) == buffer + [c] + r.value.0;
    }
  }

  lemma {:induction false} StringEnd(s: string, buffer: string)
    requires s == [] || s[0] == '"'
    ensures Prepend(buffer, ReadString(s)) == if s == [] then Err(UnterminatedString) else Ok((buffer, s[1..]))
  {
    assert buffer + [] == buffer;
  }

  /** `parse_edn`: the first value of the text. */
  method ParseEdn(text: string) returns (r: Result<Data, EdnError>)
    ensures match ReadValue(text)
            case Ok((data, _)) => r == Ok(data)
            case Err(e) => r == Err(e)
  {
    var reader := new Reader(text);
    assert reader.Rest() == text;
    r := reader.Value();
  }
}
