/** Values read from EDN texts, and the printed form that both readers are meant for. */
module EdnData {
  import opened Decimals
  import opened Whitespace

  /** A scalar Python value; only scalars can be dict keys or set members. */
  datatype Scalar = Nil | Bool(b: bool) | Int(n: int) | Float(text: string) | Str(s: string)

  datatype Data =
    | Atom(a: Scalar)
    | Items(items: seq<Data>)
    | Dict(entries: map<Scalar, Data>)
    | Members(members: set<Scalar>)

  datatype EdnError =
    | UnexpectedEnd | UnsupportedDispatch | UnterminatedString | MalformedKeyword | UnexpectedCharacter
    | Unhashable | MissingClose | TrailingInput

  // ----- the printed subset

  /** Scalars that are printed: integers, strings and keywords. */
  datatype Literal = IntLit(n: int) | StrLit(s: string) | KeyLit(name: string)

  datatype Value = Lit(lit: Literal) | Vec(values: seq<Value>) | Map(pairs: seq<Pair>)

  datatype Pair = Pair(key: Literal, value: Value)

  /** A character that ends no token in either reader. */
  predicate IsNameChar(c: char) {
    !IsSpace(c) && c !in "[]{}#\"(),;"
  }

  predicate ValidLiteral(l: Literal) {
    l.KeyLit? ==> l.name != [] && forall i :: 0 <= i < |l.name| ==> IsNameChar(l.name[i])
  }

  /** Keywords in the value are printable. */
  predicate ValidValue(v: Value) {
    match v
    case Lit(l) => ValidLiteral(l)
    case Vec(values) => forall x :: x in values ==> ValidValue(x)
    case Map(pairs) => forall p :: p in pairs ==> ValidLiteral(p.key) && ValidValue(p.value)
  }

  /** Readers keep a keyword as a string with its colon. */
  function DenoteLiteral(l: Literal): Scalar {
    match l
    case IntLit(n) => Int(n)
    case StrLit(s) => Str(s)
    case KeyLit(name) => Str([':'] + name)
  }

  /** The data a printed value stands for; of two pairs with one key the later one counts. */
  function Denote(v: Value): Data {
    match v
    case Lit(l) => Atom(DenoteLiteral(l))
    case Vec(values) => Items(DenoteAll(values))
    case Map(pairs) => Dict(DenotePairs(map[], pairs))
  }

  function DenoteAll(values: seq<Value>): seq<Data> {
    if values == [] then [] else [Denote(values[0])] + DenoteAll(values[1..])
  }

  function DenotePair(p: Pair): Data {
    Denote(p.value)
  }

  function DenotePairs(entries: map<Scalar, Data>, pairs: seq<Pair>): map<Scalar, Data>
    decreases pairs
  {
    if pairs == [] then entries
    else DenotePairs(entries[DenoteLiteral(pairs[0].key) := DenotePair(pairs[0])], pairs[1..])
  }

  // ----- tokens

  datatype Token = Word(lit: Literal) | Bracket(c: char)

  function Tokens(v: Value): (toks: seq<Token>)
    ensures toks != []
  {
    match v
    case Lit(l) => [Word(l)]
    case Vec(values) => [Bracket('[')] + TokensAll(values) + [Bracket(']')]
    case Map(pairs) => [Bracket('{')] + TokensPairs(pairs) + [Bracket('}')]
  }

  function TokensAll(values: seq<Value>): seq<Token> {
    if values == [] then [] else Tokens(values[0]) + TokensAll(values[1..])
  }

  function TokensPair(p: Pair): seq<Token> {
    [Word(p.key)] + Tokens(p.value)
  }

  function TokensPairs(pairs: seq<Pair>): seq<Token> {
    if pairs == [] then [] else TokensPair(pairs[0]) + TokensPairs(pairs[1..])
  }

  function Escaped(s: string): string {
    if s == [] then []
    else (if s[0] == '"' || s[0] == '\\' then ['\\', s[0]] else [s[0]]) + Escaped(s[1..])
  }

  function Spell(t: Token): string {
    match t
    case Bracket(c) => [c]
    case Word(IntLit(n)) => Decimal(n)
    case Word(StrLit(s)) => ['"'] + Escaped(s) + ['"']
    case Word(KeyLit(name)) => [':'] + name
  }
}
