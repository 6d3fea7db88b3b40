/**
 The Merkle-Patricia proof walk of `verify_indexed_trie_proof`.

 `NodeStep` and `Walk` specify the walk, `VerifyIndexedTrieProof` runs it with the source's loop,
 and `IndexedProofBinding` says that a root and an index determine the proven value.
 */
module TrieProof {
  import opened Basics
  import opened BigEndian
  import opened Rlp
  import opened HexPrefix
  import opened InclusionErrors

  const MAX_STEPS := 128

  /** Two different byte strings, one from each list, with equal hash. */
  ghost predicate Collision(keccak: Hash, a: seq<Bytes>, b: seq<Bytes>) {
    exists p, q :: p in a && q in b && p != q && keccak(p) == keccak(q)
  }

  /** What one node says: the proven value, or where to go next. */
  datatype Step = Done(value: Bytes) | Next(ref: Bytes, remaining: seq<Nibble>)

  /** How a node refers to a child: an encoded list when inlined, the stored bytes otherwise. */
  function Reference(child: Item): Option<Bytes> {
    match child
    case Str(b) => Some(b)
    case List(_) => Encode(child)
  }

  /** The next node's bytes and the unused proof nodes. */
  function Fetch(keccak: Hash, ref: Bytes, nodes: seq<Bytes>): (r: Result<(Bytes, seq<Bytes>), InclusionError>)
    ensures r.Ok? && |ref| == 32 ==> nodes != [] && r.value == (nodes[0], nodes[1..]) && keccak(nodes[0]) == ref
    ensures r.Ok? && |ref| != 32 ==> r.value.0 == ref
  {
    if |ref| == 32 then
      if nodes == [] then Err(ProofEndedEarly)
      else if keccak(nodes[0]) != ref then Err(NodeHashMismatch)
      else Ok((nodes[0], nodes[1..]))
    else if |ref| < 32 then
      Ok((ref, if nodes != [] && nodes[0] == ref then nodes[1..] else nodes))
    else
      Err(InvalidReferenceWidth)
  }

  /** One node read with `remaining` nibbles to go; `exhausted` says that no proof node is left. */
  function NodeStep(raw: Bytes, remaining: seq<Nibble>, exhausted: bool): Result<Step, InclusionError> {
    match Decode(raw)
    case None => Err(MalformedNode)
    case Some(node) =>
      if Encode(node) != Some(raw) then Err(NonCanonicalNode)
      else if node.Str? then Err(NodeNotAList)
      else if |node.items| == 17 then BranchStep(node.items, remaining, exhausted)
      else if |node.items| != 2 || node.items[0].List? then Err(NodeNeitherBranchNorPair)
      else PairStep(node.items, remaining, exhausted)
  }

  function BranchStep(items: seq<Item>, remaining: seq<Nibble>, exhausted: bool): Result<Step, InclusionError>
    requires |items| == 17
  {
    if remaining == [] then
      if items[16].List? || !exhausted then Err(InvalidBranchValueOrUnusedNodes) else Ok(Done(items[16].bytes))
    else
      match Reference(items[remaining[0]])
      case None => Err(NonCanonicalNode)
      case Some(ref) => if ref == [] then Err(EmptyTrieBranch) else Ok(Next(ref, remaining[1..]))
  }

  function PairStep(items: seq<Item>, remaining: seq<Nibble>, exhausted: bool): Result<Step, InclusionError>
    requires |items| == 2 && items[0].Str?
  {
    var (segment, leaf) :- CompactPath(items[0].bytes);
    if !(segment <= remaining) then
      Err(PathMismatch)
    else
      var rest := remaining[|segment|..];
      if leaf then
        if rest != [] || items[1].List? || !exhausted then Err(InvalidLeafOrUnusedNodes) else Ok(Done(items[1].bytes))
      else
        match Reference(items[1])
        case None => Err(NonCanonicalNode)
        case Some(ref) => if ref == [] then Err(EmptyExtensionReference) else Ok(Next(ref, rest))
  }

  /** The walk from reference `ref` with at most `steps` nodes left to read. */
  function Walk(keccak: Hash, ref: Bytes, remaining: seq<Nibble>, nodes: seq<Bytes>, steps: nat)
    : Result<Bytes, InclusionError>
    decreases steps
  {
    if steps == 0 then
      Err(ProofTooDeep)
    else
      var (raw, rest) :- Fetch(keccak, ref, nodes);
      var step :- NodeStep(raw, remaining, rest == []);
      match step
      case Done(value) => Ok(value)
      case Next(next, left) => Walk(keccak, next, left, rest, steps - 1)
  }

  /** The key of the trie entry at `index`: the nibbles of RLP(index). */
  function IndexKey(index: nat): Option<seq<Nibble>> {
    var raw :- Encode(Str(IntBytes(index)));
    Some(Nibbles(raw))
  }

  function ProvenValue(keccak: Hash, root: Bytes, index: int, nodes: seq<Bytes>): Result<Bytes, InclusionError> {
    if |root| != 32 || index < 0 || nodes == [] then
      Err(InvalidProofArguments)
    else
      match IndexKey(index)
      case None => Err(IntegerTooLarge)
      case Some(key) => Walk(keccak, root, key, nodes, MAX_STEPS)
  }

  /** The part of the loop body that reads a fetched node. */
  method ReadNode(raw: Bytes, remaining: seq<Nibble>, exhausted: bool) returns (r: Result<Step, InclusionError>)
    ensures r == NodeStep(raw, remaining, exhausted)
  {
    hide Encode, Decode, CompactPath;
    var node := Decode(raw);
    if node.None? {
      return Err(MalformedNode);
    }
    if Encode(node.value) != Some(raw) {
      return Err(NonCanonicalNode);
    }
    if node.value.Str? {
      return Err(NodeNotAList);
    }
    var items := node.value.items;
    if |items| == 17 {
      if remaining == [] {
        if items[16].List? || !exhausted {
          return Err(InvalidBranchValueOrUnusedNodes);
        }
        return Ok(Done(items[16].bytes));
      }
      var child := Reference(items[remaining[0]]);
      if child.None? {
        return Err(NonCanonicalNode);
      }
      if child.value == [] {
        return Err(EmptyTrieBranch);
      }
      return Ok(Next(child.value, remaining[1..]));
    }
    if |items| != 2 || items[0].List? {
      return Err(NodeNeitherBranchNorPair);
    }
    var path := CompactPath(items[0].bytes);
    if path.Err? {
      return Err(path.error);
    }
    var (segment, isLeaf) := path.value;
    if !(segment <= remaining) {
      return Err(PathMismatch);
    }
    var rest := remaining[|segment|..];
    if isLeaf {
      if rest != [] || items[1].List? || !exhausted {
        return Err(InvalidLeafOrUnusedNodes);
      }
      return Ok(Done(items[1].bytes));
    }
    var child := Reference(items[1]);
    if child.None? {
      return Err(NonCanonicalNode);
    }
    if child.value == [] {
      return Err(EmptyExtensionReference);
    }
    return Ok(Next(child.value, rest));
  }

  method VerifyIndexedTrieProof(keccak: Hash, root: Bytes, index: int, nodes: seq<Bytes>)
    returns (r: Result<Bytes, InclusionError>)
    ensures r == ProvenValue(keccak, root, index, nodes)
  {
    hide Encode, NodeStep, IntBytes, Nibbles;
    if |root| != 32 || index < 0 || nodes == [] {
      return Err(InvalidProofArguments);
    }
    var encodedIndex := Encode(Str(IntBytes(index)));
    if encodedIndex.None? {
      return Err(IntegerTooLarge);
    }
    var remaining := Nibbles(encodedIndex.value);
    var expectedRef := root;
    var cursor, steps := 0, 0;
    while steps < MAX_STEPS
      invariant 0 <= cursor <= |nodes| && 0 <= steps <= MAX_STEPS
      invariant ProvenValue(keccak, root, index, nodes)
             == Walk(keccak, expectedRef, remaining, nodes[cursor..], MAX_STEPS - steps)
    {
      ghost var left := nodes[cursor..];
      assert left != [] ==> left[1..] == nodes[cursor + 1..] && left[0] == nodes[cursor];
      steps := steps + 1;
      var nodeRaw;
      if |expectedRef| == 32 {
        if cursor >= |nodes| {
          return Err(ProofEndedEarly);
        }
        nodeRaw := nodes[cursor];
        cursor := cursor + 1;
        if keccak(nodeRaw) != expectedRef {
          return Err(NodeHashMismatch);
        }
      } else if |expectedRef| < 32 {
        nodeRaw := expectedRef;
        if cursor < |nodes| && nodes[cursor] == nodeRaw {
          cursor := cursor + 1;
        }
      } else {
        return Err(InvalidReferenceWidth);
      }
      assert Fetch(keccak, expectedRef, left) == Ok((nodeRaw, nodes[cursor..]));
      var step :- ReadNode(nodeRaw, remaining, cursor == |nodes|);
      match step
      case Done(value) => return Ok(value);
      case Next(ref, rest) => expectedRef, remaining := ref, rest;
    }
    return Err(ProofTooDeep);
  }

  // ----- what a proof pins down

  /** Whether proof nodes are left decides if a node is accepted, not what it says. */
  lemma {:induction false} NodeStepDeterministic(raw: Bytes, remaining: seq<Nibble>, e: bool, f: bool)
    requires NodeStep(raw, remaining, e).Ok? && NodeStep(raw, remaining, f).Ok?
    ensures NodeStep(raw, remaining, e) == NodeStep(raw, remaining, f)
  {
    hide Encode, Decode, CompactPath;
  }

  /** Two accepted walks from one reference along one path prove the same value, or collide. */
  lemma {:induction false} WalkBinding(keccak: Hash, ref: Bytes, remaining: seq<Nibble>,
                                       a: seq<Bytes>, b: seq<Bytes>, steps: nat)
    requires Walk(keccak, ref, remaining, a, steps).Ok?
    requires Walk(keccak, ref, remaining, b, steps).Ok?
    ensures Walk(keccak, ref, remaining, a, steps) == Walk(keccak, ref, remaining, b, steps)
         || Collision(keccak, a, b)
    decreases steps
  {
    hide NodeStep;
    var (rawA, restA) := Fetch(keccak, ref, a).value;
    var (rawB, restB) := Fetch(keccak, ref, b).value;
    if rawA != rawB {
      assert rawA in a && rawB in b && keccak(rawA) == keccak(rawB);
    } else {
      var stepA := NodeStep(rawA, remaining, restA == []).value;
      var stepB := NodeStep(rawA, remaining, restB == []).value;
      NodeStepDeterministic(rawA, remaining, restA == [], restB == []);
      if stepA.Next? {
        WalkBinding(keccak, stepA.ref, stepA.remaining, restA, restB, steps - 1);
        if Collision(keccak, restA, restB) {
          var p, q :| p in restA && q in restB && p != q && keccak(p) == keccak(q);
          assert p in a && q in b;
        }
      }
    }
  }

  /** One root and one index have one proven value, whatever the proofs, unless the hash collides. */
  lemma {:induction false} IndexedProofBinding(keccak: Hash, root: Bytes, index: int, a: seq<Bytes>, b: seq<Bytes>)
    requires ProvenValue(keccak, root, index, a).Ok?
    requires ProvenValue(keccak, root, index, b).Ok?
    ensures ProvenValue(keccak, root, index, a) == ProvenValue(keccak, root, index, b) || Collision(keccak, a, b)
  {
    WalkBinding(keccak, root, IndexKey(index).value, a, b, MAX_STEPS);
  }

  /** The key of an index, packed into bytes, is the canonical integer encoding of that index. */
  lemma {:induction false} IndexKeyDecodes(index: nat)
    ensures IndexKey(index).Some? <==> |IntBytes(index)| < TWO_TO_THE_64
    ensures IndexKey(index).Some? ==>
              && |IndexKey(index).value| % 2 == 0
              && exists b ::
                   Decode(Pack(IndexKey(index).value)) == Some(Str(b)) && Canonical(b) && FromBytes(b) == index
  {
    hide Decode, Encode, IntBytes, Nibbles, Pack;
    var b := IntBytes(index);
    EncodableString(b);
    if IndexKey(index).Some? {
      var raw := Encode(Str(b)).value;
      NibblesPrefix(Pack(Nibbles(raw)), raw);
      NibblesPrefix(raw, Pack(Nibbles(raw)));
      assert Pack(Nibbles(raw)) == raw;
      Canonicity(raw, Str(b));
    }
  }

  lemma {:induction false} EncodableString(b: Bytes)
    ensures Encode(Str(b)).Some? <==> |b| < TWO_TO_THE_64
  {
  }

  /** Different indices have keys of which neither is a prefix of the other. */
  lemma {:induction false} IndexKeysPrefixFree(i: nat, j: nat)
    requires IndexKey(i).Some? && IndexKey(j).Some?
    requires IndexKey(i).value <= IndexKey(j).value
    ensures i == j
  {
    hide Encode, Nibbles, IntBytes;
    var a, b := Encode(Str(IntBytes(i))).value, Encode(Str(IntBytes(j))).value;
    NibblesPrefix(a, b);
    assert a + b[|a|..] == b + [];
    PrefixFree(Str(IntBytes(i)), Str(IntBytes(j)), b[|a|..], []);
  }
}
