/**
 The tries that proofs speak about, after Appendix D of the Ethereum Yellow Paper, the proofs an
 honest prover builds for them, and the exact set of proofs the verifier accepts.
 */
module Trie {
  import opened Basics
  import opened Rlp
  import opened HexPrefix
  import opened InclusionErrors
  import opened TrieProof

  datatype Trie =
    | Empty
    | Leaf(path: seq<Nibble>, value: Bytes)
    | Extension(path: seq<Nibble>, child: Trie)
    | Branch(children: seq<Trie>, value: Bytes)

  // ----- the trie as a finite map

  /** The value stored at `key`; the empty string when there is none. */
  function Lookup(t: Trie, key: seq<Nibble>): Bytes {
    match t
    case Empty => []
    case Leaf(path, value) => if key == path then value else []
    case Extension(path, child) => if path <= key then Lookup(child, key[|path|..]) else []
    case Branch(children, value) =>
      if key == [] then value
      else if key[0] < |children| then Lookup(children[key[0]], key[1..])
      else []
  }

  /** The path `key` ends at a leaf or at a branch, not at a mismatch or an empty child. */
  predicate HasPath(t: Trie, key: seq<Nibble>) {
    match t
    case Empty => false
    case Leaf(path, value) => key == path
    case Extension(path, child) => path <= key && HasPath(child, key[|path|..])
    case Branch(children, value) => key == [] || (key[0] < |children| && HasPath(children[key[0]], key[1..]))
  }

  /** The number of nodes on the path `key`. */
  function Depth(t: Trie, key: seq<Nibble>): nat
    requires HasPath(t, key)
  {
    match t
    case Leaf(_, _) => 1
    case Extension(path, child) => 1 + Depth(child, key[|path|..])
    case Branch(children, _) => if key == [] then 1 else 1 + Depth(children[key[0]], key[1..])
  }

  // ----- the trie as hashed nodes

  /** The node composition function c of Appendix D. */
  function Node(keccak: Hash, t: Trie): Item
    decreases t, 1
  {
    match t
    case Empty => Str([])
    case Leaf(path, value) => List([Str(Compact(path, true)), Str(value)])
    case Extension(path, child) => List([Str(Compact(path, false)), Cap(keccak, child)])
    case Branch(children, value) => List(Caps(keccak, children) + [Str(value)])
  }

  /** The node cap function n of Appendix D: short nodes are inlined, long ones are hashed. */
  function Cap(keccak: Hash, t: Trie): Item
    decreases t, 2
  {
    if t == Empty then
      Str([])
    else
      match Encode(Node(keccak, t))
      case Some(raw) => if |raw| < 32 then Node(keccak, t) else Str(keccak(raw))
      case None => Str([])
  }

  function Caps(keccak: Hash, ts: seq<Trie>): (items: seq<Item>)
    ensures |items| == |ts|
    ensures forall i :: 0 <= i < |ts| ==> items[i] == Cap(keccak, ts[i])
    decreases ts, 0
  {
    if ts == [] then [] else [Cap(keccak, ts[0])] + Caps(keccak, ts[1..])
  }

  /** Branches have sixteen children, extensions lead somewhere, and every node has an encoding. */
  predicate WellFormed(keccak: Hash, t: Trie) {
    && Encode(Node(keccak, t)).Some?
    && match t
       case Empty => true
       case Leaf(_, _) => true
       case Extension(_, child) => child != Empty && WellFormed(keccak, child)
       case Branch(children, _) => |children| == 16 && forall c :: c in children ==> WellFormed(keccak, c)
  }

  /** The encoding of the trie's top node. */
  function Raw(keccak: Hash, t: Trie): Bytes
    requires Encode(Node(keccak, t)).Some?
  {
    Encode(Node(keccak, t)).value
  }

  function Root(keccak: Hash, t: Trie): Bytes
    requires Encode(Node(keccak, t)).Some?
  {
    keccak(Raw(keccak, t))
  }

  // ----- honest proofs

  /** Encodings of the nodes met while following `key`, inlined ones included. */
  function PathNodes(keccak: Hash, t: Trie, key: seq<Nibble>): seq<Bytes>
    requires WellFormed(keccak, t)
    decreases t
  {
    [Raw(keccak, t)] +
    match t
    case Empty => []
    case Leaf(_, _) => []
    case Extension(path, child) => if path <= key then PathNodes(keccak, child, key[|path|..]) else []
    case Branch(children, _) => if key == [] then [] else PathNodes(keccak, children[key[0]], key[1..])
  }

  /**
   The proof for `key`: the nodes on its path that are referred to by hash, and of the inlined ones
   those that `repeated` asks for, level by level.
   */
  function Proof(keccak: Hash, t: Trie, key: seq<Nibble>, byHash: bool, repeated: seq<bool>): seq<Bytes>
    requires WellFormed(keccak, t) && HasPath(t, key)
    decreases t, 1
  {
    var here := if byHash || (repeated != [] && repeated[0]) then [Raw(keccak, t)] else [];
    here + ProofBelow(keccak, t, key, if repeated == [] then [] else repeated[1..])
  }

  function ProofBelow(keccak: Hash, t: Trie, key: seq<Nibble>, repeated: seq<bool>): seq<Bytes>
    requires WellFormed(keccak, t) && HasPath(t, key)
    decreases t, 0
  {
    match t
    case Leaf(_, _) => []
    case Extension(path, child) => Proof(keccak, child, key[|path|..], IsHashed(keccak, child), repeated)
    case Branch(children, _) =>
      if key == [] then []
      else
        var child := children[key[0]];
        Proof(keccak, child, key[1..], IsHashed(keccak, child), repeated)
  }

  /** The parent refers to `t` by hash. */
  predicate IsHashed(keccak: Hash, t: Trie)
    requires WellFormed(keccak, t)
  {
    |Raw(keccak, t)| >= 32
  }

  /** What the parent of `t` makes the walk expect. */
  function RefTo(keccak: Hash, t: Trie, byHash: bool): Bytes
    requires WellFormed(keccak, t)
  {
    if byHash then keccak(Raw(keccak, t)) else Raw(keccak, t)
  }

  // ----- one honest node

  lemma {:induction false} ReferenceOfCap(keccak: Hash, t: Trie)
    requires WellFormed(keccak, t) && t != Empty
    ensures Reference(Cap(keccak, t)) == Some(RefTo(keccak, t, IsHashed(keccak, t)))
    ensures RefTo(keccak, t, IsHashed(keccak, t)) != []
  {
    assert Node(keccak, t).List?;
    assert Raw(keccak, t) != [];
  }

  lemma {:induction false} ReadHonestNode(keccak: Hash, t: Trie)
    requires WellFormed(keccak, t)
    ensures Decode(Raw(keccak, t)) == Some(Node(keccak, t))
  {
    Canonicity(Raw(keccak, t), Node(keccak, t));
  }

  /** The step that the trie's structure calls for at its top node. */
  function TrieStep(keccak: Hash, t: Trie, key: seq<Nibble>, exhausted: bool): Result<Step, InclusionError>
    requires WellFormed(keccak, t)
  {
    match t
    case Empty => Err(NodeNotAList)
    case Leaf(path, value) =>
      if !(path <= key) then Err(PathMismatch)
      else if key != path || !exhausted then Err(InvalidLeafOrUnusedNodes)
      else Ok(Done(value))
    case Extension(path, child) =>
      if !(path <= key) then Err(PathMismatch)
      else Ok(Next(RefTo(keccak, child, IsHashed(keccak, child)), key[|path|..]))
    case Branch(children, value) =>
      if key == [] then
        if exhausted then Ok(Done(value)) else Err(InvalidBranchValueOrUnusedNodes)
      else
        var child := children[key[0]];
        if child == Empty then Err(EmptyTrieBranch)
        else Ok(Next(RefTo(keccak, child, IsHashed(keccak, child)), key[1..]))
  }

  lemma {:induction false} StepOfBranch(keccak: Hash, t: Trie, key: seq<Nibble>, exhausted: bool)
    requires WellFormed(keccak, t) && t.Branch?
    ensures BranchStep(Node(keccak, t).items, key, exhausted) == TrieStep(keccak, t, key, exhausted)
  {
    hide Encode;
    if key != [] {
      var child := t.children[key[0]];
      assert Node(keccak, t).items[key[0]] == Cap(keccak, child);
      if child != Empty {
        ReferenceOfCap(keccak, child);
        hide Reference, RefTo, Cap;
      }
    }
  }

  lemma {:induction false} StepOfPair(keccak: Hash, t: Trie, key: seq<Nibble>, exhausted: bool)
    requires WellFormed(keccak, t) && (t.Leaf? || t.Extension?)
    ensures PairStep(Node(keccak, t).items, key, exhausted) == TrieStep(keccak, t, key, exhausted)
  {
    hide Encode, Compact, CompactPath;
    CompactRoundTrip(t.path, t.Leaf?, Compact(t.path, t.Leaf?));
    if t.Leaf? {
      assert t.path <= key ==> (key[|t.path|..] == [] <==> key == t.path);
    } else {
      ReferenceOfCap(keccak, t.child);
    }
  }

  /** Reading an honest node makes the step that the trie's structure calls for. */
  lemma {:induction false} StepOfHonestNode(keccak: Hash, t: Trie, key: seq<Nibble>, exhausted: bool)
    requires WellFormed(keccak, t)
    ensures NodeStep(Raw(keccak, t), key, exhausted) == TrieStep(keccak, t, key, exhausted)
  {
    ReadHonestNode(keccak, t);
    if t.Branch? {
      StepOfBranch(keccak, t, key, exhausted);
    } else if t != Empty {
      StepOfPair(keccak, t, key, exhausted);
    }
    hide Encode, Decode, Compact, BranchStep, PairStep, Cap, Caps;
  }

  // ----- every accepted proof is an honest one

  /** A collision further down the path is a collision on the path. */
  lemma {:induction false} CollisionBelow(keccak: Hash, t: Trie, key: seq<Nibble>, child: Trie, rest: seq<Nibble>,
                       nodes: seq<Bytes>, unused: seq<Bytes>)
    requires WellFormed(keccak, t) && WellFormed(keccak, child)
    requires PathNodes(keccak, t, key) == [Raw(keccak, t)] + PathNodes(keccak, child, rest)
    requires forall p :: p in unused ==> p in nodes
    requires Collision(keccak, unused, PathNodes(keccak, child, rest))
    ensures Collision(keccak, nodes, PathNodes(keccak, t, key))
  {
    var p, q :| p in unused && q in PathNodes(keccak, child, rest) && p != q && keccak(p) == keccak(q);
    assert p in nodes && q in PathNodes(keccak, t, key);
  }

  /** A successful fetch yields the expected node, or a collision with it. */
  lemma {:induction false} FetchHonest(keccak: Hash, t: Trie, key: seq<Nibble>, byHash: bool,
                                       nodes: seq<Bytes>) returns (here: bool)
    requires WellFormed(keccak, t)
    requires byHash || |Raw(keccak, t)| < 32
    requires Fetch(keccak, RefTo(keccak, t, byHash), nodes).Ok?
    ensures var (raw, rest) := Fetch(keccak, RefTo(keccak, t, byHash), nodes).value;
            || Collision(keccak, nodes, PathNodes(keccak, t, key))
            || (&& raw == Raw(keccak, t)
                && nodes == (if byHash || here then [raw] else []) + rest)
  {
    hide Encode, Node;
    var (raw, rest) := Fetch(keccak, RefTo(keccak, t, byHash), nodes).value;
    here := rest != nodes;
    if byHash {
      assert nodes == [raw] + rest;
      assert raw in nodes && Raw(keccak, t) == PathNodes(keccak, t, key)[0];
    } else {
      assert rest == nodes || nodes == [raw] + rest;
    }
  }

  /** `nodes` is a proof an honest prover may send for `key`, and `r` is what it should prove. */
  predicate IsHonest(keccak: Hash, t: Trie, key: seq<Nibble>, byHash: bool, nodes: seq<Bytes>, steps: nat,
                     repeated: seq<bool>, r: Result<Bytes, InclusionError>)
    requires WellFormed(keccak, t)
  {
    && HasPath(t, key) && Depth(t, key) <= steps
    && nodes == Proof(keccak, t, key, byHash, repeated)
    && r == Ok(Lookup(t, key))
  }

  /** `child` is the trie below `t` on the path `key`, with `left` still to go. */
  predicate Descends(t: Trie, key: seq<Nibble>, child: Trie, left: seq<Nibble>) {
    match t
    case Extension(path, c) => c == child && path <= key && left == key[|path|..]
    case Branch(children, _) => key != [] && key[0] < |children| && children[key[0]] == child && left == key[1..]
    case _ => false
  }

  /** An honest proof for the child, behind the parent where the parent needs one, is honest. */
  lemma {:induction false} ExtendHonest(keccak: Hash, t: Trie, key: seq<Nibble>, child: Trie, left: seq<Nibble>,
                                        byHash: bool, here: bool,
                     rest: seq<Bytes>, steps: nat, below: seq<bool>, r: Result<Bytes, InclusionError>)
    requires WellFormed(keccak, t) && WellFormed(keccak, child) && Descends(t, key, child, left)
    requires IsHonest(keccak, child, left, IsHashed(keccak, child), rest, steps, below, r)
    ensures IsHonest(keccak, t, key, byHash, (if byHash || here then [Raw(keccak, t)] else []) + rest, steps + 1,
                     [here] + below, r)
  {
    hide Raw, IsHashed, WellFormed;
    assert ([here] + below)[1..] == below;
    assert ProofBelow(keccak, t, key, below) == rest;
  }

  /**
   If the walk from an honest node succeeds then, short of a collision with a node on the path, the
   proof was honest: it is `Proof` for some choice of repeated inlined nodes.
   */
  lemma {:induction false} WalkIsHonest(keccak: Hash, t: Trie, key: seq<Nibble>, byHash: bool,
                                        nodes: seq<Bytes>, steps: nat) returns (repeated: seq<bool>)
    requires WellFormed(keccak, t)
    requires byHash || |Raw(keccak, t)| < 32
    requires Walk(keccak, RefTo(keccak, t, byHash), key, nodes, steps).Ok?
    ensures || Collision(keccak, nodes, PathNodes(keccak, t, key))
            || IsHonest(keccak, t, key, byHash, nodes, steps, repeated,
                        Walk(keccak, RefTo(keccak, t, byHash), key, nodes, steps))
    decreases t
  {
    hide Encode, Decode, NodeStep, Node, Cap, RefTo, Fetch, Collision, Raw, IsHonest;
    var r := Walk(keccak, RefTo(keccak, t, byHash), key, nodes, steps);
    var (raw, rest) := Fetch(keccak, RefTo(keccak, t, byHash), nodes).value;
    var here := FetchHonest(keccak, t, key, byHash, nodes);
    repeated := [here];
    if raw == Raw(keccak, t) && nodes == (if byHash || here then [raw] else []) + rest {
      StepOfHonestNode(keccak, t, key, rest == []);
      var step := NodeStep(raw, key, rest == []).value;
      if step.Done? {
        EndHonest(keccak, t, key, byHash, here, steps);
      } else {
        var child := if t.Extension? then t.child else t.children[key[0]];
        var below := WalkIsHonest(keccak, child, step.remaining, IsHashed(keccak, child), rest, steps - 1);
        if Collision(keccak, rest, PathNodes(keccak, child, step.remaining)) {
          CollisionBelow(keccak, t, key, child, step.remaining, nodes, rest);
        } else {
          repeated := [here] + below;
          ExtendHonest(keccak, t, key, child, step.remaining, byHash, here, rest, steps - 1, below, r);
        }
      }
    }
  }

  /** Where the path ends, the proof ends with the node it has reached. */
  lemma {:induction false} EndHonest(keccak: Hash, t: Trie, key: seq<Nibble>, byHash: bool, here: bool, steps: nat)
    requires WellFormed(keccak, t) && 1 <= steps
    requires (t.Leaf? && key == t.path) || (t.Branch? && key == [])
    ensures IsHonest(keccak, t, key, byHash, (if byHash || here then [Raw(keccak, t)] else []) + [], steps, [here],
                     Ok(t.value))
  {
    hide Raw;
    assert [here][1..] == [];
    assert ProofBelow(keccak, t, key, []) == [];
  }

  // ----- every honest proof is accepted

  lemma {:induction false} CapWidth(keccak: Hash, t: Trie)
    requires WellFormed(keccak, t) && t != Empty
    ensures Encode(Cap(keccak, t)).Some?
    ensures |Encode(Cap(keccak, t)).value| == if IsHashed(keccak, t) then 33 else |Raw(keccak, t)|
  {
    hide Node;
  }

  /** A node short enough to be inlined holds no hash, and its children are shorter still. */
  lemma {:induction false} InlineChild(keccak: Hash, t: Trie, child: Trie, i: nat)
    requires WellFormed(keccak, t) && WellFormed(keccak, child)
    requires |Raw(keccak, t)| < 32 && child != Empty
    requires Node(keccak, t).List? && i < |Node(keccak, t).items| && Node(keccak, t).items[i] == Cap(keccak, child)
    ensures !IsHashed(keccak, child) && |Raw(keccak, child)| < |Raw(keccak, t)|
  {
    PartIsShorter(Node(keccak, t).items, i);
    CapWidth(keccak, child);
  }

  /** Below an inlined node the proof can only hold shorter nodes, so skipping it is never mistaken. */
  lemma {:induction false} ProofBelowInline(keccak: Hash, t: Trie, key: seq<Nibble>, repeated: seq<bool>)
    requires WellFormed(keccak, t) && HasPath(t, key)
    requires |Raw(keccak, t)| < 32
    ensures var below := ProofBelow(keccak, t, key, repeated);
            below != [] ==> |below[0]| < |Raw(keccak, t)|
    decreases t
  {
    hide Encode, Cap;
    var others := if repeated == [] then [] else repeated[1..];
    match t
    case Leaf(_, _) =>
    case Extension(path, child) =>
      InlineChild(keccak, t, child, 1);
      ProofBelowInline(keccak, child, key[|path|..], others);
    case Branch(children, _) =>
      if key != [] {
        InlineChild(keccak, t, children[key[0]], key[0]);
        ProofBelowInline(keccak, children[key[0]], key[1..], others);
      }
  }

  /** The walk finds an honest node where the honest proof put it. */
  lemma {:induction false} HonestFetch(keccak: Hash, t: Trie, key: seq<Nibble>, byHash: bool, repeated: seq<bool>)
    requires WellFormed(keccak, t) && HasPath(t, key)
    requires byHash || |Raw(keccak, t)| < 32
    ensures Fetch(keccak, RefTo(keccak, t, byHash), Proof(keccak, t, key, byHash, repeated))
         == Ok((Raw(keccak, t), ProofBelow(keccak, t, key, if repeated == [] then [] else repeated[1..])))
  {
    var nodes := Proof(keccak, t, key, byHash, repeated);
    var others := if repeated == [] then [] else repeated[1..];
    var rest := ProofBelow(keccak, t, key, others);
    if |Raw(keccak, t)| < 32 {
      ProofBelowInline(keccak, t, key, others);
    }
    hide Encode, Node, ProofBelow, WellFormed, HasPath;
    assert nodes == [Raw(keccak, t)] + rest || (!byHash && nodes == rest);
    assert nodes != [] && nodes[0] == Raw(keccak, t) ==> nodes[1..] == rest;
  }

  /** An honest proof, whatever it repeats, proves the stored value exactly when the path is short enough. */
  lemma {:induction false} HonestWalk(keccak: Hash, t: Trie, key: seq<Nibble>, byHash: bool,
                                      repeated: seq<bool>, steps: nat)
    requires WellFormed(keccak, t) && HasPath(t, key)
    requires byHash || |Raw(keccak, t)| < 32
    ensures Walk(keccak, RefTo(keccak, t, byHash), key, Proof(keccak, t, key, byHash, repeated), steps)
         == if Depth(t, key) <= steps then Ok(Lookup(t, key)) else Err(ProofTooDeep)
    decreases t
  {
    hide Encode, Decode, NodeStep, Node, Cap, Fetch, Proof, RefTo, Raw;
    if steps > 0 {
      var others := if repeated == [] then [] else repeated[1..];
      var rest := ProofBelow(keccak, t, key, others);
      HonestFetch(keccak, t, key, byHash, repeated);
      StepOfHonestNode(keccak, t, key, rest == []);
      var step := NodeStep(Raw(keccak, t), key, rest == []);
      if t.Extension? || (t.Branch? && key != []) {
        var child := if t.Extension? then t.child else t.children[key[0]];
        var left := if t.Extension? then key[|t.path|..] else key[1..];
        HonestWalk(keccak, child, left, IsHashed(keccak, child), others, steps - 1);
        assert step == Ok(Next(RefTo(keccak, child, IsHashed(keccak, child)), left));
      } else {
        assert step == Ok(Done(Lookup(t, key)));
      }
    }
  }

  // ----- main results

  /**
   Soundness: a proof accepted against a trie's root proves what the trie holds at the index (the
   empty string when it holds nothing), is honest, and is at most 128 nodes deep, or else one of its
   nodes collides with a different node on the trie's path.
   */
  lemma {:induction false} Soundness(keccak: Hash, t: Trie, index: nat, nodes: seq<Bytes>) returns (repeated: seq<bool>)
    requires WellFormed(keccak, t)
    requires ProvenValue(keccak, Root(keccak, t), index, nodes).Ok?
    ensures IndexKey(index).Some?
    ensures var key := IndexKey(index).value;
            || Collision(keccak, nodes, PathNodes(keccak, t, key))
            || (&& ProvenValue(keccak, Root(keccak, t), index, nodes) == Ok(Lookup(t, key))
                && HasPath(t, key) && Depth(t, key) <= 128
                && nodes == Proof(keccak, t, key, true, repeated))
  {
    hide Collision;
    repeated := WalkIsHonest(keccak, t, IndexKey(index).value, true, nodes, MAX_STEPS);
  }

  /** Completeness: of the proofs an honest prover may send, all or none are accepted, by depth alone. */
  lemma {:induction false} Completeness(keccak: Hash, t: Trie, index: nat, repeated: seq<bool>)
    requires WellFormed(keccak, t)
    requires IndexKey(index).Some? && HasPath(t, IndexKey(index).value)
    ensures var key := IndexKey(index).value;
            && ProvenValue(keccak, Root(keccak, t), index, Proof(keccak, t, key, true, repeated))
            == if Depth(t, key) <= 128 then Ok(Lookup(t, key)) else Err(ProofTooDeep)
  {
    HonestWalk(keccak, t, IndexKey(index).value, true, repeated, MAX_STEPS);
  }

  /** A stored value lies on a path, so `Completeness` applies to every index that has one. */
  lemma {:induction false} StoredValueHasPath(t: Trie, key: seq<Nibble>)
    requires Lookup(t, key) != []
    ensures HasPath(t, key)
    decreases t
  {
    match t
    case Leaf(_, _) =>
    case Extension(path, child) => StoredValueHasPath(child, key[|path|..]);
    case Branch(children, _) =>
      if key != [] {
        StoredValueHasPath(children[key[0]], key[1..]);
      }
  }
}
