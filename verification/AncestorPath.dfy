/**
 The ancestor listing of mechanism evidence, `_ancestor_path`.

 The source marks a node only after its parents have been visited, so on a cycle it recurses until the
 interpreter's recursion limit stops it. `limit` is that limit; a run that hits it returns `ok == false`.
 */
module AncestorPath {
  import opened Basics
  import opened Graphs
  import opened Ids

  type Parents = map<Id, seq<Id>>

  const EMPTY := Id("")

  /** An edge from a node to each of its parents with a non-empty hash. */
  function HasParent(parents: Parents): Relation {
    (h: Id, p: Id) => p != EMPTY && h in parents && p in parents[h]
  }

  ghost predicate Reaches(r: Relation, u: Id, v: Id) {
    exists p :: IsWalk(r, p) && p[0] == u && p[|p| - 1] == v
  }

  lemma {:induction false} ReachesSelf(r: Relation, u: Id)
    ensures Reaches(r, u, u)
  {
    assert IsWalk(r, [u]);
  }

  lemma {:induction false} ReachesVia(r: Relation, u: Id, v: Id, w: Id)
    requires r(u, v) && Reaches(r, v, w)
    ensures Reaches(r, u, w)
  {
    var p :| IsWalk(r, p) && p[0] == v && p[|p| - 1] == w;
    SingletonWalk(r, u);
    WalkPieces(r, [u], p);
    var q := [u] + p;
    assert q[0] == u && q[|q| - 1] == w;
  }

  lemma {:induction false} LongerWalk(r: Relation, u: Id, v: Id, n: nat)
    requires r(u, v) && exists p :: IsWalk(r, p) && p[0] == v && |p| == n
    ensures exists p :: IsWalk(r, p) && p[0] == u && |p| == n + 1
  {
    var p :| IsWalk(r, p) && p[0] == v && |p| == n;
    SingletonWalk(r, u);
    WalkPieces(r, [u], p);
    var q := [u] + p;
    assert IsWalk(r, q) && q[0] == u && |q| == n + 1;
  }

  /** A listed node is not reachable from its own parents. */
  lemma {:induction false} NotItsOwnAncestor(r: Relation, order: seq<Id>, h: Id, p: Id)
    requires SuccessorsFirst(r, order) && r(h, p) && Reaches(r, p, h)
    ensures h !in order
  {
    var walk :| IsWalk(r, walk) && walk[0] == p && walk[|walk| - 1] == h;
    SingletonWalk(r, h);
    WalkPieces(r, [h], walk);
    var cycle := [h] + walk;
    assert cycle[0] == h && cycle[|cycle| - 1] == h;
    if h in order {
      ListedNodesAreOnNoCycle(r, order, cycle);
    }
  }

  /** What is reachable from a listed node is listed. */
  lemma {:induction false} ReachableIsListed(r: Relation, order: seq<Id>, p: seq<Id>)
    requires SuccessorsFirst(r, order) && IsWalk(r, p) && p[0] in order
    ensures p[|p| - 1] in order
    decreases |p|
  {
    if |p| > 1 {
      assert r(p[0], p[1]);
      var i := First(order, p[0]);
      assert p[1] in order[..i];
      assert p == p[..1] + p[1..];
      WalkPieces(r, p[..1], p[1..]);
      ReachableIsListed(r, order, p[1..]);
    }
  }

  /** A listing so far: the roots' ancestors that were visited, parents first, without repetition. */
  ghost predicate Listing(r: Relation, seen: set<Id>, ordered: seq<Id>) {
    && (forall x :: x in seen <==> x in ordered)
    && EMPTY !in seen
    && NoDuplicates(ordered)
    && SuccessorsFirst(r, ordered)
  }

  lemma {:induction false} ListingExtended(r: Relation, seen: set<Id>, ordered: seq<Id>, h: Id)
    requires Listing(r, seen, ordered) && h != EMPTY && h !in ordered
    requires forall p :: r(h, p) ==> p in ordered
    ensures Listing(r, seen + {h}, ordered + [h])
  {
    var longer := ordered + [h];
    assert forall i :: 0 <= i <= |ordered| ==> longer[..i] == ordered[..i];
    assert ordered[..|ordered|] == ordered;
  }

  // ----- how deep the recursion goes

  function ParentsOf(parents: Parents, h: Id): seq<Id> {
    if h in parents then parents[h] else []
  }

  /** The listing after a visit with room for `limit` nested calls; None when that is not enough. */
  function Visited(parents: Parents, ordered: seq<Id>, h: Id, limit: nat): Option<seq<Id>>
    decreases limit, 0, 0
  {
    if h == EMPTY || h in ordered then Some(ordered)
    else if limit == 0 then None
    else
      var above :- VisitedAll(parents, ordered, ParentsOf(parents, h), limit - 1);
      Some(above + [h])
  }

  function VisitedAll(parents: Parents, ordered: seq<Id>, hashes: seq<Id>, limit: nat): Option<seq<Id>>
    decreases limit, 1, |hashes|
  {
    if hashes == [] then Some(ordered)
    else
      var more :- Visited(parents, ordered, hashes[0], limit);
      VisitedAll(parents, more, hashes[1..], limit)
  }

  lemma {:induction false} VisitsFirst(parents: Parents, ordered: seq<Id>, hashes: seq<Id>, limit: nat)
    requires hashes != []
    ensures var more := Visited(parents, ordered, hashes[0], limit);
            VisitedAll(parents, ordered, hashes, limit)
            == if more.None? then None else VisitedAll(parents, more.value, hashes[1..], limit)
  {
    hide Visited;
  }

  lemma {:induction false} VisitsNone(parents: Parents, ordered: seq<Id>, limit: nat)
    ensures VisitedAll(parents, ordered, [], limit) == Some(ordered)
  {
  }

  /** From each node one edge leads on, to the next, and from the last none. */
  ghost predicate IsChain(parents: Parents, p: seq<Id>) {
    && p != [] && EMPTY !in p
    && (forall k :: 0 <= k < |p| - 1 ==> ParentsOf(parents, p[k]) == [p[k + 1]])
    && ParentsOf(parents, p[|p| - 1]) == []
  }

  /** Acyclic input fails too: a chain is listed from its head exactly when the limit allows for all its nodes. */
  lemma {:induction false} ChainNeedsItsLength(parents: Parents, p: seq<Id>, ordered: seq<Id>, limit: nat)
    requires IsChain(parents, p) && forall x :: x in p ==> x !in ordered
    ensures Visited(parents, ordered, p[0], limit).Some? <==> |p| <= limit
    decreases |p|
  {
    assert p[0] in p;
    if limit > 0 {
      var mine := ParentsOf(parents, p[0]);
      if |p| == 1 {
        VisitsNone(parents, ordered, limit - 1);
      } else {
        assert mine == [p[1]] && mine[1..] == [];
        ChainNeedsItsLength(parents, p[1..], ordered, limit - 1);
        VisitsFirst(parents, ordered, mine, limit - 1);
        var more := Visited(parents, ordered, p[1], limit - 1);
        if more.Some? {
          VisitsNone(parents, more.value, limit - 1);
        }
      }
    }
  }

  class Visitor {
    const parents: Parents
    var seen: set<Id>
    var ordered: seq<Id>

    ghost predicate Valid()
      reads this
    {
      Listing(HasParent(parents), seen, ordered)
    }

    constructor (parents: Parents)
      ensures Valid() && this.parents == parents && ordered == []
    {
      this.parents := parents;
      seen, ordered := {}, [];
    }

    method Visit(h: Id, limit: nat) returns (ok: bool)
      requires Valid()
      modifies this
      ensures Valid() && old(ordered) <= ordered
      ensures ok <==> Visited(parents, old(ordered), h, limit).Some?
      ensures ok ==> Visited(parents, old(ordered), h, limit) == Some(ordered)
      ensures ok && h != EMPTY ==> h in ordered
      ensures forall x :: x in ordered && x !in old(ordered) ==> h != EMPTY && Reaches(HasParent(parents), h, x)
      ensures !ok ==> h != EMPTY && exists p :: IsWalk(HasParent(parents), p) && p[0] == h && |p| == limit + 1
      decreases limit
    {
      hide Listing, Reaches, IsWalk, VisitedAll;
      ghost var r := HasParent(parents);
      ListingAgrees(r, seen, ordered);
      ok := true;
      if h == EMPTY || h in seen {
        return;
      }
      if limit == 0 {
        SingletonWalk(r, h);
        ghost var p := [h];
        assert IsWalk(r, p) && p[0] == h && |p| == limit + 1;
        return false;
      }
      var mine := ParentsOf(parents, h);
      assert mine[0..] == mine;
      var i := 0;
      while i < |mine|
        invariant 0 <= i <= |mine|
        invariant VisitedAll(parents, old(ordered), mine, limit - 1)
               == VisitedAll(parents, ordered, mine[i..], limit - 1)
        invariant Valid() && old(ordered) <= ordered
        invariant forall j :: 0 <= j < i && mine[j] != EMPTY ==> mine[j] in ordered
        invariant forall x :: x in ordered && x !in old(ordered) ==> Reaches(r, h, x)
        invariant ok && h !in ordered
      {
        ghost var before := ordered;
        VisitsFirst(parents, ordered, mine[i..], limit - 1);
        assert mine[i..][1..] == mine[i + 1..];
        ok := Visit(mine[i], limit - 1);
        forall x | x in ordered && x !in before
          ensures Reaches(r, h, x)
        {
          ReachesVia(r, h, mine[i], x);
        }
        if !ok {
          LongerWalk(r, h, mine[i], limit);
          return false;
        }
        if h in ordered {
          ListingAgrees(r, seen, ordered);
          NotItsOwnAncestor(r, ordered, h, mine[i]);
        }
        i := i + 1;
      }
      VisitsNone(parents, ordered, limit - 1);
      assert mine[i..] == [];
      ListingExtended(r, seen, ordered, h);
      seen := seen + {h};
      ordered := ordered + [h];
      ReachesSelf(r, h);
    }
  }

  lemma {:induction false} ListingAgrees(r: Relation, seen: set<Id>, ordered: seq<Id>)
    requires Listing(r, seen, ordered)
    ensures (forall x :: x in seen <==> x in ordered) && SuccessorsFirst(r, ordered)
  {
  }

  /** Some node reachable from a non-empty hash in `hashes` lies on a cycle. */
  ghost predicate CycleInReach(r: Relation, hashes: seq<Id>) {
    exists h, c :: h in hashes && h != EMPTY && IsClosedWalk(r, c) && Reaches(r, h, c[0])
  }

  /** The non-empty hashes and all their ancestors, each once, every parent before its children. */
  ghost predicate IsAncestorListing(r: Relation, hashes: seq<Id>, ordered: seq<Id>) {
    && NoDuplicates(ordered)
    && SuccessorsFirst(r, ordered)
    && forall x :: x in ordered <==> exists h :: h in hashes && h != EMPTY && Reaches(r, h, x)
  }

  /** A listing shows that no cycle is within reach, so on cyclic input there is nothing to return. */
  lemma {:induction false} ListingMeansNoCycle(r: Relation, hashes: seq<Id>, ordered: seq<Id>)
    requires IsAncestorListing(r, hashes, ordered)
    ensures !CycleInReach(r, hashes)
  {
    hide Reaches;
    if CycleInReach(r, hashes) {
      var h, c :| h in hashes && h != EMPTY && IsClosedWalk(r, c) && Reaches(r, h, c[0]);
      ListedNodesAreOnNoCycle(r, ordered, c);
    }
  }

  /** Every id that a walk from `hashes` can visit. */
  function Universe(parents: Parents, hashes: seq<Id>): set<Id> {
    (set h | h in hashes) + (set h, p | h in parents && p in parents[h] :: p)
  }

  lemma {:induction false} WalkStaysInside(parents: Parents, hashes: seq<Id>, p: seq<Id>)
    requires IsWalk(HasParent(parents), p) && p[0] in hashes
    ensures forall x :: x in p ==> x in Universe(parents, hashes)
  {
    forall k | 0 <= k < |p|
      ensures p[k] in Universe(parents, hashes)
    {
      if k > 0 {
        assert HasParent(parents)(p[k - 1], p[k]);
      }
    }
  }

  /** A walk with more nodes than there are ids runs into a cycle. */
  lemma {:induction false} LongWalkHasCycle(parents: Parents, hashes: seq<Id>, p: seq<Id>)
    requires var r := HasParent(parents);
             IsWalk(r, p) && p[0] in hashes && p[0] != EMPTY && |p| > |Universe(parents, hashes)|
    ensures CycleInReach(HasParent(parents), hashes)
  {
    var r := HasParent(parents);
    WalkStaysInside(parents, hashes, p);
    hide Universe;
    if NoDuplicates(p) {
      DistinctFit(p, Universe(parents, hashes));
    }
    hide IsWalk;
    var i, j :| 0 <= i < j < |p| && p[i] == p[j];
    CycleOnWalk(r, p, i, j);
    hide Reaches, IsClosedWalk;
    assert CycleInReach(r, hashes);
  }

  /** A walk that visits a node twice contains a cycle. */
  lemma {:induction false} CycleOnWalk(r: Relation, p: seq<Id>, i: nat, j: nat)
    requires IsWalk(r, p) && i < j < |p| && p[i] == p[j]
    ensures IsClosedWalk(r, p[i..j + 1]) && Reaches(r, p[0], p[i..j + 1][0])
  {
    WalkSlice(r, p, 0, i + 1);
    WalkSlice(r, p, i, j + 1);
    hide IsWalk;
    var front, cycle := p[0..i + 1], p[i..j + 1];
    assert front[0] == p[0] && front[|front| - 1] == cycle[0];
  }

  /**
   `_ancestor_path`. When it returns, it returns the ancestor listing; given a recursion limit no
   smaller than the number of ids, it returns exactly when no cycle is within reach; given a smaller one, it
   returns exactly when the nested visits fit, which takes a walk longer than the limit to prevent.
   */
  method ListAncestors(hashes: seq<Id>, parents: Parents, limit: nat) returns (ok: bool, ordered: seq<Id>)
    ensures ok <==> VisitedAll(parents, [], hashes, limit).Some?
    ensures ok ==> VisitedAll(parents, [], hashes, limit) == Some(ordered)
    ensures ok ==> IsAncestorListing(HasParent(parents), hashes, ordered)
    ensures ok ==> !CycleInReach(HasParent(parents), hashes)
    ensures !ok ==> exists p :: IsWalk(HasParent(parents), p) && p[0] in hashes && p[0] != EMPTY && |p| > limit
    ensures |Universe(parents, hashes)| <= limit ==> (ok <==> !CycleInReach(HasParent(parents), hashes))
  {
    hide Listing, Reaches, IsWalk, Universe, CycleInReach, Visited, VisitedAll;
    ghost var r := HasParent(parents);
    var visitor := new Visitor(parents);
    assert hashes[0..] == hashes;
    for i := 0 to |hashes|
      invariant VisitedAll(parents, [], hashes, limit) == VisitedAll(parents, visitor.ordered, hashes[i..], limit)
      invariant visitor.Valid() && visitor.parents == parents && fresh(visitor)
      invariant forall j :: 0 <= j < i && hashes[j] != EMPTY ==> hashes[j] in visitor.ordered
      invariant forall x :: x in visitor.ordered ==> exists h :: h in hashes && h != EMPTY && Reaches(r, h, x)
    {
      ghost var before := visitor.ordered;
      VisitsFirst(parents, before, hashes[i..], limit);
      assert hashes[i..][1..] == hashes[i + 1..];
      ok := visitor.Visit(hashes[i], limit);
      if !ok {
        ghost var p :| |p| == limit + 1 && IsWalk(r, p) && p[0] == hashes[i];
        if |Universe(parents, hashes)| <= limit {
          LongWalkHasCycle(parents, hashes, p);
        }
        return false, [];
      }
      forall x | x in visitor.ordered
        ensures exists h :: h in hashes && h != EMPTY && Reaches(r, h, x)
      {
        if x !in before {
          assert hashes[i] in hashes && Reaches(r, hashes[i], x);
        }
      }
    }
    ok, ordered := true, visitor.ordered;
    VisitsNone(parents, ordered, limit);
    assert hashes[|hashes|..] == [];
    ListingIsComplete(r, hashes, visitor.seen, ordered);
    ListingMeansNoCycle(r, hashes, ordered);
  }

  lemma {:induction false} ListingIsComplete(r: Relation, hashes: seq<Id>, seen: set<Id>, ordered: seq<Id>)
    requires Listing(r, seen, ordered)
    requires forall h :: h in hashes && h != EMPTY ==> h in ordered
    requires forall x :: x in ordered ==> exists h :: h in hashes && h != EMPTY && Reaches(r, h, x)
    ensures IsAncestorListing(r, hashes, ordered)
  {
    forall h, x | h in hashes && h != EMPTY && Reaches(r, h, x)
      ensures x in ordered
    {
      var p :| IsWalk(r, p) && p[0] == h && p[|p| - 1] == x;
      ReachableIsListed(r, ordered, p);
    }
  }
}
