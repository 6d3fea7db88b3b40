/** Walks in directed graphs over string ids, shared by the registry and evidence-graph algorithms. */
module Graphs {

  import opened Ids

  /** `r(u, v)`: there is an edge from `u` to `v`. */
  type Relation = (Id, Id) -> bool

  ghost predicate IsWalk(r: Relation, p: seq<Id>) {
    p != [] && forall i, j :: 0 <= i < j < |p| && j == i + 1 ==> r(p[i], p[j])
  }

  lemma {:induction false} SingletonWalk(r: Relation, x: Id)
    ensures IsWalk(r, [x])
  {
  }

  lemma {:induction false} WalkPieces(r: Relation, p: seq<Id>, q: seq<Id>)
    requires p != [] && q != []
    ensures IsWalk(r, p + q) <==> IsWalk(r, p) && IsWalk(r, q) && r(p[|p| - 1], q[0])
  {
    var pq := p + q;
    if IsWalk(r, pq) {
      assert r(pq[|p| - 1], pq[|p|]);
      forall i, j | 0 <= i < j < |p| && j == i + 1
        ensures r(p[i], p[j])
      {
        assert r(pq[i], pq[j]);
      }
      forall i, j | 0 <= i < j < |q| && j == i + 1
        ensures r(q[i], q[j])
      {
        assert r(pq[|p| + i], pq[|p| + j]);
      }
    }
    if IsWalk(r, p) && IsWalk(r, q) && r(p[|p| - 1], q[0]) {
      forall i, j | 0 <= i < j < |pq| && j == i + 1
        ensures r(pq[i], pq[j])
      {
        if j < |p| {
          assert r(p[i], p[j]);
        } else if i >= |p| {
          assert r(q[i - |p|], q[j - |p|]);
        }
      }
    }
  }

  lemma {:induction false} WalkSlice(r: Relation, p: seq<Id>, i: nat, j: nat)
    requires IsWalk(r, p) && i < j <= |p|
    ensures IsWalk(r, p[i..j])
  {
    forall k, l | 0 <= k < l < j - i && l == k + 1
      ensures r(p[i..j][k], p[i..j][l])
    {
      assert r(p[i + k], p[i + l]);
    }
  }

  /** A walk of at least one edge that returns to where it started. */
  ghost predicate IsClosedWalk(r: Relation, p: seq<Id>) {
    IsWalk(r, p) && |p| >= 2 && p[0] == p[|p| - 1]
  }

  ghost predicate Acyclic(r: Relation) {
    forall p :: !IsClosedWalk(r, p)
  }

  /** Every edge out of a listed node leads to a node listed before it. */
  ghost predicate SuccessorsFirst(r: Relation, order: seq<Id>) {
    forall i, w :: 0 <= i < |order| && r(order[i], w) ==> w in order[..i]
  }

  lemma {:induction false} WalkGoesBack(r: Relation, order: seq<Id>, p: seq<Id>, i: nat)
    requires SuccessorsFirst(r, order) && IsWalk(r, p) && |p| >= 2
    requires i < |order| && p[0] == order[i]
    ensures p[|p| - 1] in order[..i]
    decreases |p|
  {
    assert r(p[0], p[1]);
    var j :| 0 <= j < i && order[j] == p[1];
    if |p| > 2 {
      assert p == p[..1] + p[1..];
      WalkPieces(r, p[..1], p[1..]);
      WalkGoesBack(r, order, p[1..], j);
    }
  }

  /** No closed walk passes through a node listed in such an order. */
  lemma {:induction false} ListedNodesAreOnNoCycle(r: Relation, order: seq<Id>, p: seq<Id>)
    requires SuccessorsFirst(r, order) && IsWalk(r, p) && |p| >= 2 && p[0] in order
    ensures p[0] != p[|p| - 1]
  {
    var i := First(order, p[0]);
    WalkGoesBack(r, order, p, i);
  }

  /** Python's `list.index`. */
  function First(s: seq<Id>, x: Id): (i: nat)
    requires x in s
    ensures i < |s| && s[i] == x && x !in s[..i]
  {
    if s[0] == x then 0 else 1 + First(s[1..], x)
  }

  ghost predicate NoDuplicates(s: seq<Id>) {
    forall i, j :: 0 <= i < j < |s| ==> s[i] != s[j]
  }

  lemma {:induction false} DistinctFit(p: seq<Id>, universe: set<Id>)
    requires NoDuplicates(p) && forall x :: x in p ==> x in universe
    ensures |p| <= |universe|
  {
    if p != [] {
      var last := p[|p| - 1];
      DistinctFit(p[..|p| - 1], universe - {last});
    }
  }
}
