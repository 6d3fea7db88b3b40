/**
 The dependency-cycle audit of artifact registries, `_find_cycles`.

 `limit` is the interpreter's recursion limit; a search that hits it returns `ok == false`.
 */
module CycleAudit {
  import opened Graphs
  import opened Ids

  /** A registry entry: its id and the ids it depends on. */
  datatype Artifact = Artifact(id: Id, dependencies: seq<Id>)

  type Dependencies = map<Id, seq<Id>>

  /** The dict that `_find_cycles` builds: a later entry replaces an earlier one with its id. */
  function DependencyMap(artifacts: seq<Artifact>): Dependencies
    decreases |artifacts|
  {
    if artifacts == [] then map[]
    else
      var last := artifacts[|artifacts| - 1];
      DependencyMap(artifacts[..|artifacts| - 1])[last.id := last.dependencies]
  }

  /** The dict's keys in insertion order: each id where it first occurs. */
  function KeyOrder(artifacts: seq<Artifact>): (order: seq<Id>)
    ensures forall id :: id in order <==> id in DependencyMap(artifacts)
    decreases |artifacts|
  {
    if artifacts == [] then []
    else
      var order := KeyOrder(artifacts[..|artifacts| - 1]);
      var id := artifacts[|artifacts| - 1].id;
      if id in order then order else order + [id]
  }

  ghost predicate IsLastEntry(artifacts: seq<Artifact>, a: Artifact, i: nat) {
    i < |artifacts| && artifacts[i] == a && forall j :: i < j < |artifacts| ==> artifacts[j].id != a.id
  }

  /** An id has these dependencies exactly if the last entry with the id has. */
  lemma {:induction false} LastEntryCounts(artifacts: seq<Artifact>, a: Artifact)
    ensures a.id in DependencyMap(artifacts) && DependencyMap(artifacts)[a.id] == a.dependencies
       <==> exists i: nat :: IsLastEntry(artifacts, a, i)
    decreases |artifacts|
  {
    if artifacts != [] {
      var n := |artifacts| - 1;
      LastEntryCounts(artifacts[..n], a);
      if artifacts[n].id == a.id {
        assert artifacts[n] == a ==> IsLastEntry(artifacts, a, n);
      } else {
        if i: nat :| IsLastEntry(artifacts[..n], a, i) {
          assert IsLastEntry(artifacts, a, i);
        }
        if i: nat :| IsLastEntry(artifacts, a, i) {
          assert IsLastEntry(artifacts[..n], a, i);
        }
      }
    }
  }

  /** `x` occurs as an id before the first entry with id `y`. */
  ghost predicate SeenBefore(artifacts: seq<Artifact>, x: Id, y: Id) {
    exists p :: 0 <= p < |artifacts| && artifacts[p].id == x && forall q :: 0 <= q <= p ==> artifacts[q].id != y
  }

  lemma {:induction false} SeenAfterMore(before: seq<Artifact>, last: Artifact, x: Id, y: Id)
    requires SeenBefore(before, x, y)
    ensures SeenBefore(before + [last], x, y)
  {
    var p :| 0 <= p < |before| && before[p].id == x && forall q :: 0 <= q <= p ==> before[q].id != y;
    var all := before + [last];
    assert all[p].id == x && forall q :: 0 <= q <= p ==> all[q] == before[q];
  }

  lemma {:induction false} SeenBeforeNew(before: seq<Artifact>, last: Artifact, a: Artifact)
    requires a in before && forall b :: b in before ==> b.id != last.id
    ensures SeenBefore(before + [last], a.id, last.id)
  {
    var p :| 0 <= p < |before| && before[p] == a;
    var all := before + [last];
    assert all[p].id == a.id && forall q :: 0 <= q <= p ==> all[q] == before[q] && before[q] in before;
  }

  /** The search starts from each id once, in the order of first occurrence. */
  lemma {:induction false} KeysByFirstEntry(artifacts: seq<Artifact>)
    ensures forall id :: id in KeyOrder(artifacts) <==> exists a :: a in artifacts && a.id == id
    ensures forall m, n :: 0 <= m < n < |KeyOrder(artifacts)| ==>
              SeenBefore(artifacts, KeyOrder(artifacts)[m], KeyOrder(artifacts)[n])
    decreases |artifacts|
  {
    hide SeenBefore, DependencyMap;
    if artifacts != [] {
      var before, last := artifacts[..|artifacts| - 1], artifacts[|artifacts| - 1];
      KeysByFirstEntry(before);
      assert artifacts == before + [last];
      forall x, y | SeenBefore(before, x, y)
        ensures SeenBefore(artifacts, x, y)
      {
        SeenAfterMore(before, last, x, y);
      }
      forall x | x in KeyOrder(before) && last.id !in KeyOrder(before)
        ensures SeenBefore(artifacts, x, last.id)
      {
        var a :| a in before && a.id == x;
        SeenBeforeNew(before, last, a);
      }
    }
  }

  /** An edge between registered ids; dangling references are not edges. */
  function DependsOn(deps: Dependencies): Relation {
    (u: Id, v: Id) => u in deps && v in deps && v in deps[u]
  }

  datatype Color = White | Gray | Black

  /** GRAY nodes are those on the stack, BLACK ones those that are finished. */
  ghost predicate Consistent(deps: Dependencies, color: map<Id, Color>, stack: seq<Id>, finished: seq<Id>) {
    && color.Keys == deps.Keys && NoDuplicates(stack)
    && (forall n :: n in stack ==> n in deps)
    && (forall n :: n in finished ==> n in deps)
    && (forall n :: n in color ==> (color[n] == Gray <==> n in stack))
    && (forall n :: n in color ==> (color[n] == Black <==> n in finished))
  }

  /** The last edge of a reported cycle, the one that closed it, leads from `u` to `w`. */
  ghost predicate IsReported(cycles: seq<seq<Id>>, u: Id, w: Id) {
    exists c :: c in cycles && |c| >= 2 && c[|c| - 2] == u && c[|c| - 1] == w
  }

  /** The edges that close no reported cycle. */
  ghost function Unreported(r: Relation, cycles: seq<seq<Id>>): Relation {
    (u: Id, w: Id) => r(u, w) && !IsReported(cycles, u, w)
  }

  /** The stack is a walk, reported cycles are closed walks, and finished nodes are ordered but for closing edges. */
  ghost predicate Sound(r: Relation, stack: seq<Id>, finished: seq<Id>, cycles: seq<seq<Id>>) {
    && (stack != [] ==> IsWalk(r, stack))
    && (forall c :: c in cycles ==> IsClosedWalk(r, c))
    && SuccessorsFirst(Unreported(r, cycles), finished)
  }

  lemma {:induction false} SoundAfterReport(r: Relation, stack: seq<Id>, finished: seq<Id>, cycles: seq<seq<Id>>,
                                            c: seq<Id>)
    requires Sound(r, stack, finished, cycles) && IsClosedWalk(r, c)
    ensures Sound(r, stack, finished, cycles + [c])
    ensures IsReported(cycles + [c], c[|c| - 2], c[|c| - 1])
  {
    hide IsWalk;
    assert c in cycles + [c];
    ReportsStay(cycles, cycles + [c]);
  }

  lemma {:induction false} ReportsStay(cycles: seq<seq<Id>>, more: seq<seq<Id>>)
    requires cycles <= more
    ensures forall u, w :: IsReported(cycles, u, w) ==> IsReported(more, u, w)
  {
    forall u, w | IsReported(cycles, u, w)
      ensures IsReported(more, u, w)
    {
      var d :| d in cycles && |d| >= 2 && d[|d| - 2] == u && d[|d| - 1] == w;
      assert d in more;
    }
  }

  /** Of the first `n` dependencies of `node`, the registered ones are finished, or their edges reported. */
  ghost predicate Explored(deps: Dependencies, node: Id, n: nat, finished: seq<Id>, cycles: seq<seq<Id>>)
    requires node in deps && n <= |deps[node]|
  {
    forall j :: 0 <= j < n && deps[node][j] in deps ==>
      deps[node][j] in finished || IsReported(cycles, node, deps[node][j])
  }

  lemma {:induction false} ExploredMore(deps: Dependencies, node: Id, n: nat, finished: seq<Id>, cycles: seq<seq<Id>>,
                                        finished1: seq<Id>, cycles1: seq<seq<Id>>)
    requires node in deps && n < |deps[node]| && Explored(deps, node, n, finished, cycles)
    requires finished <= finished1 && cycles <= cycles1
    requires deps[node][n] in deps ==> deps[node][n] in finished1 || IsReported(cycles1, node, deps[node][n])
    ensures Explored(deps, node, n + 1, finished1, cycles1)
  {
    ReportsStay(cycles, cycles1);
    hide IsReported;
    assert forall x :: x in finished ==> x in finished1;
  }

  lemma {:induction false} EmptyExplored(deps: Dependencies, node: Id, finished: seq<Id>, cycles: seq<seq<Id>>)
    requires node in deps
    ensures Explored(deps, node, 0, finished, cycles)
  {
  }

  lemma {:induction false} FullyExplored(deps: Dependencies, node: Id, finished: seq<Id>, cycles: seq<seq<Id>>)
    requires node in deps && Explored(deps, node, |deps[node]|, finished, cycles)
    ensures forall w :: DependsOn(deps)(node, w) ==> w in finished || IsReported(cycles, node, w)
  {
    hide IsReported;
  }

  /** A walk along dependencies that visits `n + 1` different nodes. */
  ghost predicate GoesDeep(deps: Dependencies, n: nat) {
    exists p :: IsWalk(DependsOn(deps), p) && NoDuplicates(p) && |p| == n + 1 && forall x :: x in p ==> x in deps
  }

  /** So it takes more nodes than the limit to exceed it. */
  lemma {:induction false} DeepNeedsNodes(deps: Dependencies, n: nat)
    requires GoesDeep(deps, n)
    ensures n < |deps.Keys|
  {
    hide IsWalk;
    var p :| IsWalk(DependsOn(deps), p) && NoDuplicates(p) && |p| == n + 1 && forall x :: x in p ==> x in deps;
    DistinctFit(p, deps.Keys);
  }

  /** The part of a stack from `next` on, and `next` again, is a closed walk. */
  lemma {:induction false} StackCycle(r: Relation, stack: seq<Id>, next: Id)
    requires IsWalk(r, stack) && next in stack && r(stack[|stack| - 1], next)
    ensures IsClosedWalk(r, stack[First(stack, next)..] + [next])
  {
    hide IsWalk;
    var start := First(stack, next);
    if start > 0 {
      assert stack == stack[..start] + stack[start..];
      WalkPieces(r, stack[..start], stack[start..]);
    } else {
      assert stack[start..] == stack;
    }
    SingletonWalk(r, next);
    WalkPieces(r, stack[start..], [next]);
  }

  lemma {:induction false} SoundAfterPush(r: Relation, stack: seq<Id>, finished: seq<Id>, cycles: seq<seq<Id>>,
                                          node: Id)
    requires Sound(r, stack, finished, cycles)
    requires stack != [] ==> r(stack[|stack| - 1], node)
    ensures Sound(r, stack + [node], finished, cycles)
  {
    hide IsWalk, IsClosedWalk, SuccessorsFirst;
    SingletonWalk(r, node);
    if stack == [] {
      assert stack + [node] == [node];
    } else {
      WalkPieces(r, stack, [node]);
    }
  }

  lemma {:induction false} SoundAfterPop(r: Relation, stack: seq<Id>, finished: seq<Id>, cycles: seq<seq<Id>>, node: Id)
    requires Sound(r, stack + [node], finished, cycles)
    requires forall w :: r(node, w) ==> w in finished || IsReported(cycles, node, w)
    ensures Sound(r, stack, finished + [node], cycles)
  {
    hide IsWalk, IsClosedWalk, IsReported;
    if stack != [] {
      WalkPieces(r, stack, [node]);
    }
    assert forall i :: 0 <= i <= |finished| ==> (finished + [node])[..i] == finished[..i];
    assert finished[..|finished|] == finished;
  }

  lemma {:induction false} ConsistentAfterPop(deps: Dependencies, color: map<Id, Color>, stack: seq<Id>,
                                              finished: seq<Id>, node: Id)
    requires Consistent(deps, color, stack + [node], finished) && node !in stack
    ensures Consistent(deps, color[node := Black], stack, finished + [node])
  {
    assert forall n :: n in stack + [node] <==> n in stack || n == node;
    assert forall n :: n in finished + [node] <==> n in finished || n == node;
    assert node in stack + [node];
    assert forall i :: 0 <= i < |stack| ==> (stack + [node])[i] == stack[i];
  }

  lemma {:induction false} StackGoesDeep(deps: Dependencies, color: map<Id, Color>, stack: seq<Id>, finished: seq<Id>,
                                         cycles: seq<seq<Id>>, node: Id)
    requires Consistent(deps, color, stack, finished) && Sound(DependsOn(deps), stack, finished, cycles)
    requires node in deps && node !in stack && (stack != [] ==> DependsOn(deps)(stack[|stack| - 1], node))
    ensures GoesDeep(deps, |stack|)
  {
    hide DependsOn, IsWalk;
    SoundAfterPush(DependsOn(deps), stack, finished, cycles, node);
    assert IsWalk(DependsOn(deps), stack + [node]) && NoDuplicates(stack + [node]);
  }

  class CycleFinder {
    const deps: Dependencies
    var color: map<Id, Color>
    var stack: seq<Id>
    var cycles: seq<seq<Id>>
    ghost var finished: seq<Id>  // BLACK nodes in the order in which they turned BLACK

    ghost predicate Valid()
      reads this
    {
      Consistent(deps, color, stack, finished) && Sound(DependsOn(deps), stack, finished, cycles)
    }

    constructor (deps: Dependencies)
      ensures Valid() && this.deps == deps && stack == [] && cycles == [] && finished == []
    {
      this.deps := deps;
      color := map n | n in deps :: White;
      stack, cycles, finished := [], [], [];
    }

    /** A dependency of the node on top of the stack is itself on the stack. */
    method ReportCycle(next: Id)
      requires Valid() && next in stack && DependsOn(deps)(stack[|stack| - 1], next)
      modifies `cycles
      ensures Valid() && cycles == old(cycles) + [stack[First(stack, next)..] + [next]]
      ensures IsReported(cycles, stack[|stack| - 1], next)
    {
      hide Consistent, IsWalk, IsClosedWalk, SuccessorsFirst, IsReported;
      StackCycle(DependsOn(deps), stack, next);
      SoundAfterReport(DependsOn(deps), stack, finished, cycles, stack[First(stack, next)..] + [next]);
      hide Sound;
      cycles := cycles + [stack[First(stack, next)..] + [next]];
    }

    method Enter(node: Id)
      requires Valid() && node in deps && color[node] == White
      requires stack != [] ==> DependsOn(deps)(stack[|stack| - 1], node)
      modifies `color, `stack
      ensures Valid() && stack == old(stack) + [node]
      ensures node !in old(stack) && node !in finished
    {
      hide Sound;
      SoundAfterPush(DependsOn(deps), stack, finished, cycles, node);
      color := color[node := Gray];
      stack := stack + [node];
    }

    method Leave(node: Id, ghost below: seq<Id>)
      requires Valid() && stack == below + [node] && node !in below
      requires forall w :: DependsOn(deps)(node, w) ==> w in finished || IsReported(cycles, node, w)
      modifies `color, `stack, `finished
      ensures Valid() && stack == below && finished == old(finished) + [node]
    {
      hide Sound, Consistent;
      SoundAfterPop(DependsOn(deps), below, finished, cycles, node);
      ConsistentAfterPop(deps, color, below, finished, node);
      color := color[node := Black];
      stack := stack[..|stack| - 1];
      finished := finished + [node];
    }

    method Dfs(node: Id, limit: nat) returns (ok: bool)
      requires Valid() && node in deps && color.Keys == deps.Keys && color[node] == White
      requires stack != [] ==> DependsOn(deps)(stack[|stack| - 1], node)
      modifies this
      ensures !ok ==> GoesDeep(deps, |old(stack)| + limit)
      ensures ok ==> Valid() && stack == old(stack) && node in finished
      ensures ok ==> old(finished) <= finished && old(cycles) <= cycles
      decreases limit, 1
    {
      hide Sound, IsReported, Explored, DependsOn, GoesDeep;
      if limit == 0 {
        StackGoesDeep(deps, color, stack, finished, cycles, node);
        return false;
      }
      Enter(node);
      ok := Explore(node, limit - 1, old(stack));
      if ok {
        FullyExplored(deps, node, finished, cycles);
        Leave(node, old(stack));
      }
    }

    /** The loop over the dependencies of the node on top of the stack. */
    method Explore(node: Id, limit: nat, ghost below: seq<Id>) returns (ok: bool)
      requires Valid() && node in deps && stack == below + [node]
      modifies this
      ensures !ok ==> GoesDeep(deps, |old(stack)| + limit)
      ensures ok ==> Valid() && stack == old(stack)
      ensures ok ==> old(finished) <= finished && old(cycles) <= cycles
      ensures ok ==> Explored(deps, node, |deps[node]|, finished, cycles)
      decreases limit, 2
    {
      hide Sound, IsReported, Explored, GoesDeep;
      EmptyExplored(deps, node, finished, cycles);
      var i := 0;
      while i < |deps[node]|
        invariant 0 <= i <= |deps[node]|
        invariant Valid() && stack == old(stack)
        invariant old(finished) <= finished && old(cycles) <= cycles
        invariant Explored(deps, node, i, finished, cycles)
      {
        ghost var finished0, cycles0 := finished, cycles;
        var next := deps[node][i];
        if next !in deps {
        } else if color[next] == Gray {
          ReportCycle(next);
        } else if color[next] == White {
          ok := Dfs(next, limit);
          if !ok {
            return;
          }
        }
        ExploredMore(deps, node, i, finished0, cycles0, finished, cycles);
        i := i + 1;
      }
      ok := true;
    }

    /** A node that no earlier search has reached starts one. */
    method SearchFrom(node: Id, limit: nat) returns (ok: bool)
      requires Valid() && stack == [] && node in deps
      modifies this
      ensures !ok ==> GoesDeep(deps, limit)
      ensures ok ==> Valid() && stack == [] && node in finished && old(finished) <= finished
    {
      hide Sound, DependsOn, GoesDeep;
      ok := true;
      if color[node] == White {
        ok := Dfs(node, limit);
      }
    }

    /** The loop over all nodes. */
    method SearchAll(order: seq<Id>, limit: nat) returns (ok: bool)
      requires Valid() && stack == [] && forall n :: n in order <==> n in deps
      modifies this
      ensures !ok ==> GoesDeep(deps, limit)
      ensures ok ==> Sound(DependsOn(deps), [], finished, cycles) && forall n :: n in deps ==> n in finished
    {
      hide Sound, DependsOn, Consistent, GoesDeep;
      for i := 0 to |order|
        invariant Valid() && stack == []
        invariant forall j :: 0 <= j < i ==> order[j] in finished
      {
        assert order[i] in order;
        ok := SearchFrom(order[i], limit);
        if !ok {
          return;
        }
      }
      ok := true;
    }
  }

  /** When every node is in a successors-first order, there is no cycle. */
  lemma {:induction false} OrderedMeansAcyclic(r: Relation, order: seq<Id>)
    requires SuccessorsFirst(r, order) && forall u, v :: r(u, v) ==> u in order
    ensures Acyclic(r)
  {
    hide SuccessorsFirst;
    forall p
      ensures !IsClosedWalk(r, p)
    {
      if IsClosedWalk(r, p) {
        assert r(p[0], p[1]);
        ListedNodesAreOnNoCycle(r, order, p);
      }
    }
  }

  method BuildDependencies(artifacts: seq<Artifact>) returns (deps: Dependencies, order: seq<Id>)
    ensures deps == DependencyMap(artifacts) && order == KeyOrder(artifacts)
  {
    deps, order := map[], [];
    for i := 0 to |artifacts|
      invariant deps == DependencyMap(artifacts[..i]) && order == KeyOrder(artifacts[..i])
    {
      assert artifacts[..i + 1][..i] == artifacts[..i];
      var id := artifacts[i].id;
      if id !in deps {
        order := order + [id];
      }
      deps := deps[id := artifacts[i].dependencies];
    }
    assert artifacts[..|artifacts|] == artifacts;
  }

  /** Without the edges that close the reported cycles, no cycle is left. */
  lemma {:induction false} NoCycleIsMissed(deps: Dependencies, order: seq<Id>, cycles: seq<seq<Id>>)
    requires SuccessorsFirst(Unreported(DependsOn(deps), cycles), order) && forall n :: n in deps ==> n in order
    ensures Acyclic(Unreported(DependsOn(deps), cycles))
    ensures cycles == [] ==> Acyclic(DependsOn(deps))
  {
    hide SuccessorsFirst;
    var r := DependsOn(deps);
    OrderedMeansAcyclic(Unreported(r, cycles), order);
    hide IsReported;
    if cycles == [] {
      forall p
        ensures !IsClosedWalk(r, p)
      {
        assert !IsClosedWalk(Unreported(r, cycles), p);
        NoneReported();
      }
    }
  }

  lemma {:induction false} NoneReported()
    ensures forall u, w :: !IsReported([], u, w)
  {
  }

  /** Every cycle uses an edge that closes a reported one. */
  lemma {:induction false} EveryCycleIsCut(r: Relation, cycles: seq<seq<Id>>, p: seq<Id>) returns (k: nat)
    requires Acyclic(Unreported(r, cycles)) && IsClosedWalk(r, p)
    ensures k < |p| - 1 && IsReported(cycles, p[k], p[k + 1])
  {
    hide IsReported;
    assert !IsClosedWalk(Unreported(r, cycles), p);
    var i, j :| 0 <= i < j < |p| && j == i + 1 && !Unreported(r, cycles)(p[i], p[j]);
    k := i;
  }

  /**
   `_find_cycles`: everything in the list is a closed walk along dependency edges between registered ids, and
   dropping the edges that close them leaves no cycle, so the list is empty exactly for an acyclic graph.
   */
  method FindCycles(artifacts: seq<Artifact>, limit: nat) returns (ok: bool, cycles: seq<seq<Id>>)
    ensures !ok ==> GoesDeep(DependencyMap(artifacts), limit)
    ensures |DependencyMap(artifacts).Keys| <= limit ==> ok
    ensures ok ==> forall c :: c in cycles ==> IsClosedWalk(DependsOn(DependencyMap(artifacts)), c)
    ensures ok ==> Acyclic(Unreported(DependsOn(DependencyMap(artifacts)), cycles))
    ensures ok ==> (cycles == [] <==> Acyclic(DependsOn(DependencyMap(artifacts))))
  {
    hide *;
    var deps, order := BuildDependencies(artifacts);
    var finder := new CycleFinder(deps);
    ok := finder.SearchAll(order, limit);
    cycles := finder.cycles;
    if !ok {
      DeepNeedsNodes(deps, limit);
    } else {
      ReportIsComplete(deps, finder.finished, cycles);
    }
  }

  lemma {:induction false} ReportIsComplete(deps: Dependencies, finished: seq<Id>, cycles: seq<seq<Id>>)
    requires Sound(DependsOn(deps), [], finished, cycles) && forall n :: n in deps ==> n in finished
    ensures forall c :: c in cycles ==> IsClosedWalk(DependsOn(deps), c)
    ensures Acyclic(Unreported(DependsOn(deps), cycles))
    ensures cycles == [] <==> Acyclic(DependsOn(deps))
  {
    hide IsWalk, IsClosedWalk, SuccessorsFirst, Unreported, Acyclic, DependsOn;
    NoCycleIsMissed(deps, finished, cycles);
    if cycles != [] {
      assert cycles[0] in cycles;
      HasCycle(DependsOn(deps), cycles[0]);
    }
  }

  lemma {:induction false} HasCycle(r: Relation, c: seq<Id>)
    requires IsClosedWalk(r, c)
    ensures !Acyclic(r)
  {
  }
}
