/** The selection and worklist closure inside `write_artifacts_to`. */
module RegistryClosure {
  import opened Basics
  import opened Ids
  import opened Registry

  /** An artifact that could be registered; `level` is its importance as a number, 0 the highest. */
  datatype Candidate = Candidate(draft: Draft, level: int)

  /** The artifacts selected by importance, in order. */
  function Roots(all: seq<Candidate>, minLevel: int): (roots: seq<Draft>)
    ensures forall d :: d in roots ==> exists c :: c in all && c.draft == d && c.level <= minLevel
    decreases |all|
  {
    if all == [] then []
    else
      var last := all[|all| - 1];
      var before := Roots(all[..|all| - 1], minLevel);
      if last.level <= minLevel then before + [last.draft] else before
  }

  /** Each artifact is selected or not by its own level; order and repetitions are kept. */
  lemma {:induction false} RootsAre(a: seq<Candidate>, c: Candidate, b: seq<Candidate>, minLevel: int)
    ensures Roots(a + [c] + b, minLevel)
         == Roots(a, minLevel) + (if c.level <= minLevel then [c.draft] else []) + Roots(b, minLevel)
    decreases |b|
  {
    var all := a + [c] + b;
    if b == [] {
      assert all[..|all| - 1] == a;
    } else {
      RootsAre(a, c, b[..|b| - 1], minLevel);
      assert all[..|all| - 1] == a + [c] + b[..|b| - 1];
    }
  }

  /** `next((e for e in all if e["id"] == id), None)`. */
  function FirstWithId(all: seq<Candidate>, id: Id): (r: Option<Draft>)
    ensures r.Some? ==> r.value.id == id && exists c :: c in all && c.draft == r.value
    ensures r.None? <==> forall c :: c in all ==> c.draft.id != id
  {
    if all == [] then None
    else if all[0].draft.id == id then Some(all[0].draft)
    else FirstWithId(all[1..], id)
  }

  ghost predicate IsFirstWithId(all: seq<Candidate>, id: Id, d: Draft, i: nat) {
    && i < |all| && all[i].draft == d && d.id == id
    && forall j :: 0 <= j < i ==> all[j].draft.id != id
  }

  /** What is found for an id is the first artifact that has it. */
  lemma {:induction false} FoundIsFirst(all: seq<Candidate>, id: Id, d: Draft)
    ensures FirstWithId(all, id) == Some(d) <==> exists i: nat :: IsFirstWithId(all, id, d, i)
  {
    if all != [] {
      if all[0].draft.id == id {
        assert FirstWithId(all, id) == Some(d) ==> IsFirstWithId(all, id, d, 0);
      } else {
        FoundIsFirst(all[1..], id, d);
        if i: nat :| IsFirstWithId(all[1..], id, d, i) {
          assert IsFirstWithId(all, id, d, i + 1);
        }
        if i: nat :| IsFirstWithId(all, id, d, i) {
          assert IsFirstWithId(all[1..], id, d, i - 1);
        }
      }
    }
  }

  predicate Available(all: seq<Candidate>, id: Id) {
    FirstWithId(all, id).Some?
  }

  /** `ids` holds the available inputs of `d`. */
  ghost predicate HoldsInputs(all: seq<Candidate>, ids: set<Id>, d: Draft) {
    forall x :: x in d.inputs && Available(all, x) ==> x in ids
  }

  /** `d` is an artifact the closure works through: a root, or the one an id stands for. */
  ghost predicate Active(all: seq<Candidate>, roots: seq<Draft>, ids: set<Id>, d: Draft) {
    d in roots || (d.id in ids && FirstWithId(all, d.id) == Some(d) && forall r :: r in roots ==> r.id != d.id)
  }

  /** `ids` holds the roots' ids and, with every artifact worked through, its available inputs. */
  ghost predicate IsClosedUnder(all: seq<Candidate>, roots: seq<Draft>, ids: set<Id>) {
    && (forall r :: r in roots ==> r.id in ids)
    && forall d :: Active(all, roots, ids, d) ==> HoldsInputs(all, ids, d)
  }

  ghost predicate IsLeastClosure(all: seq<Candidate>, roots: seq<Draft>, ids: set<Id>) {
    && IsClosedUnder(all, roots, ids)
    && forall other :: IsClosedUnder(all, roots, other) ==> ids <= other
  }

  /** A dict together with its insertion order. */
  ghost predicate InOrder(registered: map<Id, Draft>, order: seq<Id>) {
    && (forall id :: id in order <==> id in registered)
    && (forall i, j :: 0 <= i < j < |order| ==> order[i] != order[j])
    && forall id :: id in registered ==> registered[id].id == id
  }

  /** `d` is the last root with its id. */
  ghost predicate IsLastRoot(roots: seq<Draft>, d: Draft, i: nat) {
    i < |roots| && roots[i] == d && forall j :: i < j < |roots| ==> roots[j].id != d.id
  }

  ghost predicate AreLastRoots(roots: seq<Draft>, registered: map<Id, Draft>) {
    forall id :: id in registered ==> exists i: nat :: IsLastRoot(roots, registered[id], i)
  }

  /** Id `x` occurs among the roots before the first occurrence of `y`. */
  ghost predicate SeenBefore(roots: seq<Draft>, x: Id, y: Id) {
    exists p :: 0 <= p < |roots| && roots[p].id == x && forall q :: 0 <= q <= p ==> roots[q].id != y
  }

  /** `order` lists ids of roots, in the order in which they first occur. */
  ghost predicate RootOrder(roots: seq<Draft>, order: seq<Id>) {
    forall m, n :: 0 <= m < n < |order| ==> SeenBefore(roots, order[m], order[n])
  }

  lemma {:induction false} LastRootsMore(roots: seq<Draft>, r: Draft, registered: map<Id, Draft>)
    requires AreLastRoots(roots, registered) && forall id :: id in registered ==> registered[id].id == id
    ensures AreLastRoots(roots + [r], registered[r.id := r])
  {
    var more := registered[r.id := r];
    forall id | id in more
      ensures exists i: nat :: IsLastRoot(roots + [r], more[id], i)
    {
      if id == r.id {
        assert IsLastRoot(roots + [r], r, |roots|);
      } else {
        var i: nat :| IsLastRoot(roots, registered[id], i);
        assert IsLastRoot(roots + [r], registered[id], i);
      }
    }
  }

  lemma {:induction false} RootOrderMore(roots: seq<Draft>, r: Draft, order: seq<Id>)
    requires RootOrder(roots, order) && r.id !in order
    requires forall id :: id in order <==> exists x :: x in roots && x.id == id
    ensures RootOrder(roots + [r], order + [r.id])
  {
    RootOrderKept(roots, r, order);
    hide RootOrder, SeenBefore;
    forall id | id in order
      ensures SeenBefore(roots + [r], id, r.id)
    {
      NewIsLast(roots, r, id);
    }
    RootOrderExtends(roots + [r], order, r.id);
  }

  lemma {:induction false} RootOrderExtends(roots: seq<Draft>, order: seq<Id>, id: Id)
    requires RootOrder(roots, order) && forall x :: x in order ==> SeenBefore(roots, x, id)
    ensures RootOrder(roots, order + [id])
  {
    hide SeenBefore;
  }

  lemma {:induction false} NewIsLast(roots: seq<Draft>, r: Draft, id: Id)
    requires (exists x :: x in roots && x.id == id) && forall x :: x in roots ==> x.id != r.id
    ensures SeenBefore(roots + [r], id, r.id)
  {
    var x :| x in roots && x.id == id;
    var p :| 0 <= p < |roots| && roots[p] == x;
    assert (roots + [r])[p].id == id && forall q :: 0 <= q <= p ==> (roots + [r])[q] == roots[q] && roots[q] in roots;
  }

  lemma {:induction false} RootOrderKept(roots: seq<Draft>, r: Draft, order: seq<Id>)
    requires RootOrder(roots, order)
    ensures RootOrder(roots + [r], order)
  {
    forall x, y | SeenBefore(roots, x, y)
      ensures SeenBefore(roots + [r], x, y)
    {
      var p :| 0 <= p < |roots| && roots[p].id == x && forall q :: 0 <= q <= p ==> roots[q].id != y;
      assert (roots + [r])[p].id == x && forall q :: 0 <= q <= p ==> (roots + [r])[q] == roots[q];
    }
    hide SeenBefore;
  }

  /** `{e["id"]: e for e in roots}`: the last root of an id is kept, where the id first occurs. */
  method RegisterRoots(roots: seq<Draft>) returns (registered: map<Id, Draft>, order: seq<Id>)
    ensures InOrder(registered, order)
    ensures forall id :: id in registered <==> exists r :: r in roots && r.id == id
    ensures forall id :: id in registered ==> registered[id] in roots
    ensures AreLastRoots(roots, registered) && RootOrder(roots, order)
    ensures forall r :: r in roots ==> r.id in order
  {
    hide AreLastRoots, RootOrder;
    registered, order := map[], [];
    NoRoots();
    for i := 0 to |roots|
      invariant InOrder(registered, order)
      invariant forall id :: id in registered <==> exists r :: r in roots[..i] && r.id == id
      invariant forall id :: id in registered ==> registered[id] in roots
      invariant AreLastRoots(roots[..i], registered) && RootOrder(roots[..i], order)
    {
      assert roots[..i + 1] == roots[..i] + [roots[i]];
      LastRootsMore(roots[..i], roots[i], registered);
      RootOrderKept(roots[..i], roots[i], order);
      if roots[i].id !in registered {
        RootOrderMore(roots[..i], roots[i], order);
        order := order + [roots[i].id];
      }
      registered := registered[roots[i].id := roots[i]];
    }
    assert roots[..|roots|] == roots;
  }

  lemma {:induction false} NoRoots()
    ensures AreLastRoots([], map[]) && RootOrder([], [])
  {
  }

  /** An id stands for the last root that has it, or else for the first artifact that has it. */
  ghost predicate StandsFor(all: seq<Candidate>, roots: seq<Draft>, d: Draft) {
    || (exists i: nat :: IsLastRoot(roots, d, i))
    || ((forall r :: r in roots ==> r.id != d.id) && exists i: nat :: IsFirstWithId(all, d.id, d, i))
  }

  ghost predicate AllStand(all: seq<Candidate>, roots: seq<Draft>, registered: map<Id, Draft>) {
    forall id :: id in registered ==> StandsFor(all, roots, registered[id])
  }

  /** The ids of the roots come first, in their order. */
  ghost predicate RootsComeFirst(roots: seq<Draft>, order: seq<Id>) {
    exists n: nat :: n <= |order| && RootOrder(roots, order[..n]) && forall r :: r in roots ==> r.id in order[..n]
  }

  lemma {:induction false} RootsStand(all: seq<Candidate>, roots: seq<Draft>, registered: map<Id, Draft>,
                                      order: seq<Id>)
    requires AreLastRoots(roots, registered) && RootOrder(roots, order)
    requires forall r :: r in roots ==> r.id in order
    ensures AllStand(all, roots, registered) && RootsComeFirst(roots, order)
  {
    hide IsLastRoot, RootOrder;
    assert order[..|order|] == order;
  }

  lemma {:induction false} StandMore(all: seq<Candidate>, roots: seq<Draft>, registered: map<Id, Draft>,
                                     order: seq<Id>, id: Id, found: Draft)
    requires AllStand(all, roots, registered) && RootsComeFirst(roots, order)
    requires id !in registered && FirstWithId(all, id) == Some(found)
    requires forall r :: r in roots ==> r.id in registered
    ensures AllStand(all, roots, registered[id := found]) && RootsComeFirst(roots, order + [id])
  {
    FoundIsFirst(all, id, found);
    hide IsLastRoot, IsFirstWithId, RootOrder;
    var n: nat :| n <= |order| && RootOrder(roots, order[..n]) && forall r :: r in roots ==> r.id in order[..n];
    assert (order + [id])[..n] == order[..n];
  }

  ghost function AllIds(all: seq<Candidate>): set<Id> {
    set c | c in all :: c.draft.id
  }

  /** Ids reached so far are registered artifacts, and belong to every closed set. */
  ghost predicate Reached(all: seq<Candidate>, roots: seq<Draft>, registered: map<Id, Draft>) {
    && (forall r :: r in roots ==> r.id in registered)
    && (forall id :: id in registered ==> Active(all, roots, registered.Keys, registered[id]))
    && forall other :: IsClosedUnder(all, roots, other) ==> registered.Keys <= other
  }

  /** Every artifact worked through is on the worklist or has its inputs registered, `except` excepted. */
  ghost predicate Accounted(all: seq<Candidate>, roots: seq<Draft>, ids: set<Id>, worklist: seq<Draft>,
                            except: set<Draft>) {
    && (forall d :: d in worklist ==> Active(all, roots, ids, d))
    && forall d :: Active(all, roots, ids, d) ==> d in worklist || d in except || HoldsInputs(all, ids, d)
  }

  lemma {:induction false} StartIsReached(all: seq<Candidate>, roots: seq<Draft>, registered: map<Id, Draft>)
    requires forall id :: id in registered <==> exists r :: r in roots && r.id == id
    requires forall id :: id in registered ==> registered[id] in roots
    ensures Reached(all, roots, registered) && Accounted(all, roots, registered.Keys, roots, {})
  {
    hide HoldsInputs, FirstWithId;
  }

  lemma {:induction false} RootsRegistered(all: seq<Candidate>, roots: seq<Draft>, registered: map<Id, Draft>)
    requires Reached(all, roots, registered)
    ensures forall r :: r in roots ==> r.id in registered
  {
  }

  /** Registering an available input of an active artifact keeps the invariant. */
  lemma {:induction false} Register(all: seq<Candidate>, roots: seq<Draft>, registered: map<Id, Draft>,
                                    worklist: seq<Draft>,
                 current: Draft, id: Id, found: Draft)
    requires Reached(all, roots, registered)
    requires Accounted(all, roots, registered.Keys, worklist, {current})
    requires Active(all, roots, registered.Keys, current) && id in current.inputs
    requires id !in registered && FirstWithId(all, id) == Some(found)
    ensures Reached(all, roots, registered[id := found])
    ensures Accounted(all, roots, registered[id := found].Keys, worklist + [found], {current})
    ensures Active(all, roots, registered[id := found].Keys, current)
  {
    var more := registered[id := found];
    assert more.Keys == registered.Keys + {id};
    assert forall d :: HoldsInputs(all, registered.Keys, d) ==> HoldsInputs(all, more.Keys, d);
    assert forall d :: Active(all, roots, more.Keys, d) ==> Active(all, roots, registered.Keys, d) || d == found;
    forall other | IsClosedUnder(all, roots, other)
      ensures more.Keys <= other
    {
      assert Active(all, roots, other, current);
      assert HoldsInputs(all, other, current);
    }
  }

  lemma {:induction false} PopWorklist(all: seq<Candidate>, roots: seq<Draft>, ids: set<Id>, worklist: seq<Draft>)
    requires worklist != [] && Accounted(all, roots, ids, worklist, {})
    ensures Active(all, roots, ids, worklist[|worklist| - 1])
    ensures Accounted(all, roots, ids, worklist[..|worklist| - 1], {worklist[|worklist| - 1]})
  {
    hide Active, HoldsInputs;
    var last := worklist[|worklist| - 1];
    assert forall d :: d in worklist <==> d in worklist[..|worklist| - 1] || d == last;
  }

  lemma {:induction false} EmptyWorklistCloses(all: seq<Candidate>, roots: seq<Draft>, registered: map<Id, Draft>)
    requires Reached(all, roots, registered) && Accounted(all, roots, registered.Keys, [], {})
    ensures IsLeastClosure(all, roots, registered.Keys)
    ensures forall id :: id in registered ==> Active(all, roots, registered.Keys, registered[id])
  {
    hide Active, HoldsInputs;
  }

  /** The worklist loop. */
  method Resolve(all: seq<Candidate>, roots: seq<Draft>) returns (registered: map<Id, Draft>, order: seq<Id>)
    ensures InOrder(registered, order)
    ensures IsLeastClosure(all, roots, registered.Keys)
    ensures forall id :: id in registered ==> Active(all, roots, registered.Keys, registered[id])
    ensures AllStand(all, roots, registered) && RootsComeFirst(roots, order)
  {
    hide Active, HoldsInputs, FirstWithId, Reached, Accounted, InOrder, IsLeastClosure, AllStand, RootsComeFirst;
    hide AreLastRoots, RootOrder;
    registered, order := RegisterRoots(roots);
    StartIsReached(all, roots, registered);
    RootsStand(all, roots, registered, order);
    var worklist := roots;
    while worklist != []
      invariant InOrder(registered, order) && Reached(all, roots, registered)
      invariant AllStand(all, roots, registered) && RootsComeFirst(roots, order)
      invariant Accounted(all, roots, registered.Keys, worklist, {})
      decreases AllIds(all) - registered.Keys, |worklist|
    {
      PopWorklist(all, roots, registered.Keys, worklist);
      var current := worklist[|worklist| - 1];
      worklist := worklist[..|worklist| - 1];
      registered, order, worklist := RegisterInputs(all, roots, current, registered, order, worklist);
    }
    EmptyWorklistCloses(all, roots, registered);
  }

  /** One pass of the loop: the inputs of the popped artifact. */
  method RegisterInputs(all: seq<Candidate>, roots: seq<Draft>, current: Draft, registered0: map<Id, Draft>,
                        order0: seq<Id>, worklist0: seq<Draft>)
    returns (registered: map<Id, Draft>, order: seq<Id>, worklist: seq<Draft>)
    requires InOrder(registered0, order0) && Reached(all, roots, registered0)
    requires AllStand(all, roots, registered0) && RootsComeFirst(roots, order0)
    requires Active(all, roots, registered0.Keys, current)
    requires Accounted(all, roots, registered0.Keys, worklist0, {current})
    ensures InOrder(registered, order) && Reached(all, roots, registered)
    ensures AllStand(all, roots, registered) && RootsComeFirst(roots, order)
    ensures Accounted(all, roots, registered.Keys, worklist, {})
    ensures registered0.Keys <= registered.Keys
    ensures registered.Keys == registered0.Keys ==> worklist == worklist0
    ensures registered.Keys != registered0.Keys ==> (registered.Keys - registered0.Keys) * AllIds(all) != {}
  {
    registered, order, worklist := registered0, order0, worklist0;
    hide Active, Reached, Accounted, AllStand, RootsComeFirst;
    for k := 0 to |current.inputs|
      invariant InOrder(registered, order) && Reached(all, roots, registered)
      invariant AllStand(all, roots, registered) && RootsComeFirst(roots, order)
      invariant Active(all, roots, registered.Keys, current)
      invariant Accounted(all, roots, registered.Keys, worklist, {current})
      invariant registered0.Keys <= registered.Keys
      invariant registered.Keys == registered0.Keys ==> worklist == worklist0
      invariant registered.Keys != registered0.Keys ==> (registered.Keys - registered0.Keys) * AllIds(all) != {}
      invariant forall j :: 0 <= j < k && Available(all, current.inputs[j]) ==> current.inputs[j] in registered
    {
      var id := current.inputs[k];
      if id !in registered {
        var found := FirstWithId(all, id);
        if found.Some? {
          Register(all, roots, registered, worklist, current, id, found.value);
          RootsRegistered(all, roots, registered);
          StandMore(all, roots, registered, order, id, found.value);
          assert id in (registered[id := found.value].Keys - registered0.Keys) * AllIds(all);
          registered := registered[id := found.value];
          order := order + [id];
          worklist := worklist + [found.value];
        }
      }
    }
    InputsDone(all, roots, registered.Keys, worklist, current);
  }

  lemma {:induction false} InputsDone(all: seq<Candidate>, roots: seq<Draft>, ids: set<Id>, worklist: seq<Draft>,
                                      current: Draft)
    requires Accounted(all, roots, ids, worklist, {current})
    requires forall j :: 0 <= j < |current.inputs| && Available(all, current.inputs[j]) ==> current.inputs[j] in ids
    ensures Accounted(all, roots, ids, worklist, {})
  {
    assert HoldsInputs(all, ids, current);
  }

  ghost function RegisteredIds(registry: seq<Entry>): set<Id> {
    set e | e in registry :: e.id
  }

  ghost function IdsOf(registry: seq<Entry>): seq<Id> {
    seq(|registry|, i requires 0 <= i < |registry| => registry[i].id)
  }

  /** `e` is the entry of `d`, with exactly the available ones of its inputs recorded. */
  ghost predicate Records(all: seq<Candidate>, e: Entry, d: Draft) {
    && e.id == d.id && e.path == d.path && e.sha256 == d.sha256
    && forall x :: (exists ref :: ref in e.dependencies && ref.id == x) <==> x in d.inputs && Available(all, x)
  }

  /**
   The selection, closure and linking of `write_artifacts_to`: the registry holds exactly the least set
   of ids that contains the selected artifacts and is closed under available inputs, selected artifacts
   first; an entry is that of the last selected artifact with its id, or else of the first artifact with
   it; it records exactly the available inputs, and the registry passes the auditor's reference check.
   */
  method WriteRegistry(all: seq<Candidate>, minLevel: int) returns (registry: seq<Entry>)
    ensures Closed(registry)
    ensures IsLeastClosure(all, Roots(all, minLevel), RegisteredIds(registry))
    ensures forall e :: e in registry ==>
              exists d :: StandsFor(all, Roots(all, minLevel), d) && Records(all, e, d)
    ensures RootsComeFirst(Roots(all, minLevel), IdsOf(registry))
  {
    hide Active, HoldsInputs, FirstWithId, IsLeastClosure, InOrder, Closed, DistinctIds, Linked, ById, Records;
    hide StandsFor, RootsComeFirst;
    var roots := SelectRoots(all, minLevel);
    var registered, order := Resolve(all, roots);
    var drafts := InsertionOrder(registered, order);
    registry := LinkDependencies(drafts);
    RegistryRecords(all, roots, registered, drafts, registry);
    LinkedIds(drafts, registry);
    assert IdsOf(registry) == order;
  }

  lemma {:induction false} LinkedIds(drafts: seq<Draft>, registry: seq<Entry>)
    requires |registry| == |drafts| && forall i :: 0 <= i < |drafts| ==> registry[i] == Linked(ById(drafts), drafts[i])
    ensures forall i :: 0 <= i < |drafts| ==> registry[i].id == drafts[i].id
  {
  }

  /** `list(registered.values())`. */
  method InsertionOrder(registered: map<Id, Draft>, order: seq<Id>) returns (drafts: seq<Draft>)
    requires InOrder(registered, order)
    ensures DistinctIds(drafts) && ById(drafts) == registered
    ensures |drafts| == |order| && forall j :: 0 <= j < |order| ==> drafts[j].id == order[j]
  {
    drafts := [];
    for i := 0 to |order|
      invariant |drafts| == i
      invariant forall j :: 0 <= j < i ==> drafts[j] == registered[order[j]]
    {
      drafts := drafts + [registered[order[i]]];
    }
    DraftsAreRegistered(registered, order, drafts);
  }

  method SelectRoots(all: seq<Candidate>, minLevel: int) returns (roots: seq<Draft>)
    ensures roots == Roots(all, minLevel)
  {
    roots := [];
    for i := 0 to |all|
      invariant roots == Roots(all[..i], minLevel)
    {
      assert all[..i + 1][..i] == all[..i];
      if all[i].level <= minLevel {
        roots := roots + [all[i].draft];
      }
    }
    assert all[..|all|] == all;
  }

  lemma {:induction false} DraftsAreRegistered(registered: map<Id, Draft>, order: seq<Id>, drafts: seq<Draft>)
    requires InOrder(registered, order) && |drafts| == |order|
    requires forall j :: 0 <= j < |order| ==> drafts[j] == registered[order[j]]
    ensures DistinctIds(drafts) && ById(drafts) == registered
  {
    forall id
      ensures id in ById(drafts) <==> id in registered
      ensures id in registered ==> ById(drafts)[id] == registered[id]
    {
      ByIdHolds(drafts, id);
      hide ById;
      if id in registered {
        var j :| 0 <= j < |order| && order[j] == id;
        assert drafts[j] in drafts;
      }
    }
  }

  lemma {:induction false} RegistryRecords(all: seq<Candidate>, roots: seq<Draft>, registered: map<Id, Draft>,
                                           drafts: seq<Draft>, registry: seq<Entry>)
    requires DistinctIds(drafts) && ById(drafts) == registered && |registry| == |drafts|
    requires forall i :: 0 <= i < |drafts| ==> registry[i] == Linked(registered, drafts[i])
    requires forall id :: id in registered ==> Active(all, roots, registered.Keys, registered[id])
    requires forall r :: r in roots ==> exists c :: c in all && c.draft == r
    requires AllStand(all, roots, registered) && IsLeastClosure(all, roots, registered.Keys)
    ensures RegisteredIds(registry) == registered.Keys
    ensures forall e :: e in registry ==> exists d :: StandsFor(all, roots, d) && Records(all, e, d)
  {
    hide Active, Records, IsClosedUnder, Available, References, StandsFor;
    forall id
      ensures id in RegisteredIds(registry) <==> id in registered
      ensures id in registered ==> registered[id].id == id
    {
      ByIdHolds(drafts, id);
      if id in registered {
        var j :| 0 <= j < |drafts| && drafts[j] == registered[id];
        assert registry[j] in registry;
      }
    }
    forall e | e in registry
      ensures exists d :: StandsFor(all, roots, d) && Records(all, e, d)
    {
      var i :| 0 <= i < |registry| && registry[i] == e;
      DraftIsRegistered(drafts, i);
      EntryRecords(all, roots, registered, drafts, i);
    }
  }

  lemma {:induction false} DraftIsRegistered(drafts: seq<Draft>, i: nat)
    requires DistinctIds(drafts) && i < |drafts|
    ensures drafts[i].id in ById(drafts) && ById(drafts)[drafts[i].id] == drafts[i]
  {
    ByIdHolds(drafts, drafts[i].id);
    assert drafts[i] in drafts;
  }

  lemma {:induction false} ActiveIsAvailable(all: seq<Candidate>, roots: seq<Draft>, ids: set<Id>, d: Draft)
    requires Active(all, roots, ids, d)
    requires forall r :: r in roots ==> exists c :: c in all && c.draft == r
    ensures Available(all, d.id)
  {
    if d in roots {
      var c :| c in all && c.draft == d;
    }
  }

  /** Being active, a registered artifact has its available inputs registered, so they are recorded. */
  lemma {:induction false} EntryRecords(all: seq<Candidate>, roots: seq<Draft>, registered: map<Id, Draft>,
                                        drafts: seq<Draft>, i: nat)
    requires i < |drafts| && ById(drafts) == registered && drafts[i].id in registered
    requires registered[drafts[i].id] == drafts[i]
    requires forall id :: id in registered ==> registered[id].id == id
    requires forall id :: id in registered ==> Active(all, roots, registered.Keys, registered[id])
    requires forall r :: r in roots ==> exists c :: c in all && c.draft == r
    requires IsClosedUnder(all, roots, registered.Keys)
    ensures Records(all, Linked(registered, drafts[i]), drafts[i])
  {
    hide Active, FirstWithId, Available;
    var d := drafts[i];
    var e := Linked(registered, d);
    assert HoldsInputs(all, registered.Keys, d);
    forall x
      ensures (exists ref :: ref in e.dependencies && ref.id == x) <==> x in d.inputs && Available(all, x)
    {
      if x in registered {
        ActiveIsAvailable(all, roots, registered.Keys, registered[x]);
        if x in d.inputs {
          assert Reference(x, registered[x].sha256) in e.dependencies;
        }
      }
    }
  }
}
