/** The registry made of merged artifacts: `_logical_id_entries` and `_build_registry`. */
module RegistryBuilder {
  import opened Basics
  import opened Ids
  import opened Registry
  import opened MergePlanner

  datatype BuildError = ConflictingContent(id: Id) | MissingAfterMerge(path: Id) | Undeclared(id: Id)

  /** The configured input dependencies of an artifact id; None for an id that is not declared. */
  type Inputs = Id -> Option<seq<Id>>

  /** Two actions give one logical id different content. */
  ghost predicate Contradictory(actions: seq<Action>) {
    exists a, b :: a in actions && b in actions && a.info.logicalId == b.info.logicalId && a.info.hash != b.info.hash
  }

  /** `a` has the least path among the actions for its logical id. */
  ghost predicate IsFirstForId(actions: seq<Action>, a: Action) {
    && a in actions
    && forall b :: b in actions && b.info.logicalId == a.info.logicalId ==> b == a || Less(a.info.rel, b.info.rel)
  }

  ghost predicate PathOrder(actions: seq<Action>) {
    forall i, j :: 0 <= i < j < |actions| ==> Less(actions[i].info.rel, actions[j].info.rel)
  }

  ghost predicate FirstsById(actions: seq<Action>, byId: map<Id, Action>) {
    && (forall id :: id in byId <==> exists a :: a in actions && a.info.logicalId == id)
    && (forall id :: id in byId ==> byId[id].info.logicalId == id && IsFirstForId(actions, byId[id]))
    && forall a :: a in actions ==> byId[a.info.logicalId].info.hash == a.info.hash
  }

  lemma {:induction false} LaterIsGreater(actions: seq<Action>, i: nat, a: Action)
    requires PathOrder(actions) && i < |actions| && a in actions[..i]
    ensures a in actions && Less(a.info.rel, actions[i].info.rel)
  {
    var j :| 0 <= j < i && actions[j] == a;
  }

  /** The first action that gives its id other content than an action before it. */
  ghost predicate IsFirstContradiction(actions: seq<Action>, i: nat) {
    i < |actions| && !Contradictory(actions[..i]) && Contradictory(actions[..i + 1])
  }

  lemma {:induction false} FirstsAgree(actions: seq<Action>, byId: map<Id, Action>)
    requires FirstsById(actions, byId)
    ensures !Contradictory(actions)
  {
    hide IsFirstForId;
  }

  lemma {:induction false} ContradictsFirst(actions: seq<Action>, i: nat, byId: map<Id, Action>)
    requires i < |actions| && FirstsById(actions[..i], byId)
    requires actions[i].info.logicalId in byId && byId[actions[i].info.logicalId].info.hash != actions[i].info.hash
    ensures IsFirstContradiction(actions, i) && Contradictory(actions)
  {
    FirstsAgree(actions[..i], byId);
    var a, b := byId[actions[i].info.logicalId], actions[i];
    assert a in actions[..i] && a.info.logicalId == b.info.logicalId;
    hide FirstsById, IsFirstForId;
    assert actions[..i + 1] == actions[..i] + [b];
    assert a in actions[..i + 1] && b in actions[..i + 1] && a in actions && b in actions;
  }

  /** One more action: it is its id's first, or agrees with the one that is. */
  lemma {:induction false} FirstsByIdMore(actions: seq<Action>, i: nat, byId: map<Id, Action>)
    requires PathOrder(actions) && i < |actions| && FirstsById(actions[..i], byId)
    ensures var a := actions[i];
            if a.info.logicalId !in byId then FirstsById(actions[..i + 1], byId[a.info.logicalId := a])
            else byId[a.info.logicalId].info.hash == a.info.hash ==> FirstsById(actions[..i + 1], byId)
  {
    hide Less, PathOrder;
    assert actions[..i + 1] == actions[..i] + [actions[i]];
    forall b | b in actions[..i]
      ensures Less(b.info.rel, actions[i].info.rel)
    {
      LaterIsGreater(actions, i, b);
    }
  }

  /** `_logical_id_entries` on actions in path order, as the planner returns them. */
  method LogicalIdEntries(actions: seq<Action>) returns (r: Result<map<Id, Action>, BuildError>)
    requires PathOrder(actions)
    ensures r.Err? <==> Contradictory(actions)
    ensures r.Err? ==> exists i: nat :: IsFirstContradiction(actions, i)
                                   && r.error == ConflictingContent(actions[i].info.logicalId)
    ensures r.Ok? ==> FirstsById(actions, r.value)
  {
    hide Less, PathOrder, Contradictory, IsFirstContradiction, IsFirstForId;
    var byId: map<Id, Action> := map[];
    for i := 0 to |actions|
      invariant FirstsById(actions[..i], byId)
    {
      var a := actions[i];
      FirstsByIdMore(actions, i, byId);
      if a.info.logicalId !in byId {
        byId := byId[a.info.logicalId := a];
      } else if byId[a.info.logicalId].info.hash != a.info.hash {
        ContradictsFirst(actions, i, byId);
        return Err(ConflictingContent(a.info.logicalId));
      }
    }
    assert actions[..|actions|] == actions;
    FirstsAgree(actions, byId);
    return Ok(byId);
  }

  /** What prevents an action's file from being registered. */
  function Failure(files: Files, inputs: Inputs, a: Action): Option<BuildError> {
    if a.info.dest !in files then Some(MissingAfterMerge(a.info.dest))
    else if inputs(a.info.logicalId).None? then Some(Undeclared(a.info.logicalId))
    else None
  }

  /** The draft of one logical id. */
  method DraftOf(sha: Hash, files: Files, inputs: Inputs, id: Id, a: Action) returns (r: Result<Draft, BuildError>)
    requires a.info.logicalId == id
    ensures var failure := Failure(files, inputs, a);
            if failure.Some? then r == Err(failure.value)
            else r == Ok(Draft(id, a.info.rel, sha(files[a.info.dest]), inputs(id).value))
  {
    if a.info.dest !in files {
      return Err(MissingAfterMerge(a.info.dest));
    }
    var declared := inputs(id);
    if declared.None? {
      return Err(Undeclared(id));
    }
    return Ok(Draft(id, a.info.rel, sha(files[a.info.dest]), declared.value));
  }

  /** `e` registers the merged file of `a`, with exactly the registered ones of its configured inputs. */
  ghost predicate Registers(sha: Hash, files: Files, inputs: Inputs, ids: set<Id>, e: Entry, a: Action) {
    && e.id == a.info.logicalId && e.path == a.info.rel
    && a.info.dest in files && e.sha256 == sha(files[a.info.dest])
    && inputs(e.id).Some?
    && forall x :: (exists ref :: ref in e.dependencies && ref.id == x) <==> x in inputs(e.id).value && x in ids
  }

  ghost predicate IsRegistryOf(sha: Hash, files: Files, inputs: Inputs, actions: seq<Action>, registry: seq<Entry>) {
    var ids := set a | a in actions :: a.info.logicalId;
    && (forall i, j :: 0 <= i < j < |registry| ==> Less(registry[i].id, registry[j].id))
    && (forall id :: id in ids ==> exists e :: e in registry && e.id == id)
    && forall e :: e in registry ==>
         exists a :: IsFirstForId(actions, a) && Registers(sha, files, inputs, ids, e, a)
  }

  /** Of the actions that are registered, the one with the least id that fails. */
  ghost predicate IsFirstFailure(files: Files, inputs: Inputs, actions: seq<Action>, a: Action) {
    && IsFirstForId(actions, a) && Failure(files, inputs, a).Some?
    && forall b ::
         IsFirstForId(actions, b) && Less(b.info.logicalId, a.info.logicalId) ==> Failure(files, inputs, b).None?
  }

  /**
   `_build_registry`: one entry per logical id, in id order, for the least path that carries it, with the
   hash of the merged file. The result passes the auditor's checks AUD-5a, AUD-5c and AUD-6a. Building fails
   exactly for contradictory content and, without it, for an action that cannot be registered.
   */
  method BuildRegistry(sha: Hash, files: Files, inputs: Inputs, actions: seq<Action>)
    returns (r: Result<seq<Entry>, BuildError>)
    requires PathOrder(actions)
    ensures r.Ok? <==> && !Contradictory(actions)
                       && forall a :: IsFirstForId(actions, a) ==> Failure(files, inputs, a).None?
    ensures r.Ok? ==> IsRegistryOf(sha, files, inputs, actions, r.value)
    ensures r.Ok? ==> Closed(r.value) && !HasPathCollision(r.value)
    ensures r.Err? && Contradictory(actions) ==>
              exists i: nat ::
                IsFirstContradiction(actions, i) && r.error == ConflictingContent(actions[i].info.logicalId)
    ensures r.Err? && !Contradictory(actions) ==>
              exists a :: IsFirstFailure(files, inputs, actions, a) && Failure(files, inputs, a) == Some(r.error)
  {
    hide Less, PathOrder, Contradictory, IsFirstContradiction, IsFirstForId, IsFirstFailure, Failure;
    hide Closed, IsRegistryOf, HasPathCollision, IsDraftOf, Linked, Ascending, DistinctIds, ById;
    var byId :- LogicalIdEntries(actions);
    var ids := Sorted(byId.Keys);
    var drafts := DraftAll(sha, files, inputs, byId, ids);
    if drafts.Err? {
      ghost var i :| 0 <= i < |ids| && FailsFirst(files, inputs, byId, ids, i)
                     && Failure(files, inputs, byId[ids[i]]) == Some(drafts.error);
      FirstFailureOf(files, inputs, actions, byId, ids, i);
      return Err(drafts.error);
    }
    DraftIdsDistinct(sha, files, inputs, byId, ids, drafts.value);
    var registry := LinkDependencies(drafts.value);
    RegistryIsBuilt(sha, files, inputs, actions, byId, ids, drafts.value, registry);
    NoFailure(sha, files, inputs, actions, byId, ids, drafts.value);
    return Ok(registry);
  }

  /** Position `i` is the first whose action fails. */
  ghost predicate FailsFirst(files: Files, inputs: Inputs, byId: map<Id, Action>, ids: seq<Id>, i: nat)
    requires forall id :: id in ids ==> id in byId
  {
    && i < |ids| && Failure(files, inputs, byId[ids[i]]).Some?
    && forall j :: 0 <= j < i ==> Failure(files, inputs, byId[ids[j]]).None?
  }

  /** The drafts of the sorted ids; it stops at the first id without a merged file or a declaration. */
  method DraftAll(sha: Hash, files: Files, inputs: Inputs, byId: map<Id, Action>, ids: seq<Id>)
    returns (r: Result<seq<Draft>, BuildError>)
    requires forall id :: id in ids ==> id in byId && byId[id].info.logicalId == id
    ensures r.Ok? ==> |r.value| == |ids|
                      && forall i :: 0 <= i < |ids| ==> IsDraftOf(sha, files, inputs, byId, ids[i], r.value[i])
    ensures r.Err? ==> exists i :: 0 <= i < |ids| && FailsFirst(files, inputs, byId, ids, i)
                                   && Failure(files, inputs, byId[ids[i]]) == Some(r.error)
  {
    var drafts: seq<Draft> := [];
    for i := 0 to |ids|
      invariant |drafts| == i
      invariant forall j :: 0 <= j < i ==> IsDraftOf(sha, files, inputs, byId, ids[j], drafts[j])
      invariant forall j :: 0 <= j < i ==> Failure(files, inputs, byId[ids[j]]).None?
    {
      assert ids[i] in ids;
      var draft := DraftOf(sha, files, inputs, ids[i], byId[ids[i]]);
      if draft.Err? {
        assert FailsFirst(files, inputs, byId, ids, i);
        return Err(draft.error);
      }
      drafts := drafts + [draft.value];
    }
    return Ok(drafts);
  }

  /** The chosen action of an id is the one with the least path for it. */
  lemma {:induction false} ChosenIsFirst(actions: seq<Action>, byId: map<Id, Action>, a: Action)
    requires FirstsById(actions, byId) && IsFirstForId(actions, a)
    ensures a.info.logicalId in byId && byId[a.info.logicalId] == a
  {
    var b := byId[a.info.logicalId];
    LessTotal(a.info.rel, b.info.rel);
    hide Less;
  }

  lemma {:induction false} FirstFailureOf(files: Files, inputs: Inputs, actions: seq<Action>, byId: map<Id, Action>,
                                          ids: seq<Id>, i: nat)
    requires FirstsById(actions, byId) && Ascending(ids) && forall id :: id in ids <==> id in byId
    requires FailsFirst(files, inputs, byId, ids, i)
    ensures IsFirstFailure(files, inputs, actions, byId[ids[i]])
  {
    hide Less, IsFirstForId, Failure;
    assert ids[i] in ids;
    forall b | IsFirstForId(actions, b) && Less(b.info.logicalId, ids[i])
      ensures Failure(files, inputs, b).None?
    {
      ChosenIsFirst(actions, byId, b);
      var j :| 0 <= j < |ids| && ids[j] == b.info.logicalId;
      LessTotal(ids[j], ids[i]);
      assert j < i;
    }
  }

  lemma {:induction false} NoFailure(sha: Hash, files: Files, inputs: Inputs, actions: seq<Action>,
                                     byId: map<Id, Action>, ids: seq<Id>, drafts: seq<Draft>)
    requires FirstsById(actions, byId) && (forall id :: id in ids <==> id in byId) && |ids| == |drafts|
    requires forall i :: 0 <= i < |ids| ==> IsDraftOf(sha, files, inputs, byId, ids[i], drafts[i])
    ensures forall a :: IsFirstForId(actions, a) ==> Failure(files, inputs, a).None?
  {
    hide Less, IsFirstForId;
    forall a | IsFirstForId(actions, a)
      ensures Failure(files, inputs, a).None?
    {
      ChosenIsFirst(actions, byId, a);
      var i :| 0 <= i < |ids| && ids[i] == a.info.logicalId;
      assert IsDraftOf(sha, files, inputs, byId, ids[i], drafts[i]);
    }
  }

  ghost predicate IsDraftOf(sha: Hash, files: Files, inputs: Inputs, byId: map<Id, Action>, id: Id, d: Draft) {
    && id in byId && byId[id].info.dest in files && inputs(id).Some?
    && d == Draft(id, byId[id].info.rel, sha(files[byId[id].info.dest]), inputs(id).value)
  }

  lemma {:induction false} DraftIdsDistinct(sha: Hash, files: Files, inputs: Inputs, byId: map<Id, Action>,
                                            ids: seq<Id>, drafts: seq<Draft>)
    requires Ascending(ids) && |ids| == |drafts|
    requires forall i :: 0 <= i < |ids| ==> IsDraftOf(sha, files, inputs, byId, ids[i], drafts[i])
    ensures DistinctIds(drafts)
  {
    hide Less;
    forall i, j | 0 <= i < j < |ids|
      ensures drafts[i].id == ids[i] && drafts[j].id == ids[j] && ids[i] != ids[j]
    {
      assert IsDraftOf(sha, files, inputs, byId, ids[i], drafts[i]);
      assert IsDraftOf(sha, files, inputs, byId, ids[j], drafts[j]);
      LessTotal(ids[i], ids[j]);
    }
  }

  /** The setting of the lemmas below: drafts and entries made, id by id, from the chosen actions. */
  ghost predicate Built(sha: Hash, files: Files, inputs: Inputs, actions: seq<Action>, byId: map<Id, Action>,
                        ids: seq<Id>, drafts: seq<Draft>, registry: seq<Entry>) {
    && FirstsById(actions, byId)
    && Ascending(ids) && (forall id :: id in ids <==> id in byId)
    && |ids| == |drafts| == |registry|
    && (forall i :: 0 <= i < |ids| ==> IsDraftOf(sha, files, inputs, byId, ids[i], drafts[i]))
    && forall i :: 0 <= i < |ids| ==> registry[i] == Linked(ById(drafts), drafts[i])
  }

  lemma {:induction false} RegisteredIdsAre(sha: Hash, files: Files, inputs: Inputs, actions: seq<Action>,
                                            byId: map<Id, Action>, ids: seq<Id>, drafts: seq<Draft>,
                                            registry: seq<Entry>, id: Id)
    requires Built(sha, files, inputs, actions, byId, ids, drafts, registry)
    ensures id in ById(drafts) <==> exists a :: a in actions && a.info.logicalId == id
    ensures id in ById(drafts) ==> exists e :: e in registry && e.id == id
  {
    hide Less, IsFirstForId, ById, References;
    ByIdHolds(drafts, id);
    if id in byId {
      var i :| 0 <= i < |ids| && ids[i] == id;
      assert drafts[i] in drafts && registry[i] in registry;
    }
  }

  lemma {:induction false} EntryRegisters(sha: Hash, files: Files, inputs: Inputs, actions: seq<Action>,
                                          byId: map<Id, Action>, ids: seq<Id>, drafts: seq<Draft>,
                                          registry: seq<Entry>, i: nat)
    requires Built(sha, files, inputs, actions, byId, ids, drafts, registry) && i < |registry|
    ensures var all := set a | a in actions :: a.info.logicalId;
            ids[i] in byId && IsFirstForId(actions, byId[ids[i]])
            && Registers(sha, files, inputs, all, registry[i], byId[ids[i]])
  {
    var all := set a | a in actions :: a.info.logicalId;
    forall x
      ensures x in ById(drafts) <==> x in all
    {
      RegisteredIdsAre(sha, files, inputs, actions, byId, ids, drafts, registry, x);
    }
    hide Less, IsFirstForId, ById, References;
    assert IsDraftOf(sha, files, inputs, byId, ids[i], drafts[i]);
    var e := registry[i];
    assert e == Linked(ById(drafts), drafts[i]);
    forall x
      ensures (exists ref :: ref in e.dependencies && ref.id == x) <==> x in drafts[i].inputs && x in all
    {
      if x in drafts[i].inputs && x in all {
        assert Reference(x, ById(drafts)[x].sha256) in e.dependencies;
      }
    }
  }

  lemma {:induction false} NoPathCollision(sha: Hash, files: Files, inputs: Inputs, actions: seq<Action>,
                                           byId: map<Id, Action>, ids: seq<Id>, drafts: seq<Draft>,
                                           registry: seq<Entry>)
    requires Built(sha, files, inputs, actions, byId, ids, drafts, registry) && PathOrder(actions)
    ensures !HasPathCollision(registry)
  {
    forall i, j | 0 <= i < j < |registry| && registry[i].path == registry[j].path
      ensures registry[i].id == registry[j].id
    {
      EntryRegisters(sha, files, inputs, actions, byId, ids, drafts, registry, i);
      EntryRegisters(sha, files, inputs, actions, byId, ids, drafts, registry, j);
      hide Less, Built;
      var a, b := byId[ids[i]], byId[ids[j]];
      LessTotal(a.info.rel, b.info.rel);
      var k :| 0 <= k < |actions| && actions[k] == a;
      var l :| 0 <= l < |actions| && actions[l] == b;
      assert k == l;
    }
  }

  lemma {:induction false} RegistryIsBuilt(sha: Hash, files: Files, inputs: Inputs, actions: seq<Action>,
                                           byId: map<Id, Action>, ids: seq<Id>, drafts: seq<Draft>,
                                           registry: seq<Entry>)
    requires Built(sha, files, inputs, actions, byId, ids, drafts, registry) && PathOrder(actions)
    ensures IsRegistryOf(sha, files, inputs, actions, registry) && !HasPathCollision(registry)
  {
    NoPathCollision(sha, files, inputs, actions, byId, ids, drafts, registry);
    var all := set a | a in actions :: a.info.logicalId;
    forall i, j | 0 <= i < j < |registry|
      ensures Less(registry[i].id, registry[j].id)
    {
      assert IsDraftOf(sha, files, inputs, byId, ids[i], drafts[i]);
      assert IsDraftOf(sha, files, inputs, byId, ids[j], drafts[j]);
    }
    hide Less, IsFirstForId, Built, Registers;
    forall e | e in registry
      ensures exists a :: IsFirstForId(actions, a) && Registers(sha, files, inputs, all, e, a)
    {
      var i :| 0 <= i < |registry| && registry[i] == e;
      EntryRegisters(sha, files, inputs, actions, byId, ids, drafts, registry, i);
    }
    forall id | id in all
      ensures exists e :: e in registry && e.id == id
    {
      RegisteredIdsAre(sha, files, inputs, actions, byId, ids, drafts, registry, id);
    }
  }

  // ----- planning, applying and registering

  /** After a plan has been applied, every planned file is there with the planned hash. */
  lemma {:induction false} PlannedFileIsThere(sha: Hash, files: Files, root: Id, entries: seq<Collected>,
                                              actions: seq<Action>, a: Action)
    requires AllGood(sha, files, entries) && FitsFiles(sha, files, root, entries)
    requires IsPlan(sha, files, root, entries, actions) && a in actions
    ensures PathOrder(actions)
    ensures var after := Applied(files, actions);
            a.info.dest in after && sha(after[a.info.dest]) == a.info.hash
    ensures exists x :: x in entries && x.rel == a.info.rel && HashOf(sha, files, x) == a.info.hash
  {
    assert PathOrder(actions);
    var i :| 0 <= i < |actions| && actions[i] == a;
    hide IsPlan, Applied;
    var x := EntryOf(sha, files, root, entries, actions, i);
    ApplyMerges(sha, files, root, entries, actions);
  }

  /** After a plan has been applied, every registry entry has the path and the hash that the plan gave its id. */
  lemma {:induction false} RegistryMatchesPlan(sha: Hash, files: Files, root: Id, entries: seq<Collected>,
                                               actions: seq<Action>, inputs: Inputs, registry: seq<Entry>, e: Entry)
    requires AllGood(sha, files, entries) && FitsFiles(sha, files, root, entries)
    requires IsPlan(sha, files, root, entries, actions)
    requires IsRegistryOf(sha, Applied(files, actions), inputs, actions, registry) && e in registry
    ensures exists a :: IsFirstForId(actions, a)
                        && e.id == a.info.logicalId && e.path == a.info.rel && e.sha256 == a.info.hash
    ensures exists x :: x in entries && e.path == x.rel && e.sha256 == HashOf(sha, files, x)
  {
    hide Less, Applied, IsPlan;
    var ids := set a | a in actions :: a.info.logicalId;
    var a :| IsFirstForId(actions, a) && Registers(sha, Applied(files, actions), inputs, ids, e, a);
    PlannedFileIsThere(sha, files, root, entries, actions, a);
  }

  /** After a plan has been applied, no file is missing: only an undeclared id prevents registration. */
  lemma {:induction false} AppliedPlanBuilds(sha: Hash, files: Files, root: Id, entries: seq<Collected>,
                                             actions: seq<Action>, inputs: Inputs)
    requires AllGood(sha, files, entries) && FitsFiles(sha, files, root, entries)
    requires IsPlan(sha, files, root, entries, actions)
    ensures forall a :: a in actions ==>
              Failure(Applied(files, actions), inputs, a)
              == if inputs(a.info.logicalId).None? then Some(Undeclared(a.info.logicalId)) else None
  {
    hide IsPlan, Applied;
    forall a | a in actions
      ensures a.info.dest in Applied(files, actions)
    {
      PlannedFileIsThere(sha, files, root, entries, actions, a);
    }
  }

  /** The merged files of a plan cannot be registered. */
  ghost predicate Unregistrable(inputs: Inputs, actions: seq<Action>) {
    Contradictory(actions) || exists a :: IsFirstForId(actions, a) && inputs(a.info.logicalId).None?
  }

  /** Of the actions that come first for their ids, the one with the least undeclared id. */
  ghost predicate IsFirstUndeclared(inputs: Inputs, actions: seq<Action>, a: Action) {
    && IsFirstForId(actions, a) && inputs(a.info.logicalId).None?
    && forall b ::
         IsFirstForId(actions, b) && Less(b.info.logicalId, a.info.logicalId) ==> inputs(b.info.logicalId).Some?
  }

  /** Why: the first contradiction, or without one the least undeclared id. */
  ghost predicate IsBuildError(inputs: Inputs, actions: seq<Action>, error: BuildError) {
    if Contradictory(actions) then
      exists i: nat :: IsFirstContradiction(actions, i) && error == ConflictingContent(actions[i].info.logicalId)
    else exists a :: IsFirstUndeclared(inputs, actions, a) && error == Undeclared(a.info.logicalId)
  }

  /** Where undeclared ids are all that fails, the first failure is the least undeclared id. */
  lemma {:induction false} OnlyUndeclaredFail(after: Files, actions: seq<Action>, inputs: Inputs)
    requires forall a :: a in actions ==>
               Failure(after, inputs, a)
               == if inputs(a.info.logicalId).None? then Some(Undeclared(a.info.logicalId)) else None
    ensures forall a :: IsFirstFailure(after, inputs, actions, a) ==>
              && IsFirstUndeclared(inputs, actions, a)
              && Failure(after, inputs, a) == Some(Undeclared(a.info.logicalId))
    ensures Unregistrable(inputs, actions) <==>
              Contradictory(actions) || exists a :: IsFirstForId(actions, a) && Failure(after, inputs, a).Some?
  {
    FirstsAreActions(actions);
    hide Failure, IsFirstForId, Contradictory, Less;
  }

  lemma {:induction false} FirstsAreActions(actions: seq<Action>)
    ensures forall a :: IsFirstForId(actions, a) ==> a in actions
  {
    hide Less;
  }

  lemma {:induction false} FailureIsUndeclared(sha: Hash, files: Files, root: Id, entries: seq<Collected>,
                                               actions: seq<Action>, inputs: Inputs)
    requires AllGood(sha, files, entries) && FitsFiles(sha, files, root, entries)
    requires IsPlan(sha, files, root, entries, actions)
    ensures forall a :: IsFirstFailure(Applied(files, actions), inputs, actions, a) ==>
              && IsFirstUndeclared(inputs, actions, a)
              && Failure(Applied(files, actions), inputs, a) == Some(Undeclared(a.info.logicalId))
    ensures Unregistrable(inputs, actions) <==>
              Contradictory(actions)
              || exists a :: IsFirstForId(actions, a) && Failure(Applied(files, actions), inputs, a).Some?
  {
    AppliedPlanBuilds(sha, files, root, entries, actions, inputs);
    hide IsPlan, Applied, Failure, IsFirstFailure, IsFirstUndeclared, Unregistrable, IsFirstForId, Contradictory, Less;
    hide AllGood, FitsFiles;
    OnlyUndeclaredFail(Applied(files, actions), actions, inputs);
  }

  datatype Outcome =
    | PlanRaised(raised: MergeError) | Conflicting(conflicts: seq<Conflict>)
    | BuildRaised(error: BuildError) | Registered(registry: seq<Entry>)

  /** Registration failed: the plan has been applied all the same. */
  ghost predicate AppliedOnly(sha: Hash, before: Files, after: Files, root: Id, entries: seq<Collected>, inputs: Inputs,
                              error: BuildError)
    requires AllGood(sha, before, entries)
  {
    exists actions ::
      && IsPlan(sha, before, root, entries, actions) && after == Applied(before, actions)
      && IsBuildError(inputs, actions, error)
  }

  /** The result of a whole consolidation that found no conflict. */
  ghost predicate Consolidated(sha: Hash, before: Files, after: Files, root: Id, entries: seq<Collected>,
                               inputs: Inputs, actions: seq<Action>, registry: seq<Entry>)
    requires AllGood(sha, before, entries)
  {
    && IsPlan(sha, before, root, entries, actions) && after == Applied(before, actions)
    && IsRegistryOf(sha, after, inputs, actions, registry) && Closed(registry) && !HasPathCollision(registry)
    && forall e :: e in registry ==> exists x :: x in entries && e.path == x.rel && e.sha256 == HashOf(sha, before, x)
  }

  /**
   `main`, from collected entries on: plan, apply, register. Nothing is written when planning raises or reports a
   conflict; otherwise the plan is applied, and registration then fails exactly for contradictory content or an
   undeclared id among the actions that come first for their ids.
   */
  method Consolidate(sha: Hash, run: RunRoot, root: Id, entries: seq<Collected>, inputs: Inputs)
    returns (outcome: Outcome)
    modifies run
    ensures outcome.PlanRaised? <==> !AllGood(sha, old(run.files), entries)
    ensures outcome.Conflicting? <==>
              AllGood(sha, old(run.files), entries)
              && !(Agree(sha, old(run.files), entries) && FitsFiles(sha, old(run.files), root, entries))
    ensures outcome.PlanRaised? ==> IsFirstComplaint(sha, old(run.files), entries, outcome.raised)
    ensures outcome.Conflicting? ==> AreConflicts(sha, old(run.files), root, entries, outcome.conflicts)
    ensures outcome.PlanRaised? || outcome.Conflicting? ==> run.files == old(run.files)
    ensures outcome.BuildRaised? ==>
              AllGood(sha, old(run.files), entries)
              && AppliedOnly(sha, old(run.files), run.files, root, entries, inputs, outcome.error)
    ensures outcome.BuildRaised? || outcome.Registered? ==>
              AllGood(sha, old(run.files), entries)
              && forall actions :: IsPlan(sha, old(run.files), root, entries, actions) ==>
                   (outcome.BuildRaised? <==> Unregistrable(inputs, actions))
    ensures outcome.Registered? ==>
              AllGood(sha, old(run.files), entries)
              && exists actions ::
                   Consolidated(sha, old(run.files), run.files, root, entries, inputs, actions, outcome.registry)
  {
    hide AllGood, Agree, FitsFiles, AreConflicts, IsPlan, Applied, IsRegistryOf, Closed, HasPathCollision;
    hide IsFirstForId;
    hide Contradictory, IsFirstContradiction, IsFirstFailure, IsFirstUndeclared, Unregistrable, Failure, Less;
    ghost var before := run.files;
    var planned := ResolveMergeActions(sha, run.files, root, entries);
    if planned.Err? {
      return PlanRaised(planned.error);
    }
    var (actions, conflicts) := planned.value;
    if conflicts != [] {
      return Conflicting(conflicts);
    }
    PlannedSources(sha, before, root, entries, actions);
    run.Apply(actions);
    var registry := BuildRegistry(sha, run.files, inputs, actions);
    FailureIsUndeclared(sha, before, root, entries, actions, inputs);
    forall other | IsPlan(sha, before, root, entries, other)
      ensures other == actions
    {
      PlanIsUnique(sha, before, root, entries, actions, other);
    }
    if registry.Err? {
      assert IsBuildError(inputs, actions, registry.error);
      return BuildRaised(registry.error);
    }
    MakesConsolidated(sha, before, root, entries, inputs, actions, registry.value);
    return Registered(registry.value);
  }

  lemma {:induction false} MakesConsolidated(sha: Hash, files: Files, root: Id, entries: seq<Collected>, inputs: Inputs,
                                             actions: seq<Action>, registry: seq<Entry>)
    requires AllGood(sha, files, entries) && FitsFiles(sha, files, root, entries)
    requires IsPlan(sha, files, root, entries, actions)
    requires IsRegistryOf(sha, Applied(files, actions), inputs, actions, registry)
    requires Closed(registry) && !HasPathCollision(registry)
    ensures Consolidated(sha, files, Applied(files, actions), root, entries, inputs, actions, registry)
  {
    hide FitsFiles, IsPlan, Applied, IsRegistryOf, Closed, HasPathCollision, Less;
    forall e | e in registry
      ensures exists x :: x in entries && e.path == x.rel && e.sha256 == HashOf(sha, files, x)
    {
      RegistryMatchesPlan(sha, files, root, entries, actions, inputs, registry, e);
    }
  }

  lemma {:induction false} PlannedSources(sha: Hash, files: Files, root: Id, entries: seq<Collected>,
                                          actions: seq<Action>)
    requires AllGood(sha, files, entries) && IsPlan(sha, files, root, entries, actions)
    ensures PathOrder(actions) && forall a :: a in actions ==> a.info.source in files
  {
    assert PathOrder(actions);
    hide IsPlan;
    forall a | a in actions
      ensures a.info.source in files
    {
      var i :| 0 <= i < |actions| && actions[i] == a;
      var e := EntryOf(sha, files, root, entries, actions, i);
    }
  }
}
