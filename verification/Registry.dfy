/** Artifact registries: how dependencies are recorded, and the auditor's checks on the result. */
module Registry {
  import opened Basics
  import opened Ids

  /** A recorded dependency: the id and the hash the registry gives it. */
  datatype Reference = Reference(id: Id, sha256: Digest)

  datatype Entry = Entry(id: Id, path: Id, sha256: Digest, dependencies: seq<Reference>)

  /** An entry before its `input_dependencies` are resolved. */
  datatype Draft = Draft(id: Id, path: Id, sha256: Digest, inputs: seq<Id>)

  // ----- the auditor's checks

  /** AUD-5a: ids that occur more than once. */
  ghost predicate HasDuplicateIds(registry: seq<Entry>) {
    exists i, j :: 0 <= i < j < |registry| && registry[i].id == registry[j].id
  }

  /** AUD-5c: two different ids on one path. */
  ghost predicate HasPathCollision(registry: seq<Entry>) {
    exists i, j :: 0 <= i < j < |registry| && registry[i].path == registry[j].path && registry[i].id != registry[j].id
  }

  /** AUD-6a: ids that are depended on but not registered. */
  ghost function DanglingRefs(registry: seq<Entry>): set<Id> {
    var provided := set e | e in registry :: e.id;
    set e, d | e in registry && d in e.dependencies && d.id !in provided :: d.id
  }

  // ----- recording dependencies

  ghost predicate DistinctIds(drafts: seq<Draft>) {
    forall i, j :: 0 <= i < j < |drafts| ==> drafts[i].id != drafts[j].id
  }

  /** `{e["id"]: e for e in entries}`. */
  function ById(drafts: seq<Draft>): map<Id, Draft>
    decreases |drafts|
  {
    if drafts == [] then map[]
    else ById(drafts[..|drafts| - 1])[drafts[|drafts| - 1].id := drafts[|drafts| - 1]]
  }

  lemma {:induction false} ByIdHolds(drafts: seq<Draft>, id: Id)
    ensures id in ById(drafts) <==> exists d :: d in drafts && d.id == id
    ensures id in ById(drafts) ==> ById(drafts)[id] in drafts && ById(drafts)[id].id == id
    decreases |drafts|
  {
    if drafts != [] {
      ByIdHolds(drafts[..|drafts| - 1], id);
      assert forall d :: d in drafts <==> d in drafts[..|drafts| - 1] || d == drafts[|drafts| - 1];
    }
  }

  /** The recorded form of `inputs`: the registered ones, with the registered hash. */
  function References(registered: map<Id, Draft>, inputs: seq<Id>): (r: seq<Reference>)
    ensures forall x :: x in r <==> x.id in inputs && x.id in registered && x.sha256 == registered[x.id].sha256
    decreases |inputs|
  {
    if inputs == [] then []
    else
      var id := inputs[|inputs| - 1];
      var before := References(registered, inputs[..|inputs| - 1]);
      assert inputs == inputs[..|inputs| - 1] + [id];
      if id in registered then before + [Reference(id, registered[id].sha256)] else before
  }

  lemma {:induction false} OneReference(registered: map<Id, Draft>, id: Id)
    ensures References(registered, [id]) == if id in registered then [Reference(id, registered[id].sha256)] else []
  {
    assert [id][..0] == [];
  }

  lemma {:induction false} LastReference(registered: map<Id, Draft>, inputs: seq<Id>, id: Id)
    ensures References(registered, inputs + [id]) == References(registered, inputs) + References(registered, [id])
  {
    OneReference(registered, id);
    assert (inputs + [id])[..|inputs|] == inputs;
  }

  lemma {:induction false} Regroup<T>(a: seq<T>, b: seq<T>, c: seq<T>)
    ensures a + (b + c) == a + b + c
  {
  }

  lemma {:induction false} OneBehind(registered: map<Id, Draft>, a: seq<Id>, b: seq<Id>, last: Id, p: seq<Reference>,
                                     q: seq<Reference>, w: seq<Reference>)
    requires p == References(registered, a) && q == References(registered, b) && w == References(registered, [last])
    requires References(registered, a + b) == p + q
    ensures References(registered, a + (b + [last])) == p + References(registered, b + [last])
  {
    LastReference(registered, a + b, last);
    LastReference(registered, b, last);
    Regroup(p, q, w);
    Regroup(a, b, [last]);
  }

  /** Each input is recorded or not by itself; order and repetitions are kept. */
  lemma {:induction false} ReferencesAre(registered: map<Id, Draft>, a: seq<Id>, b: seq<Id>)
    ensures References(registered, a + b) == References(registered, a) + References(registered, b)
    decreases |b|
  {
    if b == [] {
      assert a + b == a;
    } else {
      var front, last := b[..|b| - 1], b[|b| - 1];
      assert b == front + [last];
      ReferencesAre(registered, a, front);
      hide References;
      OneBehind(registered, a, front, last, References(registered, a), References(registered, front),
                References(registered, [last]));
    }
  }

  /** The entry made of a draft. */
  function Linked(registered: map<Id, Draft>, d: Draft): Entry {
    Entry(d.id, d.path, d.sha256, References(registered, d.inputs))
  }

  /** What every registry linked from drafts has: no dangling reference, and only registered hashes. */
  ghost predicate Closed(registry: seq<Entry>) {
    && !HasDuplicateIds(registry)
    && DanglingRefs(registry) == {}
    && forall e, d :: e in registry && d in e.dependencies ==>
         exists t :: t in registry && t.id == d.id && t.sha256 == d.sha256
  }

  /** The loop that rewrites each entry's dependencies. */
  method LinkDependencies(drafts: seq<Draft>) returns (registry: seq<Entry>)
    requires DistinctIds(drafts)
    ensures |registry| == |drafts|
    ensures forall i :: 0 <= i < |drafts| ==> registry[i] == Linked(ById(drafts), drafts[i])
    ensures Closed(registry)
  {
    var registered: map<Id, Draft> := map[];
    for i := 0 to |drafts|
      invariant registered == ById(drafts[..i])
    {
      assert drafts[..i + 1][..i] == drafts[..i];
      registered := registered[drafts[i].id := drafts[i]];
    }
    assert drafts[..|drafts|] == drafts;
    registry := [];
    for i := 0 to |drafts|
      invariant |registry| == i
      invariant forall j :: 0 <= j < i ==> registry[j] == Linked(registered, drafts[j])
    {
      var inputs := drafts[i].inputs;
      var references: seq<Reference> := [];
      for k := 0 to |inputs|
        invariant references == References(registered, inputs[..k])
      {
        assert inputs[..k + 1][..k] == inputs[..k];
        if inputs[k] in registered {
          references := references + [Reference(inputs[k], registered[inputs[k]].sha256)];
        }
      }
      assert inputs[..|inputs|] == inputs;
      registry := registry + [Entry(drafts[i].id, drafts[i].path, drafts[i].sha256, references)];
    }
    LinkedIsClosed(drafts, registry);
  }

  lemma {:induction false} LinkedIsClosed(drafts: seq<Draft>, registry: seq<Entry>)
    requires DistinctIds(drafts) && |registry| == |drafts|
    requires forall i :: 0 <= i < |drafts| ==> registry[i] == Linked(ById(drafts), drafts[i])
    ensures Closed(registry)
  {
    forall e, d | e in registry && d in e.dependencies
      ensures exists t :: t in registry && t.id == d.id && t.sha256 == d.sha256
    {
      ByIdHolds(drafts, d.id);
      var i :| 0 <= i < |drafts| && drafts[i] == ById(drafts)[d.id];
      assert registry[i] in registry;
    }
  }
}
