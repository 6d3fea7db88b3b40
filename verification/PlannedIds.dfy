/**
 The logical id that planning gives to a path: of everything a plan says, this alone can depend on the order of
 the entries, and it does exactly when they carry two ids for the path.
 */
module PlannedIds {
  import opened Basics
  import opened Ids
  import opened MergePlanner

  /** The entries for a path carry one logical id. */
  predicate OneId(entries: seq<Collected>, rel: Id) {
    forall e, f :: e in entries && f in entries && e.rel == rel && f.rel == rel ==> e.logicalId == f.logicalId
  }

  lemma {:induction false} FirstIdOf(entries: seq<Collected>, e: Collected)
    requires e in entries
    ensures exists f :: f in entries && f.rel == e.rel && FirstId(entries, e.rel) == Some(f.logicalId)
  {
    if entries[0].rel == e.rel {
      assert entries[0] in entries;
    } else {
      FirstIdOf(entries[1..], e);
    }
  }

  /** With one id on the path, the id too is independent of the order. */
  lemma {:induction false} IdsIgnoreOrder(a: seq<Collected>, b: seq<Collected>, rel: Id)
    requires SameEntries(a, b) && OneId(a, rel)
    ensures FirstId(a, rel) == FirstId(b, rel)
  {
    if e :| e in a && e.rel == rel {
      FirstIdOf(a, e);
      FirstIdOf(b, e);
    }
  }

  /** The same entries with one of them moved to the front. */
  function MovedFirst(entries: seq<Collected>, i: nat): (r: seq<Collected>)
    requires i < |entries|
    ensures multiset(r) == multiset(entries) && FirstId(r, entries[i].rel) == Some(entries[i].logicalId)
  {
    assert entries == entries[..i] + [entries[i]] + entries[i + 1..];
    [entries[i]] + (entries[..i] + entries[i + 1..])
  }

  /** Planning from entries in this order can give the path this id. */
  ghost predicate PlansId(sha: Hash, files: Files, root: Id, entries: seq<Collected>, rel: Id, id: Id) {
    && AllGood(sha, files, entries)
    && exists plan, a: Action ::
         IsPlan(sha, files, root, entries, plan) && a in plan && a.info.rel == rel && a.info.logicalId == id
  }

  lemma {:induction false} SameMultisetSameEntries(a: seq<Collected>, b: seq<Collected>)
    requires multiset(a) == multiset(b)
    ensures SameEntries(a, b)
  {
    forall e
      ensures e in a <==> e in b
    {
      assert e in a <==> e in multiset(a);
      assert e in b <==> e in multiset(b);
    }
  }

  /** The record of a path that has entries. */
  lemma {:induction false} InfoOf(sha: Hash, files: Files, root: Id, entries: seq<Collected>, rel: Id)
    returns (info: Info)
    requires AllGood(sha, files, entries) && Agree(sha, files, entries) && exists e :: e in entries && e.rel == rel
    ensures Describes(sha, files, root, entries, info) && info.rel == rel
  {
    hide Less;
    var e :| e in entries && e.rel == rel;
    var sources := set x | x in entries && x.rel == rel :: x.source;
    assert e.source in sources;
    var source := LeastExists(sources);
    info := Info(FirstId(entries, rel).value, rel, source, Dest(root, rel), HashOf(sha, files, e));
  }

  /** Entries that agree have a plan. */
  lemma {:induction false} PlanExists(sha: Hash, files: Files, root: Id, entries: seq<Collected>)
    returns (plan: seq<Action>)
    requires AllGood(sha, files, entries) && Agree(sha, files, entries)
    ensures IsPlan(sha, files, root, entries, plan)
  {
    hide Less, Describes, Agree, AllGood;
    var rels := Sorted(set e | e in entries :: e.rel);
    plan := [];
    for i := 0 to |rels|
      invariant |plan| == i
      invariant forall j :: 0 <= j < i ==>
                  && plan[j].info.rel == rels[j] && Describes(sha, files, root, entries, plan[j].info)
                  && (plan[j].kind == if plan[j].info.dest in files then Reuse else Link)
    {
      assert rels[i] in rels;
      var info := InfoOf(sha, files, root, entries, rels[i]);
      plan := plan + [Action(info, if info.dest in files then Reuse else Link)];
    }
    forall e | e in entries
      ensures exists a :: a in plan && a.info.rel == e.rel
    {
      assert e.rel in rels;
      var j :| 0 <= j < |rels| && rels[j] == e.rel;
      assert plan[j] in plan;
    }
  }

  /** A planned id is that of the first entry for the path. */
  lemma {:induction false} PlannedIdIsFirst(sha: Hash, files: Files, root: Id, entries: seq<Collected>, rel: Id, id: Id)
    requires AllGood(sha, files, entries) && Agree(sha, files, entries) && exists e :: e in entries && e.rel == rel
    ensures PlansId(sha, files, root, entries, rel, id) <==> FirstId(entries, rel) == Some(id)
  {
    hide Less, IsLeastSource, Agree, AllGood;
    if PlansId(sha, files, root, entries, rel, id) {
      var plan, a: Action :|
        IsPlan(sha, files, root, entries, plan) && a in plan && a.info.rel == rel && a.info.logicalId == id;
      assert Describes(sha, files, root, entries, a.info);
    }
    if FirstId(entries, rel) == Some(id) {
      var plan := PlanExists(sha, files, root, entries);
      var e :| e in entries && e.rel == rel;
      var a :| a in plan && a.info.rel == e.rel;
      assert Describes(sha, files, root, entries, a.info);
    }
  }

  /** With two ids on one path, two orders of the same entries plan the two ids. */
  lemma {:induction false} IdsDependOnOrder(sha: Hash, files: Files, root: Id, entries: seq<Collected>, i: nat, j: nat)
    requires AllGood(sha, files, entries) && Agree(sha, files, entries)
    requires i < |entries| && j < |entries| && entries[i].rel == entries[j].rel
    requires entries[i].logicalId != entries[j].logicalId
    ensures var x, y := MovedFirst(entries, i), MovedFirst(entries, j);
            && multiset(x) == multiset(entries) == multiset(y)
            && PlansId(sha, files, root, x, entries[i].rel, entries[i].logicalId)
            && PlansId(sha, files, root, y, entries[i].rel, entries[j].logicalId)
  {
    hide MovedFirst, PlansId, FirstId;
    MovedPlansId(sha, files, root, entries, i);
    MovedPlansId(sha, files, root, entries, j);
  }

  lemma {:induction false} MovedPlansId(sha: Hash, files: Files, root: Id, entries: seq<Collected>, i: nat)
    requires AllGood(sha, files, entries) && Agree(sha, files, entries) && i < |entries|
    ensures PlansId(sha, files, root, MovedFirst(entries, i), entries[i].rel, entries[i].logicalId)
  {
    hide PlansId, FirstId;
    SameMultisetSameEntries(MovedFirst(entries, i), entries);
    assert MovedFirst(entries, i)[0] == entries[i];
    hide MovedFirst;
    PlannedIdIsFirst(sha, files, root, MovedFirst(entries, i), entries[i].rel, entries[i].logicalId);
  }

  /** The planned id of a path is the same for every order of the entries exactly when they carry one id for it. */
  lemma {:induction false} PlannedIdIgnoresOrderExactly(sha: Hash, files: Files, root: Id, entries: seq<Collected>,
                                                        rel: Id)
    requires AllGood(sha, files, entries) && Agree(sha, files, entries)
    ensures OneId(entries, rel) <==>
              forall x, y, i, j ::
                multiset(x) == multiset(entries) && multiset(y) == multiset(entries) ==>
                  PlansId(sha, files, root, x, rel, i) && PlansId(sha, files, root, y, rel, j) ==> i == j
  {
    hide FirstId, MovedFirst;
    if OneId(entries, rel) {
      forall x, y, i, j |
        && multiset(x) == multiset(entries) && multiset(y) == multiset(entries)
        && PlansId(sha, files, root, x, rel, i) && PlansId(sha, files, root, y, rel, j)
        ensures i == j
      {
        FirstOfPlanned(sha, files, root, entries, x, rel, i);
        FirstOfPlanned(sha, files, root, entries, y, rel, j);
      }
    } else {
      var e, f :| e in entries && f in entries && e.rel == rel && f.rel == rel && e.logicalId != f.logicalId;
      var i :| 0 <= i < |entries| && entries[i] == e;
      var j :| 0 <= j < |entries| && entries[j] == f;
      hide PlansId, AllGood, Agree;
      IdsDependOnOrder(sha, files, root, entries, i, j);
    }
  }

  lemma {:induction false} FirstOfPlanned(sha: Hash, files: Files, root: Id, entries: seq<Collected>,
                                          x: seq<Collected>, rel: Id, id: Id)
    requires AllGood(sha, files, entries) && OneId(entries, rel)
    requires multiset(x) == multiset(entries) && PlansId(sha, files, root, x, rel, id)
    ensures FirstId(entries, rel) == Some(id)
  {
    hide Less, IsLeastSource;
    SameMultisetSameEntries(x, entries);
    var plan, a: Action :|
      IsPlan(sha, files, root, x, plan) && a in plan && a.info.rel == rel && a.info.logicalId == id;
    assert Describes(sha, files, root, x, a.info);
    IdsIgnoreOrder(entries, x, rel);
  }
}
