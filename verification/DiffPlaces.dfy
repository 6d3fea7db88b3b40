/** Exactly which entries `collect_diffs` reports, and in which order. */
module DiffPlaces {
  import opened Basics
  import opened Ids
  import opened JsonDiffs

  /** Two dicts or two lists, into which the search goes on. */
  predicate GoesOn(a: Option<Tree>, b: Option<Tree>) {
    a.Some? && b.Some? && ((a.value.Dict? && b.value.Dict?) || (a.value.List? && b.value.List?))
  }

  /**
   The entry names a place where the trees differ and says what each has there; on all of the way both trees have a
   dict or both a list, and at the place they do not.
   */
  ghost predicate IsPlace(d: Entry, x: Tree, y: Tree, path: seq<Step>) {
    && path <= d.path
    && var q := d.path[|path|..];
       && At(x, q) != At(y, q) && d.expected == OrNull(At(x, q)) && d.actual == OrNull(At(y, q))
       && !GoesOn(At(x, q), At(y, q))
       && forall n :: 0 <= n < |q| ==> GoesOn(At(x, q[..n]), At(y, q[..n]))
  }

  // ----- one step down

  lemma {:induction false} Descend(x: Tree, step: Step, q: seq<Step>)
    requires q != [] && q[0] == step
    ensures At(x, q) == if At(x, [step]).Some? then At(At(x, [step]).value, q[1..]) else None
    ensures forall n :: 1 <= n <= |q| ==>
              At(x, q[..n]) == if At(x, [step]).Some? then At(At(x, [step]).value, q[1..][..n - 1]) else None
  {
    assert q == [step] + q[1..];
    AtFirst(x, step, q[1..]);
    forall n | 1 <= n <= |q|
      ensures At(x, q[..n]) == if At(x, [step]).Some? then At(At(x, [step]).value, q[1..][..n - 1]) else None
    {
      assert q[..n] == [step] + q[1..][..n - 1];
      AtFirst(x, step, q[1..][..n - 1]);
    }
  }

  /** The step behind `path` on the way to an entry. */
  predicate LeadsThrough(d: Entry, path: seq<Step>, step: Step) {
    path + [step] <= d.path
  }

  lemma {:induction false} RestOfPath(d: Entry, path: seq<Step>, step: Step)
    requires LeadsThrough(d, path, step)
    ensures path <= d.path && var q := d.path[|path|..];
            q != [] && q[0] == step && q[1..] == d.path[|path + [step]|..]
  {
    assert d.path[|path|] == (path + [step])[|path|];
  }

  /** Where both trees go on, the places below are the children's. */
  lemma {:induction false} PlacesBelow(d: Entry, x: Tree, y: Tree, path: seq<Step>, step: Step)
    requires GoesOn(Some(x), Some(y)) && At(x, [step]).Some? && At(y, [step]).Some?
    ensures IsPlace(d, At(x, [step]).value, At(y, [step]).value, path + [step])
       <==> IsPlace(d, x, y, path) && LeadsThrough(d, path, step)
  {
    var a, b := At(x, [step]).value, At(y, [step]).value;
    if LeadsThrough(d, path, step) {
      RestOfPath(d, path, step);
      var q := d.path[|path|..];
      Descend(x, step, q);
      Descend(y, step, q);
      assert At(x, q[..0]) == Some(x) && At(y, q[..0]) == Some(y);
      hide At, GoesOn;
      if IsPlace(d, x, y, path) {
        forall n | 0 <= n < |q[1..]|
          ensures GoesOn(At(a, q[1..][..n]), At(b, q[1..][..n]))
        {
          assert GoesOn(At(x, q[..n + 1]), At(y, q[..n + 1]));
        }
      }
      if IsPlace(d, a, b, path + [step]) {
        forall n | 0 <= n < |q|
          ensures GoesOn(At(x, q[..n]), At(y, q[..n]))
        {
          assert n > 0 ==> GoesOn(At(a, q[1..][..n - 1]), At(b, q[1..][..n - 1]));
        }
      }
    }
  }

  /** Where only one tree goes on, the place is the first step that the other lacks. */
  lemma {:induction false} PlaceOfOneSide(d: Entry, x: Tree, y: Tree, path: seq<Step>, step: Step)
    requires GoesOn(Some(x), Some(y)) && At(x, [step]).Some? != At(y, [step]).Some?
    ensures d == Entry(path + [step], OrNull(At(x, [step])), OrNull(At(y, [step])))
       <==> IsPlace(d, x, y, path) && LeadsThrough(d, path, step)
  {
    if LeadsThrough(d, path, step) {
      RestOfPath(d, path, step);
      var q := d.path[|path|..];
      Descend(x, step, q);
      Descend(y, step, q);
      assert At(x, q[..0]) == Some(x) && At(y, q[..0]) == Some(y);
      assert q[..1] == [step];
      hide At;
      assert !GoesOn(At(x, q[..1]), At(y, q[..1]));
      assert |q| == 1 ==> q == [step] && d.path == path + [step];
    }
  }

  /** The steps of either tree. */
  predicate HasStep(x: Tree, y: Tree, step: Step) {
    At(x, [step]).Some? || At(y, [step]).Some?
  }

  lemma {:induction false} PlaceHasStep(d: Entry, x: Tree, y: Tree, path: seq<Step>)
    requires GoesOn(Some(x), Some(y)) && IsPlace(d, x, y, path)
    ensures |path| < |d.path| && LeadsThrough(d, path, d.path[|path|]) && HasStep(x, y, d.path[|path|])
  {
    var q := d.path[|path|..];
    if q != [] {
      Descend(x, q[0], q);
      Descend(y, q[0], q);
    }
  }

  lemma {:induction false} UnderIsPlace(d: Entry, x: Tree, y: Tree, path: seq<Step>, step: Step)
    requires GoesOn(Some(x), Some(y)) && HasStep(x, y, step)
    requires At(x, [step]).Some? && At(y, [step]).Some? ==>
               (d in Collect(At(x, [step]).value, At(y, [step]).value, path + [step])
                <==> IsPlace(d, At(x, [step]).value, At(y, [step]).value, path + [step]))
    ensures d in Under(x, y, step, path) <==> IsPlace(d, x, y, path) && LeadsThrough(d, path, step)
  {
    hide At, Collect, IsPlace, LeadsThrough, GoesOn;
    if At(x, [step]).Some? && At(y, [step]).Some? {
      PlacesBelow(d, x, y, path, step);
    } else {
      PlaceOfOneSide(d, x, y, path, step);
    }
  }

  // ----- what is collected

  lemma {:induction false} CollectedKeys(d: Entry, x: Tree, y: Tree, keys: seq<Id>, path: seq<Step>)
    requires x.Dict? && y.Dict? && forall k :: k in keys ==> k in x.entries || k in y.entries
    ensures d in CollectKeys(x, y, keys, path) <==> exists k :: k in keys && d in Under(x, y, Key(k), path)
    decreases |keys|
  {
    if keys != [] {
      var n := |keys| - 1;
      CollectedKeys(d, x, y, keys[..n], path);
      KeyIsUnder(x, y, keys[n], path);
      hide CollectKey, Under;
      assert keys == keys[..n] + [keys[n]];
    }
  }

  lemma {:induction false} OneStep(x: Tree, step: Step)
    ensures At(x, [step]) == match step
                             case Key(k) => if x.Dict? && k in x.entries then Some(x.entries[k]) else None
                             case Index(i) => if x.List? && i < |x.items| then Some(x.items[i]) else None
  {
    assert [step][1..] == [];
  }

  lemma {:induction false} KeyIsUnder(x: Tree, y: Tree, k: Id, path: seq<Step>)
    requires x.Dict? && y.Dict? && (k in x.entries || k in y.entries)
    ensures CollectKey(x, y, k, path) == Under(x, y, Key(k), path)
  {
    OneStep(x, Key(k));
    OneStep(y, Key(k));
    hide Collect, At;
  }

  lemma {:induction false} CollectedItems(d: Entry, x: Tree, y: Tree, n: nat, path: seq<Step>)
    requires x.List? && y.List? && (n <= |x.items| || n <= |y.items|)
    ensures d in CollectItems(x, y, n, path) <==> exists i: nat :: i < n && d in Under(x, y, Index(i), path)
    decreases n
  {
    if n > 0 {
      CollectedItems(d, x, y, n - 1, path);
      ItemIsUnder(x, y, n - 1, path);
      hide CollectItem, Under;
    }
  }

  lemma {:induction false} ItemIsUnder(x: Tree, y: Tree, i: nat, path: seq<Step>)
    requires x.List? && y.List? && (i < |x.items| || i < |y.items|)
    ensures CollectItem(x, y, i, path) == Under(x, y, Index(i), path)
  {
    OneStep(x, Index(i));
    OneStep(y, Index(i));
    hide Collect, At;
  }

  /** Of two different dicts or lists, what is collected is what is collected under their steps. */
  lemma {:induction false} CollectedUnder(d: Entry, x: Tree, y: Tree, path: seq<Step>)
    requires x != y && GoesOn(Some(x), Some(y))
    ensures d in Collect(x, y, path) <==> exists step :: HasStep(x, y, step) && d in Under(x, y, step, path)
  {
    StepsAre(x, y);
    hide Under, CollectKeys, CollectItems;
    if x.Dict? {
      var keys := Sorted(x.entries.Keys + y.entries.Keys);
      CollectedKeys(d, x, y, keys, path);
      hide Collect, HasStep;
      assert Collect(x, y, path) == CollectKeys(x, y, keys, path) by {
        DictsCollected(x, y, path);
      }
    } else {
      var n := if |x.items| > |y.items| then |x.items| else |y.items|;
      CollectedItems(d, x, y, n, path);
      hide HasStep;
    }
  }

  lemma {:induction false} DictsCollected(x: Tree, y: Tree, path: seq<Step>)
    requires x != y && x.Dict? && y.Dict?
    ensures Collect(x, y, path) == CollectKeys(x, y, Sorted(x.entries.Keys + y.entries.Keys), path)
  {
    hide CollectKeys, Sorted;
  }

  lemma {:induction false} StepsAre(x: Tree, y: Tree)
    requires GoesOn(Some(x), Some(y))
    ensures x.Dict? ==>
              forall step :: HasStep(x, y, step) <==> step.Key? && (step.k in x.entries || step.k in y.entries)
    ensures x.List? ==>
              forall step :: HasStep(x, y, step) <==> step.Index? && (step.i < |x.items| || step.i < |y.items|)
  {
    forall step
      ensures HasStep(x, y, step) <==>
                if x.Dict? then step.Key? && (step.k in x.entries || step.k in y.entries)
                else step.Index? && (step.i < |x.items| || step.i < |y.items|)
    {
      OneStep(x, step);
      OneStep(y, step);
    }
  }

  /** Exactly the places where the trees differ are reported, each as far down as both trees go. */
  lemma {:induction false} PlacesAreReported(d: Entry, x: Tree, y: Tree, path: seq<Step>)
    ensures d in Collect(x, y, path) <==> IsPlace(d, x, y, path)
    decreases x
  {
    if x == y {
    } else if GoesOn(Some(x), Some(y)) {
      forall step | HasStep(x, y, step)
        ensures d in Under(x, y, step, path) <==> IsPlace(d, x, y, path) && LeadsThrough(d, path, step)
      {
        if At(x, [step]).Some? && At(y, [step]).Some? {
          ChildIsSmaller(x, step);
          PlacesAreReported(d, At(x, [step]).value, At(y, [step]).value, path + [step]);
        }
        UnderIsPlace(d, x, y, path, step);
      }
      CollectedUnder(d, x, y, path);
      if IsPlace(d, x, y, path) {
        PlaceHasStep(d, x, y, path);
      }
      hide Collect, Under, HasStep, LeadsThrough, IsPlace, At;
    } else {
      LeafPlace(d, x, y, path);
    }
  }

  lemma {:induction false} ChildIsSmaller(x: Tree, step: Step)
    requires At(x, [step]).Some?
    ensures At(x, [step]).value < x
  {
    assert [step][1..] == [];
  }

  lemma {:induction false} LeafPlace(d: Entry, x: Tree, y: Tree, path: seq<Step>)
    requires x != y && !GoesOn(Some(x), Some(y))
    ensures d in Collect(x, y, path) <==> IsPlace(d, x, y, path)
  {
    assert Collect(x, y, path) == [Entry(path, x, y)];
    hide Collect;
    if path <= d.path {
      var q := d.path[|path|..];
      assert At(x, q[..0]) == Some(x) && At(y, q[..0]) == Some(y);
      assert q == [] ==> d.path == path;
    }
    assert path[|path|..] == [];
  }

  // ----- in which order

  predicate StepLess(a: Step, b: Step) {
    (a.Key? && b.Key? && Less(a.k, b.k)) || (a.Index? && b.Index? && a.i < b.i)
  }

  predicate EarlierAt(p: seq<Step>, q: seq<Step>, n: nat) {
    n < |p| && n < |q| && p[..n] == q[..n] && StepLess(p[n], q[n])
  }

  /** The first difference of the paths is a lesser key or index. */
  ghost predicate Earlier(p: seq<Step>, q: seq<Step>) {
    exists n: nat :: EarlierAt(p, q, n)
  }

  ghost predicate InOrder(entries: seq<Entry>) {
    forall i, j :: 0 <= i < j < |entries| ==> Earlier(entries[i].path, entries[j].path)
  }

  lemma {:induction false} UnderLeads(d: Entry, x: Tree, y: Tree, path: seq<Step>, step: Step)
    requires GoesOn(Some(x), Some(y)) && HasStep(x, y, step) && d in Under(x, y, step, path)
    ensures LeadsThrough(d, path, step)
  {
    hide At, Collect, IsPlace, LeadsThrough, GoesOn;
    if At(x, [step]).Some? && At(y, [step]).Some? {
      PlacesAreReported(d, At(x, [step]).value, At(y, [step]).value, path + [step]);
    }
    UnderIsPlace(d, x, y, path, step);
  }

  lemma {:induction false} StepsInOrder(c: Entry, d: Entry, path: seq<Step>, a: Step, b: Step)
    requires LeadsThrough(c, path, a) && LeadsThrough(d, path, b) && StepLess(a, b)
    ensures Earlier(c.path, d.path)
  {
    var n := |path|;
    assert c.path[..n] == (path + [a])[..n] == path && d.path[..n] == (path + [b])[..n] == path;
    assert c.path[n] == (path + [a])[n] && d.path[n] == (path + [b])[n];
    assert EarlierAt(c.path, d.path, n);
  }

  lemma {:induction false} Joined(a: seq<Entry>, b: seq<Entry>)
    requires InOrder(a) && InOrder(b) && forall c, d :: c in a && d in b ==> Earlier(c.path, d.path)
    ensures InOrder(a + b)
  {
    hide Earlier;
    forall i, j | 0 <= i < j < |a + b|
      ensures Earlier((a + b)[i].path, (a + b)[j].path)
    {
      if i < |a| <= j {
        assert a[i] in a && b[j - |a|] in b;
      }
    }
  }

  lemma {:induction false} UnderInOrder(x: Tree, y: Tree, path: seq<Step>, step: Step)
    requires HasStep(x, y, step)
    ensures InOrder(Under(x, y, step, path))
    decreases x, 0, 0
  {
    hide Collect, Earlier;
    if At(x, [step]).Some? && At(y, [step]).Some? {
      ChildIsSmaller(x, step);
      EntriesInOrder(At(x, [step]).value, At(y, [step]).value, path + [step]);
    }
  }

  /** What is collected under the keys before the last comes before what is collected under the last. */
  lemma {:induction false} KeysEarlier(x: Tree, y: Tree, keys: seq<Id>, path: seq<Step>, c: Entry, d: Entry)
    requires x.Dict? && y.Dict? && Ascending(keys) && forall k :: k in keys ==> k in x.entries || k in y.entries
    requires keys != [] && c in CollectKeys(x, y, keys[..|keys| - 1], path)
    requires d in Under(x, y, Key(keys[|keys| - 1]), path)
    ensures Earlier(c.path, d.path)
  {
    StepsAre(x, y);
    var n := |keys| - 1;
    CollectedKeys(c, x, y, keys[..n], path);
    hide CollectKeys, Under, Earlier, LeadsThrough, HasStep, Less;
    var k :| k in keys[..n] && c in Under(x, y, Key(k), path);
    UnderLeads(c, x, y, path, Key(k));
    UnderLeads(d, x, y, path, Key(keys[n]));
    StepsInOrder(c, d, path, Key(k), Key(keys[n]));
  }

  lemma {:induction false} KeysInOrder(x: Tree, y: Tree, keys: seq<Id>, path: seq<Step>)
    requires x.Dict? && y.Dict? && Ascending(keys) && forall k :: k in keys ==> k in x.entries || k in y.entries
    ensures InOrder(CollectKeys(x, y, keys, path))
    decreases x, 0, |keys| + 1
  {
    StepsAre(x, y);
    if keys != [] {
      var n := |keys| - 1;
      var a, b := CollectKeys(x, y, keys[..n], path), CollectKey(x, y, keys[n], path);
      KeysInOrder(x, y, keys[..n], path);
      KeyIsUnder(x, y, keys[n], path);
      UnderInOrder(x, y, path, Key(keys[n]));
      hide CollectKey, CollectKeys, Under, Earlier, InOrder, Less;
      forall c, d | c in a && d in b
        ensures Earlier(c.path, d.path)
      {
        KeysEarlier(x, y, keys, path, c, d);
      }
      Joined(a, b);
      LastKey(x, y, keys, path);
    }
  }

  lemma {:induction false} LastKey(x: Tree, y: Tree, keys: seq<Id>, path: seq<Step>)
    requires x.Dict? && y.Dict? && keys != [] && forall k :: k in keys ==> k in x.entries || k in y.entries
    ensures CollectKeys(x, y, keys, path)
         == CollectKeys(x, y, keys[..|keys| - 1], path) + CollectKey(x, y, keys[|keys| - 1], path)
  {
    hide CollectKey;
  }

  /** What is collected of the first `n` items comes before what is collected of item `n`. */
  lemma {:induction false} ItemsEarlier(x: Tree, y: Tree, n: nat, path: seq<Step>, c: Entry, d: Entry)
    requires x.List? && y.List? && (n < |x.items| || n < |y.items|)
    requires c in CollectItems(x, y, n, path) && d in Under(x, y, Index(n), path)
    ensures Earlier(c.path, d.path)
  {
    StepsAre(x, y);
    CollectedItems(c, x, y, n, path);
    hide CollectItems, Under, Earlier, LeadsThrough, HasStep;
    var i: nat :| i < n && c in Under(x, y, Index(i), path);
    UnderLeads(c, x, y, path, Index(i));
    UnderLeads(d, x, y, path, Index(n));
    StepsInOrder(c, d, path, Index(i), Index(n));
  }

  lemma {:induction false} ItemsInOrder(x: Tree, y: Tree, n: nat, path: seq<Step>)
    requires x.List? && y.List? && (n <= |x.items| || n <= |y.items|)
    ensures InOrder(CollectItems(x, y, n, path))
    decreases x, 0, n + 1
  {
    if n > 0 {
      var a, b := CollectItems(x, y, n - 1, path), CollectItem(x, y, n - 1, path);
      StepsAre(x, y);
      ItemsInOrder(x, y, n - 1, path);
      ItemIsUnder(x, y, n - 1, path);
      UnderInOrder(x, y, path, Index(n - 1));
      assert CollectItems(x, y, n, path) == a + b;
      hide CollectItem, CollectItems, Under, Earlier, InOrder;
      forall c, d | c in a && d in b
        ensures Earlier(c.path, d.path)
      {
        ItemsEarlier(x, y, n - 1, path, c, d);
      }
      Joined(a, b);
    }
  }

  /** Entries come in the order of their places, so each place is reported once. */
  lemma {:induction false} EntriesInOrder(x: Tree, y: Tree, path: seq<Step>)
    ensures InOrder(Collect(x, y, path))
    decreases x, 1, 0
  {
    hide Earlier;
    if x != y && x.Dict? && y.Dict? {
      KeysInOrder(x, y, Sorted(x.entries.Keys + y.entries.Keys), path);
      DictsCollected(x, y, path);
      hide Collect, InOrder;
    } else if x != y && x.List? && y.List? {
      ItemsInOrder(x, y, if |x.items| > |y.items| then |x.items| else |y.items|, path);
      hide CollectItems, InOrder;
    }
  }
}
