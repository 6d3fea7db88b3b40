/**
 Structural diffs of JSON trees: `scripts/trace_compare.py` and `scripts/json_diff_report.py`.

 Dicts are maps here, for none of these functions looks at the order of keys. `Null` is Python's `None`, which
 the source also uses for "nothing here".
 */
module JsonDiffs {
  import opened Basics
  import opened Ids

  datatype Tree =
    | Null
    | Boolean(b: bool)
    | Number(n: int)
    | Str(s: string)
    | List(items: seq<Tree>)
    | Dict(entries: map<Id, Tree>)

  // ----- structural_diff

  function DictOrNull(entries: map<Id, Tree>): Tree {
    if entries == map[] then Null else Dict(entries)
  }

  function ListOrNull(items: seq<Tree>): Tree {
    if items == [] then Null else List(items)
  }

  /** What only the left tree has. */
  function OnlyLeft(left: Tree, right: Tree): Tree
    decreases left, 2
  {
    if left == right then Null
    else if left.Dict? && right.Dict? then DictOrNull(LeftEntries(left, right))
    else if left.List? && right.List? then ListOrNull(LeftItems(left.items, right.items))
    else left
  }

  function LeftEntries(left: Tree, right: Tree): map<Id, Tree>
    requires left.Dict? && right.Dict?
    decreases left, 1
  {
    map k | k in left.entries && LeftEntry(left, right, k).Some? :: LeftEntry(left, right, k).value
  }

  /** A key's part of what only the left has, if there is one; a null on the left alone is one. */
  function LeftEntry(left: Tree, right: Tree, k: Id): Option<Tree>
    requires left.Dict? && right.Dict? && k in left.entries
    decreases left, 0
  {
    if k !in right.entries then Some(left.entries[k])
    else
      var sub := OnlyLeft(left.entries[k], right.entries[k]);
      if sub == Null then None else Some(sub)
  }

  function LeftItems(left: seq<Tree>, right: seq<Tree>): seq<Tree>
    decreases left, 0
  {
    if left == [] then []
    else if right == [] then left
    else
      var sub := OnlyLeft(left[0], right[0]);
      (if sub == Null then [] else [sub]) + LeftItems(left[1..], right[1..])
  }

  /** The dict of one side with what a key adds to it. */
  ghost function WithEntry(m: map<Id, Tree>, left: Tree, right: Tree, k: Id): map<Id, Tree>
    requires left.Dict? && right.Dict?
  {
    if k in left.entries && LeftEntry(left, right, k).Some? then m[k := LeftEntry(left, right, k).value] else m
  }

  /** One key of two dicts, looked at in the loop. */
  method DiffKey(left: Tree, right: Tree, k: Id, a: map<Id, Tree>, b: map<Id, Tree>)
    returns (onlyLeft: map<Id, Tree>, onlyRight: map<Id, Tree>)
    requires left.Dict? && right.Dict? && (k in left.entries || k in right.entries)
    ensures onlyLeft == WithEntry(a, left, right, k) && onlyRight == WithEntry(b, right, left, k)
    decreases left, 0
  {
    onlyLeft, onlyRight := a, b;
    if k !in right.entries {
      onlyLeft := onlyLeft[k := left.entries[k]];
    } else if k !in left.entries {
      onlyRight := onlyRight[k := right.entries[k]];
    } else {
      var subLeft, subRight := StructuralDiff(left.entries[k], right.entries[k]);
      hide OnlyLeft;
      if subLeft != Null {
        onlyLeft := onlyLeft[k := subLeft];
      }
      if subRight != Null {
        onlyRight := onlyRight[k := subRight];
      }
    }
  }

  /** What the loop has filled in for one side, of the keys it has seen. */
  ghost predicate Filled(m: map<Id, Tree>, left: Tree, right: Tree, seen: seq<Id>)
    requires left.Dict? && right.Dict?
  {
    && (forall k :: k in m <==> k in seen && k in left.entries && LeftEntry(left, right, k).Some?)
    && forall k :: k in m ==> m[k] == LeftEntry(left, right, k).value
  }

  lemma {:induction false} FilledStep(m: map<Id, Tree>, left: Tree, right: Tree, seen: seq<Id>, k: Id)
    requires left.Dict? && right.Dict? && Filled(m, left, right, seen)
    ensures Filled(WithEntry(m, left, right, k), left, right, seen + [k])
  {
    hide LeftEntry;
  }

  lemma {:induction false} FilledAll(m: map<Id, Tree>, left: Tree, right: Tree, seen: seq<Id>)
    requires left.Dict? && right.Dict? && Filled(m, left, right, seen) && forall k :: k in left.entries ==> k in seen
    ensures m == LeftEntries(left, right)
  {
    hide LeftEntry;
  }

  lemma {:induction false} OnlyLeftOfDicts(left: Tree, right: Tree)
    requires left.Dict? && right.Dict? && left != right
    ensures OnlyLeft(left, right) == DictOrNull(LeftEntries(left, right))
  {
  }

  method DiffDicts(left: Tree, right: Tree) returns (onlyLeft: Tree, onlyRight: Tree)
    requires left.Dict? && right.Dict? && left != right
    ensures onlyLeft == OnlyLeft(left, right) && onlyRight == OnlyLeft(right, left)
    decreases left, 1
  {
    hide LeftEntry, LeftEntries, OnlyLeft, Sorted, Ascending, DictOrNull;
    var a: map<Id, Tree>, b: map<Id, Tree> := map[], map[];
    var keys := Sorted(left.entries.Keys + right.entries.Keys);
    for i := 0 to |keys|
      invariant Filled(a, left, right, keys[..i]) && Filled(b, right, left, keys[..i])
    {
      hide Filled;
      assert keys[..i + 1] == keys[..i] + [keys[i]];
      assert keys[i] in keys;
      FilledStep(a, left, right, keys[..i], keys[i]);
      FilledStep(b, right, left, keys[..i], keys[i]);
      a, b := DiffKey(left, right, keys[i], a, b);
    }
    hide Filled;
    assert keys[..|keys|] == keys;
    FilledAll(a, left, right, keys);
    FilledAll(b, right, left, keys);
    OnlyLeftOfDicts(left, right);
    OnlyLeftOfDicts(right, left);
    return DictOrNull(a), DictOrNull(b);
  }

  method DiffLists(left: seq<Tree>, right: seq<Tree>) returns (onlyLeft: seq<Tree>, onlyRight: seq<Tree>)
    ensures onlyLeft == LeftItems(left, right) && onlyRight == LeftItems(right, left)
    decreases left, 1
  {
    hide OnlyLeft, LeftItems, From;
    onlyLeft, onlyRight := [], [];
    var n := if |left| > |right| then |left| else |right|;
    ItemsEnds(left, right, n);
    ItemsEnds(right, left, n);
    for i := 0 to n
      invariant onlyLeft + LeftItems(From(left, i), From(right, i)) == LeftItems(left, right)
      invariant onlyRight + LeftItems(From(right, i), From(left, i)) == LeftItems(right, left)
    {
      var a, b := onlyLeft, onlyRight;
      if i >= |left| {
        onlyRight := onlyRight + [right[i]];
      } else if i >= |right| {
        onlyLeft := onlyLeft + [left[i]];
      } else {
        var subLeft, subRight := StructuralDiff(left[i], right[i]);
        if subLeft != Null {
          onlyLeft := onlyLeft + [subLeft];
        }
        if subRight != Null {
          onlyRight := onlyRight + [subRight];
        }
      }
      ItemsStep(left, right, i, a);
      ItemsStep(right, left, i, b);
    }
    assert onlyLeft + [] == onlyLeft && onlyRight + [] == onlyRight;
  }

  /** The loop starts with all items and ends with none. */
  lemma {:induction false} ItemsEnds(left: seq<Tree>, right: seq<Tree>, n: nat)
    requires |left| <= n && |right| <= n
    ensures [] + LeftItems(From(left, 0), From(right, 0)) == LeftItems(left, right)
    ensures LeftItems(From(left, n), From(right, n)) == []
  {
  }

  /** The items from a position on, none beyond the end. */
  function From(items: seq<Tree>, i: nat): seq<Tree> {
    if i <= |items| then items[i..] else []
  }

  lemma {:induction false} ItemsStep(left: seq<Tree>, right: seq<Tree>, i: nat, a: seq<Tree>)
    requires i < |left| || i < |right|
    ensures a + LeftItems(From(left, i), From(right, i))
         == (if i >= |left| then a
             else if i >= |right| then a + [left[i]]
             else if OnlyLeft(left[i], right[i]) == Null then a
             else a + [OnlyLeft(left[i], right[i])])
            + LeftItems(From(left, i + 1), From(right, i + 1))
  {
    hide OnlyLeft;
    var l, r := From(left, i), From(right, i);
    assert i < |left| ==> l[0] == left[i] && l[1..] == From(left, i + 1);
    assert i < |right| ==> r[0] == right[i] && r[1..] == From(right, i + 1);
    if i < |left| && i >= |right| {
      assert l == [left[i]] + From(left, i + 1);
      assert LeftItems(From(left, i + 1), From(right, i + 1)) == From(left, i + 1);
    } else if i < |left| {
      assert LeftItems(l, r)
          == (if OnlyLeft(left[i], right[i]) == Null then [] else [OnlyLeft(left[i], right[i])])
             + LeftItems(From(left, i + 1), From(right, i + 1));
      hide LeftItems;
    }
  }

  /** `structural_diff`. */
  method StructuralDiff(left: Tree, right: Tree) returns (onlyLeft: Tree, onlyRight: Tree)
    ensures onlyLeft == OnlyLeft(left, right) && onlyRight == OnlyLeft(right, left)
    decreases left, 2
  {
    if left == right {
      return Null, Null;
    }
    if left.Dict? && right.Dict? {
      onlyLeft, onlyRight := DiffDicts(left, right);
    } else if left.List? && right.List? {
      var a, b := DiffLists(left.items, right.items);
      onlyLeft, onlyRight := ListOrNull(a), ListOrNull(b);
    } else {
      return left, right;
    }
  }

  /** There is nothing on either side exactly when the trees are equal. */
  lemma {:induction false} NothingMeansEqual(left: Tree, right: Tree)
    ensures OnlyLeft(left, right) == Null && OnlyLeft(right, left) == Null <==> left == right
    decreases left
  {
    if left != right && left.Dict? && right.Dict? {
      DictsDiffer(left, right);
    } else if left != right && left.List? && right.List? {
      ListsDiffer(left.items, right.items);
    }
  }

  lemma {:induction false} DictsDiffer(left: Tree, right: Tree)
    requires left.Dict? && right.Dict? && left != right
    ensures OnlyLeft(left, right) != Null || OnlyLeft(right, left) != Null
    decreases left, 0
  {
    var k := DifferingKey(left.entries, right.entries);
    if k in left.entries && k in right.entries {
      NothingMeansEqual(left.entries[k], right.entries[k]);
    }
    assert k in LeftEntries(left, right) || k in LeftEntries(right, left);
  }

  lemma {:induction false} ListsDiffer(left: seq<Tree>, right: seq<Tree>)
    requires left != right
    ensures LeftItems(left, right) != [] || LeftItems(right, left) != []
    decreases left, 0
  {
    if left != [] && right != [] {
      if left[0] != right[0] {
        NothingMeansEqual(left[0], right[0]);
      } else {
        assert left == [left[0]] + left[1..] && right == [right[0]] + right[1..];
        ListsDiffer(left[1..], right[1..]);
      }
    }
  }

  /** `d` is part of `t`: equal, or a dict of parts under keys of `t`, or a list of parts of items in order. */
  predicate IsPart(d: Tree, t: Tree)
    decreases d, 1
  {
    || d == t
    || (d.Dict? && t.Dict? && forall k :: k in d.entries ==> k in t.entries && IsPart(d.entries[k], t.entries[k]))
    || (d.List? && t.List? && ArePartsInOrder(d.items, t.items))
  }

  predicate ArePartsInOrder(d: seq<Tree>, t: seq<Tree>)
    decreases d, 0, |t|
  {
    || d == []
    || (t != [] && IsPart(d[0], t[0]) && ArePartsInOrder(d[1..], t[1..]))
    || (t != [] && ArePartsInOrder(d, t[1..]))
  }

  lemma {:induction false} EntryIs(left: Tree, right: Tree, k: Id)
    requires left.Dict? && right.Dict?
    ensures k in LeftEntries(left, right) <==>
              k in left.entries && (k !in right.entries || OnlyLeft(left.entries[k], right.entries[k]) != Null)
    ensures k in LeftEntries(left, right) ==>
              LeftEntries(left, right)[k]
              == if k in right.entries then OnlyLeft(left.entries[k], right.entries[k]) else left.entries[k]
  {
    if k in left.entries {
      var entry := LeftEntry(left, right, k);
      assert entry == if k !in right.entries then Some(left.entries[k])
                      else if OnlyLeft(left.entries[k], right.entries[k]) == Null then None
                      else Some(OnlyLeft(left.entries[k], right.entries[k]));
    }
    hide OnlyLeft;
  }

  /** A reported dict has exactly the keys of its side that the other lacks or under which something is reported. */
  lemma {:induction false} ReportedKeys(left: Tree, right: Tree)
    requires left.Dict? && right.Dict?
    ensures OnlyLeft(left, right) == Null ==> forall k :: k in left.entries ==> k in right.entries
    ensures OnlyLeft(left, right) != Null ==>
              && OnlyLeft(left, right).Dict?
              && (forall k :: k in OnlyLeft(left, right).entries <==>
                    k in left.entries
                    && (k !in right.entries || OnlyLeft(left.entries[k], right.entries[k]) != Null))
              && forall k :: k in OnlyLeft(left, right).entries ==>
                   OnlyLeft(left, right).entries[k]
                   == if k in right.entries then OnlyLeft(left.entries[k], right.entries[k]) else left.entries[k]
  {
    if left != right {
      OnlyLeftOfDicts(left, right);
      hide OnlyLeft, LeftEntries;
      forall k
        ensures k in LeftEntries(left, right) <==>
                  k in left.entries && (k !in right.entries || OnlyLeft(left.entries[k], right.entries[k]) != Null)
        ensures k in LeftEntries(left, right) ==>
                  LeftEntries(left, right)[k]
                  == if k in right.entries then OnlyLeft(left.entries[k], right.entries[k]) else left.entries[k]
      {
        EntryIs(left, right, k);
      }
    }
  }

  /** What is reported for one side is part of that side. */
  lemma {:induction false} ReportedIsOwnPart(left: Tree, right: Tree)
    ensures OnlyLeft(left, right) != Null ==> IsPart(OnlyLeft(left, right), left)
    decreases left, 1
  {
    if left != right && left.Dict? && right.Dict? {
      forall k | k in left.entries && k in right.entries
        ensures OnlyLeft(left.entries[k], right.entries[k]) != Null ==>
                  IsPart(OnlyLeft(left.entries[k], right.entries[k]), left.entries[k])
      {
        ReportedIsOwnPart(left.entries[k], right.entries[k]);
      }
      ReportedKeys(left, right);
      hide OnlyLeft;
    } else if left != right && left.List? && right.List? {
      ItemsAreOwnParts(left.items, right.items);
    }
  }

  lemma {:induction false} ItemsAreOwnParts(left: seq<Tree>, right: seq<Tree>)
    ensures ArePartsInOrder(LeftItems(left, right), left)
    decreases left, 0
  {
    if left != [] && right != [] {
      ReportedIsOwnPart(left[0], right[0]);
      ItemsAreOwnParts(left[1..], right[1..]);
      var sub, rest := OnlyLeft(left[0], right[0]), LeftItems(left[1..], right[1..]);
      hide OnlyLeft;
      if sub == Null {
        assert LeftItems(left, right) == rest;
      } else {
        assert LeftItems(left, right) == [sub] + rest && ([sub] + rest)[1..] == rest;
      }
    } else if left != [] {
      AllAreParts(left);
    }
  }

  lemma {:induction false} AllAreParts(items: seq<Tree>)
    ensures ArePartsInOrder(items, items)
  {
    if items != [] {
      AllAreParts(items[1..]);
    }
  }

  /** Different values that are not two dicts or two lists are reported whole. */
  lemma {:induction false} ReportedWhole(left: Tree, right: Tree)
    requires left != right && !(left.Dict? && right.Dict?) && !(left.List? && right.List?)
    ensures OnlyLeft(left, right) == left && OnlyLeft(right, left) == right
  {
  }

  /** The parts reported of the first `n` items of a list, index by index. */
  function PartsOf(left: seq<Tree>, right: seq<Tree>, n: nat): seq<Tree>
    requires n <= |left|
  {
    if n == 0 then []
    else
      var i := n - 1;
      PartsOf(left, right, i)
      + if i >= |right| then [left[i]]
        else if OnlyLeft(left[i], right[i]) == Null then []
        else [OnlyLeft(left[i], right[i])]
  }

  lemma {:induction false} PartsFront(left: seq<Tree>, right: seq<Tree>, n: nat)
    requires 0 < n <= |left|
    ensures PartsOf(left, right, n)
         == PartsOf(left[..1], right, 1) + PartsOf(left[1..], if right == [] then [] else right[1..], n - 1)
  {
    hide OnlyLeft;
    if n > 1 {
      PartsFront(left, right, n - 1);
    }
  }

  lemma {:induction false} ItemsAreParts(left: seq<Tree>, right: seq<Tree>)
    ensures LeftItems(left, right) == PartsOf(left, right, |left|)
    decreases |left|
  {
    hide OnlyLeft;
    if left != [] {
      var others := if right == [] then [] else right[1..];
      PartsFront(left, right, |left|);
      ItemsAreParts(left[1..], others);
      assert right == [] ==> LeftItems(left[1..], others) == left[1..];
      assert left == [left[0]] + left[1..];
    }
  }

  /** Of two lists, a reported list has the parts of its side's items in their order: all of those the other lacks. */
  lemma {:induction false} ReportedItems(left: seq<Tree>, right: seq<Tree>)
    requires left != right
    ensures var parts := PartsOf(left, right, |left|);
            OnlyLeft(List(left), List(right)) == if parts == [] then Null else List(parts)
  {
    ItemsAreParts(left, right);
    hide LeftItems, PartsOf;
  }

  // ----- diff_traces

  const WORLD := Id("world")
  const TRACE := Id("trace")
  const ACTION := Id("action")

  /** `world_without_trace`: empty unless the step's world is a dict. */
  function World(step: map<Id, Tree>): map<Id, Tree> {
    if WORLD in step && step[WORLD].Dict? then step[WORLD].entries - {TRACE} else map[]
  }

  /** What is compared of a step: the entries of its world, except the trace. */
  lemma {:induction false} WorldIs(step: map<Id, Tree>, k: Id)
    ensures k in World(step) <==>
              && Id("world") in step && step[Id("world")].Dict? && k in step[Id("world")].entries && k != Id("trace")
    ensures k in World(step) ==> World(step)[k] == step[Id("world")].entries[k]
  {
  }

  datatype Divergence =
    | AtStep(at: nat, action: Tree, onlyInBaseline: Tree, onlyInCandidate: Tree)
    | LengthMismatch(at: nat, baseline: nat, candidate: nat)

  /** The first `n` steps have equal worlds. */
  predicate SameWorlds(a: seq<map<Id, Tree>>, b: seq<map<Id, Tree>>, n: nat)
    requires n <= |a| && n <= |b|
  {
    forall i :: 0 <= i < n ==> World(a[i]) == World(b[i])
  }

  /** `diff_traces`: None exactly for equal lengths and worlds, otherwise the least index that differs. */
  method DiffTraces(a: seq<map<Id, Tree>>, b: seq<map<Id, Tree>>) returns (r: Option<Divergence>)
    ensures r.None? <==> |a| == |b| && SameWorlds(a, b, |a|)
    ensures r.Some? ==> r.value.at <= |a| && r.value.at <= |b| && SameWorlds(a, b, r.value.at)
    ensures r.Some? && r.value.AtStep? ==>
              var i := r.value.at;
              && i < |a| && i < |b| && World(a[i]) != World(b[i])
              && r.value.action == (if Id("action") in a[i] then a[i][Id("action")] else Null)
              && r.value.onlyInBaseline == OnlyLeft(Dict(World(a[i])), Dict(World(b[i])))
              && r.value.onlyInCandidate == OnlyLeft(Dict(World(b[i])), Dict(World(a[i])))
    ensures r.Some? && r.value.LengthMismatch? ==>
              && r.value.baseline == |a| != |b| == r.value.candidate
              && (r.value.at == |a| || r.value.at == |b|)
  {
    hide OnlyLeft, World;
    var n := if |a| < |b| then |a| else |b|;
    for i := 0 to n
      invariant SameWorlds(a, b, i)
    {
      var onlyA, onlyB := StructuralDiff(Dict(World(a[i])), Dict(World(b[i])));
      NothingMeansEqual(Dict(World(a[i])), Dict(World(b[i])));
      if onlyA != Null || onlyB != Null {
        return Some(AtStep(i, if ACTION in a[i] then a[i][ACTION] else Null, onlyA, onlyB));
      }
    }
    if |a| != |b| {
      return Some(LengthMismatch(n, |a|, |b|));
    }
    return None;
  }

  // ----- collect_diffs

  datatype Step = Key(k: Id) | Index(i: nat)

  datatype Entry = Entry(path: seq<Step>, expected: Tree, actual: Tree)

  /** `collect_diffs`, with a path as its steps. */
  function Collect(x: Tree, y: Tree, path: seq<Step>): seq<Entry>
    decreases x, 1, 0
  {
    if x == y then []
    else if x.Dict? && y.Dict? then CollectKeys(x, y, Sorted(x.entries.Keys + y.entries.Keys), path)
    else if x.List? && y.List? then CollectItems(x, y, if |x.items| > |y.items| then |x.items| else |y.items|, path)
    else [Entry(path, x, y)]
  }

  function CollectKey(x: Tree, y: Tree, k: Id, path: seq<Step>): seq<Entry>
    requires x.Dict? && y.Dict? && (k in x.entries || k in y.entries)
    decreases x, 0, 0
  {
    var child := path + [Key(k)];
    if k !in y.entries then [Entry(child, x.entries[k], Null)]
    else if k !in x.entries then [Entry(child, Null, y.entries[k])]
    else Collect(x.entries[k], y.entries[k], child)
  }

  function CollectKeys(x: Tree, y: Tree, keys: seq<Id>, path: seq<Step>): seq<Entry>
    requires x.Dict? && y.Dict? && forall k :: k in keys ==> k in x.entries || k in y.entries
    decreases x, 0, |keys| + 1
  {
    if keys == [] then []
    else CollectKeys(x, y, keys[..|keys| - 1], path) + CollectKey(x, y, keys[|keys| - 1], path)
  }

  function CollectItem(x: Tree, y: Tree, i: nat, path: seq<Step>): seq<Entry>
    requires x.List? && y.List? && (i < |x.items| || i < |y.items|)
    decreases x, 0, 0
  {
    var child := path + [Index(i)];
    if i >= |x.items| then [Entry(child, Null, y.items[i])]
    else if i >= |y.items| then [Entry(child, x.items[i], Null)]
    else Collect(x.items[i], y.items[i], child)
  }

  function CollectItems(x: Tree, y: Tree, n: nat, path: seq<Step>): seq<Entry>
    requires x.List? && y.List? && (n <= |x.items| || n <= |y.items|)
    decreases x, 0, n + 1
  {
    if n == 0 then [] else CollectItems(x, y, n - 1, path) + CollectItem(x, y, n - 1, path)
  }

  method CollectDiffs(x: Tree, y: Tree, path: seq<Step>) returns (out: seq<Entry>)
    ensures out == Collect(x, y, path)
    decreases x
  {
    hide Sorted, Ascending;
    if x == y {
      return [];
    }
    out := [];
    if x.Dict? && y.Dict? {
      var keys := Sorted(x.entries.Keys + y.entries.Keys);
      for i := 0 to |keys|
        invariant out == CollectKeys(x, y, keys[..i], path)
      {
        var k := keys[i];
        assert k in keys && keys[..i + 1][..i] == keys[..i];
        var child := path + [Key(k)];
        if k !in y.entries {
          out := out + [Entry(child, x.entries[k], Null)];
        } else if k !in x.entries {
          out := out + [Entry(child, Null, y.entries[k])];
        } else {
          var sub := CollectDiffs(x.entries[k], y.entries[k], child);
          out := out + sub;
        }
      }
      assert keys[..|keys|] == keys;
    } else if x.List? && y.List? {
      var n := if |x.items| > |y.items| then |x.items| else |y.items|;
      for i := 0 to n
        invariant out == CollectItems(x, y, i, path)
      {
        var child := path + [Index(i)];
        if i >= |x.items| {
          out := out + [Entry(child, Null, y.items[i])];
        } else if i >= |y.items| {
          out := out + [Entry(child, x.items[i], Null)];
        } else {
          var sub := CollectDiffs(x.items[i], y.items[i], child);
          out := out + sub;
        }
      }
    } else {
      return [Entry(path, x, y)];
    }
  }

  /** The subtree at a path, if the tree has one. */
  function At(x: Tree, path: seq<Step>): Option<Tree> {
    if path == [] then Some(x)
    else
      match path[0]
      case Key(k) => if x.Dict? && k in x.entries then At(x.entries[k], path[1..]) else None
      case Index(i) => if x.List? && i < |x.items| then At(x.items[i], path[1..]) else None
  }

  function OrNull(x: Option<Tree>): Tree {
    if x.Some? then x.value else Null
  }

  /** An entry names a place where the trees differ, and says what each has there. */
  predicate IsDifference(d: Entry, x: Tree, y: Tree, path: seq<Step>) {
    && path <= d.path
    && var q := d.path[|path|..];
       && At(x, q) != At(y, q) && d.expected == OrNull(At(x, q)) && d.actual == OrNull(At(y, q))
  }

  /** One path leads through the other. */
  predicate Comparable(p: seq<Step>, q: seq<Step>) {
    p <= q || q <= p
  }

  /** Some entry lies on the way to `p`, or below it. */
  ghost predicate IsReported(p: seq<Step>, entries: seq<Entry>, path: seq<Step>) {
    exists d :: d in entries && Comparable(path + p, d.path)
  }

  // What is below a place is below it in both trees.
  lemma {:induction false} Deeper(d: Entry, x: Tree, y: Tree, step: Step, path: seq<Step>)
    requires At(x, [step]).Some? && At(y, [step]).Some?
    requires IsDifference(d, At(x, [step]).value, At(y, [step]).value, path + [step])
    ensures IsDifference(d, x, y, path)
  {
    var q := d.path[|path|..];
    assert q[0] == step && q[1..] == d.path[|path + [step]|..];
    AtFirst(x, step, q[1..]);
    AtFirst(y, step, q[1..]);
    assert [step] + q[1..] == q;
    hide At;
  }

  lemma {:induction false} AtFirst(x: Tree, step: Step, rest: seq<Step>)
    ensures At(x, [step] + rest) == if At(x, [step]).Some? then At(At(x, [step]).value, rest) else None
  {
    assert ([step] + rest)[1..] == rest && [step][1..] == [];
  }

  /** Every entry is a true difference: the trees differ at its path, and hold what the entry says. */
  lemma {:induction false} DiffsAreSound(x: Tree, y: Tree, path: seq<Step>)
    ensures forall d :: d in Collect(x, y, path) ==> IsDifference(d, x, y, path)
    decreases x, 1, 0
  {
    if x == y {
    } else if x.Dict? && y.Dict? {
      KeysAreSound(x, y, Sorted(x.entries.Keys + y.entries.Keys), path);
    } else if x.List? && y.List? {
      ItemsAreSound(x, y, if |x.items| > |y.items| then |x.items| else |y.items|, path);
    } else {
      assert path[|path|..] == [];
    }
  }

  lemma {:induction false} OneSided(x: Tree, y: Tree, step: Step, path: seq<Step>)
    requires At(x, [step]) != At(y, [step])
    ensures IsDifference(Entry(path + [step], OrNull(At(x, [step])), OrNull(At(y, [step]))), x, y, path)
  {
    hide At;
    assert (path + [step])[|path|..] == [step];
  }

  lemma {:induction false} KeysAreSound(x: Tree, y: Tree, keys: seq<Id>, path: seq<Step>)
    requires x.Dict? && y.Dict? && forall k :: k in keys ==> k in x.entries || k in y.entries
    ensures forall d :: d in CollectKeys(x, y, keys, path) ==> IsDifference(d, x, y, path)
    decreases x, 0, |keys| + 1
  {
    if keys != [] {
      var k := keys[|keys| - 1];
      KeysAreSound(x, y, keys[..|keys| - 1], path);
      var step := Key(k);
      assert [step][1..] == [];
      hide IsDifference;
      if k in x.entries && k in y.entries {
        DiffsAreSound(x.entries[k], y.entries[k], path + [step]);
        forall d | d in CollectKey(x, y, k, path)
          ensures IsDifference(d, x, y, path)
        {
          Deeper(d, x, y, step, path);
        }
      } else {
        OneSided(x, y, step, path);
      }
    }
  }

  lemma {:induction false} ItemsAreSound(x: Tree, y: Tree, n: nat, path: seq<Step>)
    requires x.List? && y.List? && (n <= |x.items| || n <= |y.items|)
    ensures forall d :: d in CollectItems(x, y, n, path) ==> IsDifference(d, x, y, path)
    decreases x, 0, n + 1
  {
    if n > 0 {
      var i := n - 1;
      ItemsAreSound(x, y, i, path);
      var step := Index(i);
      assert [step][1..] == [];
      hide IsDifference;
      if i < |x.items| && i < |y.items| {
        DiffsAreSound(x.items[i], y.items[i], path + [step]);
        forall d | d in CollectItem(x, y, i, path)
          ensures IsDifference(d, x, y, path)
        {
          Deeper(d, x, y, step, path);
        }
      } else {
        OneSided(x, y, step, path);
      }
    }
  }

  lemma {:induction false} DifferingKey(a: map<Id, Tree>, b: map<Id, Tree>) returns (k: Id)
    requires a != b
    ensures (k in a || k in b) && !(k in a && k in b && a[k] == b[k])
  {
    if l :| l in a && l !in b {
      k := l;
    } else if l :| l in b && l !in a {
      k := l;
    } else {
      assert a.Keys == b.Keys;
      k :| k in a && a[k] != b[k];
    }
  }

  lemma {:induction false} DifferingIndex(a: seq<Tree>, b: seq<Tree>) returns (i: nat)
    requires a != b
    ensures (i < |a| || i < |b|) && !(i < |a| && i < |b| && a[i] == b[i])
  {
    if |a| != |b| {
      i := if |a| < |b| then |a| else |b|;
    } else {
      i :| i < |a| && a[i] != b[i];
    }
  }

  /** The step at which the search goes on: the path's own, or the first difference if the path ends here. */
  lemma {:induction false} DifferingStep(x: Tree, y: Tree, p: seq<Step>) returns (step: Step)
    requires At(x, p) != At(y, p) && ((x.Dict? && y.Dict?) || (x.List? && y.List?))
    ensures p != [] ==> step == p[0]
    ensures At(x, [step]) != At(y, [step])
    ensures x.Dict? ==> step.Key? && (step.k in x.entries || step.k in y.entries)
    ensures x.List? ==> step.Index? && (step.i < |x.items| || step.i < |y.items|)
  {
    if p != [] {
      step := p[0];
      assert p == [step] + p[1..];
      AtFirst(x, step, p[1..]);
      AtFirst(y, step, p[1..]);
    } else if x.Dict? {
      var k := DifferingKey(x.entries, y.entries);
      step := Key(k);
    } else {
      var i := DifferingIndex(x.items, y.items);
      step := Index(i);
    }
    assert [step][1..] == [];
  }

  lemma {:induction false} KeysInclude(x: Tree, y: Tree, keys: seq<Id>, k: Id, path: seq<Step>)
    requires x.Dict? && y.Dict? && (forall l :: l in keys ==> l in x.entries || l in y.entries) && k in keys
    ensures forall d :: d in CollectKey(x, y, k, path) ==> d in CollectKeys(x, y, keys, path)
    decreases |keys|
  {
    hide CollectKey;
    var n := |keys| - 1;
    if keys[n] != k {
      KeysInclude(x, y, keys[..n], k, path);
    }
  }

  lemma {:induction false} ItemsInclude(x: Tree, y: Tree, n: nat, i: nat, path: seq<Step>)
    requires x.List? && y.List? && (n <= |x.items| || n <= |y.items|) && i < n
    ensures forall d :: d in CollectItem(x, y, i, path) ==> d in CollectItems(x, y, n, path)
    decreases n
  {
    hide CollectItem;
    if i < n - 1 {
      ItemsInclude(x, y, n - 1, i, path);
    }
  }

  /** The entries found under one step. */
  function Under(x: Tree, y: Tree, step: Step, path: seq<Step>): seq<Entry> {
    var a, b := At(x, [step]), At(y, [step]);
    if a.Some? && b.Some? then Collect(a.value, b.value, path + [step])
    else [Entry(path + [step], OrNull(a), OrNull(b))]
  }

  lemma {:induction false} UnderIncluded(x: Tree, y: Tree, step: Step, path: seq<Step>)
    requires (x.Dict? && y.Dict?) || (x.List? && y.List?)
    requires At(x, [step]) != At(y, [step])
    ensures forall d :: d in Under(x, y, step, path) ==> d in Collect(x, y, path)
  {
    assert [step][1..] == [];
    if x.Dict? {
      KeysInclude(x, y, Sorted(x.entries.Keys + y.entries.Keys), step.k, path);
    } else {
      ItemsInclude(x, y, if |x.items| > |y.items| then |x.items| else |y.items|, step.i, path);
    }
  }

  lemma {:induction false} ComparableAbove(path: seq<Step>, step: Step, p: seq<Step>, q: seq<Step>)
    requires p == [] || p[0] == step
    requires Comparable(path + [step] + if p == [] then [] else p[1..], q)
    ensures Comparable(path + p, q)
  {
    if p == [] {
      assert path + [step] + [] == path + [step] && path + [] == path;
    } else {
      assert path + [step] + p[1..] == path + p;
    }
  }

  /** Every place where the trees differ is reported: by an entry on the way to it, or below it. */
  lemma {:induction false} DiffsAreComplete(x: Tree, y: Tree, path: seq<Step>, p: seq<Step>)
    requires At(x, p) != At(y, p)
    ensures IsReported(p, Collect(x, y, path), path)
    decreases x
  {
    if (x.Dict? && y.Dict?) || (x.List? && y.List?) {
      var step := DifferingStep(x, y, p);
      UnderIncluded(x, y, step, path);
      var a, b, q := At(x, [step]), At(y, [step]), if p == [] then [] else p[1..];
      if p != [] {
        assert p == [step] + q;
        AtFirst(x, step, q);
        AtFirst(y, step, q);
      }
      var d: Entry;
      if a.Some? && b.Some? {
        assert [step][1..] == [];
        hide Collect;
        DiffsAreComplete(a.value, b.value, path + [step], q);
        d :| d in Under(x, y, step, path) && Comparable(path + [step] + q, d.path);
      } else {
        d := Entry(path + [step], OrNull(a), OrNull(b));
      }
      ComparableAbove(path, step, p, d.path);
    } else {
      var d := Entry(path, x, y);
      assert d in Collect(x, y, path) && Comparable(path + p, d.path);
    }
  }

  /** No entry at all exactly when the trees are equal. */
  lemma {:induction false} NoDiffsMeansEqual(x: Tree, y: Tree, path: seq<Step>)
    ensures Collect(x, y, path) == [] <==> x == y
  {
    if x != y {
      assert At(x, []) != At(y, []);
      DiffsAreComplete(x, y, path, []);
    }
  }
}
