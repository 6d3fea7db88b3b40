/**
 Canonical JSON is canonical: two values have one canonical text exactly when they are equal.

 A printed value can be told from what follows it, so printing is injective; the canonical text prints the
 value with its keys sorted, which forgets the order of keys and nothing else.
 */
module JsonInjective {
  import opened Basics
  import opened CanonicalJson
  import opened Ids
  import opened JsonReader

  // ----- printing is injective

  /** An escaped string can be told from what follows its closing quote. */
  lemma {:induction false} SpellingsReadable(a: string, b: string, r: string, s: string)
    requires SpellingAll(a) + ['"'] + r == SpellingAll(b) + ['"'] + s
    ensures a == b && r == s
  {
    hide SpellingAll, ReadString;
    StringRead(a, r);
    StringRead(b, s);
  }

  /** A printed value can be told from what follows it. */
  lemma {:induction false} ValuesReadable(x: Json, y: Json, r: string, s: string)
    requires IsDict(x) && IsDict(y) && Ends(r) && Ends(s)
    requires Dumps(x) + r == Dumps(y) + s
    ensures x == y && r == s
  {
    hide Dumps, ReadValue, IsDict, Ends;
    ValueRead(x, r);
    ValueRead(y, s);
  }

  // ----- canonical texts

  /** Equal values are those that sorting the keys makes identical. */
  lemma {:induction false} SameWhenSorted(x: Json, y: Json)
    requires IsDict(x) && IsDict(y)
    ensures Same(x, y) <==> SortKeys(x) == SortKeys(y)
    decreases x
  {
    if x.Array? && y.Array? && |x.items| == |y.items| {
      forall i | 0 <= i < |x.items|
        ensures Same(x.items[i], y.items[i]) <==> SortKeys(x.items[i]) == SortKeys(y.items[i])
      {
        SameWhenSorted(x.items[i], y.items[i]);
      }
      SameArrays(x, y);
    } else if x.Object? && y.Object? && x.entries.Keys == y.entries.Keys {
      forall k | k in x.entries
        ensures Same(x.entries[k], y.entries[k]) <==> SortKeys(x.entries[k]) == SortKeys(y.entries[k])
      {
        SameWhenSorted(x.entries[k], y.entries[k]);
      }
      SameObjects(x, y);
    } else if x.Object? && y.Object? {
      assert SortKeys(x).entries.Keys == x.entries.Keys && SortKeys(y).entries.Keys == y.entries.Keys;
    }
  }

  lemma {:induction false} SameArrays(x: Json, y: Json)
    requires x.Array? && y.Array? && |x.items| == |y.items|
    requires forall i :: 0 <= i < |x.items| ==>
               (Same(x.items[i], y.items[i]) <==> SortKeys(x.items[i]) == SortKeys(y.items[i]))
    ensures Same(x, y) <==> SortKeys(x) == SortKeys(y)
  {
    hide SortAll;
    var a, b := SortAll(x.items), SortAll(y.items);
    assert a == b <==> forall i :: 0 <= i < |a| ==> a[i] == b[i];
  }

  lemma {:induction false} SameOrders(x: Json, y: Json)
    requires x.Object? && y.Object? && IsDict(x) && IsDict(y) && x.entries.Keys == y.entries.Keys
    ensures Arranged(x.order) == Arranged(y.order)
  {
    ArrangedAscends(x.order);
    ArrangedAscends(y.order);
    hide Arranged, Ascending, Distinct;
    AscendingUnique(Arranged(x.order), Arranged(y.order));
  }

  lemma {:induction false} SameObjects(x: Json, y: Json)
    requires x.Object? && y.Object? && IsDict(x) && IsDict(y) && x.entries.Keys == y.entries.Keys
    requires forall k :: k in x.entries ==>
               (Same(x.entries[k], y.entries[k]) <==> SortKeys(x.entries[k]) == SortKeys(y.entries[k]))
    ensures Same(x, y) <==> SortKeys(x) == SortKeys(y)
  {
    SameOrders(x, y);
    hide Arranged, IsDict;
    var a, b := SortKeys(x).entries, SortKeys(y).entries;
    assert a == b <==> forall k :: k in x.entries ==> a[k] == b[k];
  }

  /** Two values have the same canonical text exactly when they are equal, whatever the order of their keys. */
  lemma {:induction false} CanonicalDecidesEquality(x: Json, y: Json)
    requires IsDict(x) && IsDict(y)
    ensures Canonical(x) == Canonical(y) <==> Same(x, y)
  {
    SameWhenSorted(x, y);
    SortKeysIdempotent(x);
    SortKeysIdempotent(y);
    SortKeysIsDict(x);
    SortKeysIsDict(y);
    if Canonical(x) == Canonical(y) {
      ValuesReadable(SortKeys(x), SortKeys(y), [], []);
    }
  }

  /** What is read from a canonical text is the value printed, with its keys sorted. */
  lemma {:induction false} CanonicalRead(x: Json)
    requires IsDict(x)
    ensures ReadJson(Canonical(x)) == Some(SortKeys(x)) && IsDict(SortKeys(x)) && Same(x, SortKeys(x))
  {
    SortKeysIdempotent(x);
    SortKeysIsDict(x);
    SameWhenSorted(x, SortKeys(x));
    DumpsRead(SortKeys(x));
    hide SortKeys, Dumps, ReadJson, IsDict, Same;
  }
}
