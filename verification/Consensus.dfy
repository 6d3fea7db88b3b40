/** Field-by-field agreement across submissions (`compute_agreement`) and the verdict on it. */
module Consensus {
  import opened Basics
  import opened Ids
  import opened Mailbox

  datatype Status = Confirmed | Diverged

  /** The result for one field; `counts` has the number of occurrences of every value. */
  datatype Agreement = Agreement(
    field: Id, status: Status, winner: Id, count: nat, total: nat, threshold: nat, counts: map<Id, nat>)

  // ----- counting

  /** The non-null values of `field`, in submission order. */
  function Values(subs: seq<Submission>, field: Id): (values: seq<Id>)
    ensures |values| <= |subs|
    decreases |subs|
  {
    if subs == [] then []
    else
      var last := subs[|subs| - 1];
      Values(subs[..|subs| - 1], field) + if field in last.summary then [last.summary[field]] else []
  }

  function Count(values: seq<Id>, v: Id): (n: nat)
    ensures n <= |values|
    ensures n > 0 <==> v in values
    decreases |values|
  {
    if values == [] then 0
    else
      var last := |values| - 1;
      assert values == values[..last] + [values[last]];
      Count(values[..last], v) + if values[last] == v then 1 else 0
  }

  /** `w` occurs before `v` does. */
  ghost predicate OccursFirst(values: seq<Id>, w: Id, v: Id) {
    exists i :: 0 <= i < |values| && values[i] == w && forall j :: 0 <= j <= i ==> values[j] != v
  }

  /** `Counter(values).most_common(1)`: the most frequent value, the earliest of several. */
  ghost predicate IsWinner(values: seq<Id>, w: Id) {
    && w in values
    && forall v :: v in values && v != w ==>
         Count(values, v) < Count(values, w) || (Count(values, v) == Count(values, w) && OccursFirst(values, w, v))
  }

  /** `max(2, n - 1)`. */
  function DefaultThreshold(n: nat): nat {
    if n >= 3 then n - 1 else 2
  }

  function Fields(subs: seq<Submission>): set<Id> {
    set s, f | s in subs && f in s.summary :: f
  }

  /** The result for one field. */
  ghost predicate IsAgreement(subs: seq<Submission>, threshold: nat, a: Agreement) {
    var values := Values(subs, a.field);
    && IsWinner(values, a.winner)
    && a.count == Count(values, a.winner)
    && (a.status == if a.count >= threshold then Confirmed else Diverged)
    && a.total == |subs| && a.threshold == threshold
    && IsCounts(values, a.counts)
  }

  /** Every value that occurs, with its number of occurrences. */
  ghost predicate IsCounts(values: seq<Id>, counts: map<Id, nat>) {
    forall v :: (v in counts <==> v in values) && (v in counts ==> counts[v] == Count(values, v))
  }

  // ----- counting in loops

  /** The counter of a list, with its keys in insertion order. */
  ghost predicate IsCounter(values: seq<Id>, counter: map<Id, nat>, order: seq<Id>) {
    && (forall v :: v in counter <==> v in values)
    && (forall v :: v in counter ==> counter[v] == Count(values, v))
    && (forall v :: v in order <==> v in values)
    && forall i, j :: 0 <= i < j < |order| ==> order[i] != order[j] && OccursFirst(values, order[i], order[j])
  }

  lemma {:induction false} StillFirst(values: seq<Id>, more: Id, w: Id, v: Id)
    ensures OccursFirst(values, w, v) ==> OccursFirst(values + [more], w, v)
    ensures w in values && more !in values ==> OccursFirst(values + [more], w, more)
  {
    var longer := values + [more];
    if OccursFirst(values, w, v) {
      var i :| 0 <= i < |values| && values[i] == w && forall j :: 0 <= j <= i ==> values[j] != v;
      assert longer[i] == w;
    }
    if w in values && more !in values {
      var i :| 0 <= i < |values| && values[i] == w;
      assert longer[i] == w;
    }
  }

  lemma {:induction false} CountOneMore(values: seq<Id>, more: Id, w: Id)
    ensures Count(values + [more], w) == Count(values, w) + if w == more then 1 else 0
  {
    assert (values + [more])[..|values|] == values;
  }

  method CountValues(values: seq<Id>) returns (counter: map<Id, nat>, order: seq<Id>)
    ensures IsCounter(values, counter, order)
  {
    hide OccursFirst, Count;
    counter, order := map[], [];
    for i := 0 to |values|
      invariant IsCounter(values[..i], counter, order)
    {
      var v := values[i];
      assert values[..i + 1] == values[..i] + [v];
      forall w
        ensures Count(values[..i + 1], w) == Count(values[..i], w) + if w == v then 1 else 0
      {
        CountOneMore(values[..i], v, w);
      }
      forall w, x
        ensures OccursFirst(values[..i], w, x) ==> OccursFirst(values[..i + 1], w, x)
      {
        StillFirst(values[..i], v, w, x);
      }
      forall w | w in values[..i] && v !in values[..i]
        ensures OccursFirst(values[..i + 1], w, v)
      {
        StillFirst(values[..i], v, w, v);
      }
      if v in counter {
        counter := counter[v := counter[v] + 1];
      } else {
        ghost var before := order;
        counter := counter[v := 1];
        order := order + [v];
        forall j, k | 0 <= j < k < |order|
          ensures order[j] != order[k] && OccursFirst(values[..i + 1], order[j], order[k])
        {
          assert before[j] in before;
          if k < |before| {
            assert OccursFirst(values[..i], before[j], before[k]);
          }
        }
      }
    }
    assert values[..|values|] == values;
  }

  /** `counter.most_common(1)[0]`, for a counter with its keys in insertion order. */
  method MostCommon(ghost values: seq<Id>, counter: map<Id, nat>, order: seq<Id>) returns (winner: Id, count: nat)
    requires values != [] && IsCounter(values, counter, order)
    ensures IsWinner(values, winner) && count == Count(values, winner)
  {
    hide OccursFirst, Count;
    assert values[0] in values && order != [];
    assert forall i :: 0 <= i < |order| ==> order[i] in order;
    ghost var best := 0;
    winner, count := order[0], counter[order[0]];
    for i := 1 to |order|
      invariant 0 <= best < i && winner == order[best] && count == counter[winner]
      invariant forall j :: 0 <= j < i ==> counter[order[j]] <= count
      invariant forall j :: 0 <= j < best ==> counter[order[j]] < count
    {
      if counter[order[i]] > count {
        winner, count := order[i], counter[order[i]];
        best := i;
      }
    }
    forall v | v in values && v != winner
      ensures Count(values, v) < Count(values, winner)
           || (Count(values, v) == Count(values, winner) && OccursFirst(values, winner, v))
    {
      var j :| 0 <= j < |order| && order[j] == v;
    }
  }

  /** `compute_agreement`; `threshold` is None to ask for the default. */
  method ComputeAgreement(subs: seq<Submission>, threshold: Option<nat>) returns (results: seq<Agreement>)
    ensures subs == [] ==> results == []
    ensures var t := if threshold.Some? then threshold.value else DefaultThreshold(|subs|);
            forall a :: a in results ==> IsAgreement(subs, t, a)
    ensures subs != [] ==> forall f :: f in Fields(subs) <==> exists a :: a in results && a.field == f
    ensures forall i, j :: 0 <= i < j < |results| ==> Less(results[i].field, results[j].field)
  {
    hide Less, IsWinner, IsAgreement;
    results := [];
    if subs == [] {
      return;
    }
    var t := if threshold.Some? then threshold.value else DefaultThreshold(|subs|);
    var fields := Sorted(Fields(subs));
    for i := 0 to |fields|
      invariant |results| == i
      invariant forall j :: 0 <= j < i ==> results[j].field == fields[j] && IsAgreement(subs, t, results[j])
    {
      assert fields[i] in fields;
      FieldHasValue(subs, fields[i]);
      var a := AgreeOn(subs, t, fields[i]);
      results := results + [a];
    }
    forall f
      ensures f in Fields(subs) <==> exists a :: a in results && a.field == f
    {
      if f in fields {
        var i :| 0 <= i < |fields| && fields[i] == f;
        assert results[i] in results;
      }
      if a :| a in results && a.field == f {
        var i :| 0 <= i < |results| && results[i] == a;
        assert fields[i] in fields;
      }
    }
  }

  /** The body of the field loop. A field with a value is never skipped. */
  method AgreeOn(subs: seq<Submission>, threshold: nat, field: Id) returns (a: Agreement)
    requires Values(subs, field) != []
    ensures a.field == field && IsAgreement(subs, threshold, a)
  {
    hide IsWinner, Count;
    var values: seq<Id> := [];
    for i := 0 to |subs|
      invariant values == Values(subs[..i], field)
    {
      assert subs[..i + 1][..i] == subs[..i];
      if field in subs[i].summary {
        values := values + [subs[i].summary[field]];
      }
    }
    assert subs[..|subs|] == subs;
    var counter, order := CountValues(values);
    var winner, count := MostCommon(values, counter, order);
    var status := if count >= threshold then Confirmed else Diverged;
    a := Agreement(field, status, winner, count, |subs|, threshold, counter);
  }

  lemma {:induction false} FieldHasValue(subs: seq<Submission>, field: Id)
    requires field in Fields(subs)
    ensures Values(subs, field) != []
    decreases |subs|
  {
    var last := |subs| - 1;
    assert subs == subs[..last] + [subs[last]];
    if field !in subs[last].summary {
      FieldHasValue(subs[..last], field);
    }
  }

  // ----- the verdict

  datatype Verdict = Inconclusive | VerdictDiverged | ConfirmedWithFailures | VerdictConfirmed

  /** `compute_verdict`. */
  function ComputeVerdict(agreement: seq<Agreement>, exitCodes: seq<int>): Verdict {
    if agreement == [] then Inconclusive
    else if forall a :: a in agreement ==> a.status == Diverged then VerdictDiverged
    else if exists a :: a in agreement && a.status == Diverged then VerdictDiverged
    else if exists c :: c in exitCodes && c != 0 then ConfirmedWithFailures
    else VerdictConfirmed
  }

  const OVERVIEW_HASH := Id("overview/hash")

  /** `agreed_hash`. */
  function AgreedHash(agreement: seq<Agreement>): Option<Id> {
    if agreement == [] then None
    else if agreement[0].field == OVERVIEW_HASH && agreement[0].status == Confirmed then Some(agreement[0].winner)
    else AgreedHash(agreement[1..])
  }

  lemma {:induction false} AgreedHashIsConfirmed(agreement: seq<Agreement>)
    requires AgreedHash(agreement).Some?
    ensures exists a :: a in agreement && a.field == OVERVIEW_HASH && a.status == Confirmed
                        && AgreedHash(agreement) == Some(a.winner)
  {
    if agreement[0].field == OVERVIEW_HASH && agreement[0].status == Confirmed {
      assert agreement[0] in agreement;
    } else {
      AgreedHashIsConfirmed(agreement[1..]);
      var a :| a in agreement[1..] && a.field == OVERVIEW_HASH && a.status == Confirmed
               && AgreedHash(agreement[1..]) == Some(a.winner);
      assert a in agreement;
    }
  }

  /** What each verdict says. */
  lemma {:induction false} VerdictMeans(agreement: seq<Agreement>, exitCodes: seq<int>)
    ensures ComputeVerdict(agreement, exitCodes) == Inconclusive <==> agreement == []
    ensures ComputeVerdict(agreement, exitCodes) == VerdictDiverged <==>
              exists a :: a in agreement && a.status == Diverged
    ensures ComputeVerdict(agreement, exitCodes) == ConfirmedWithFailures <==>
              && agreement != [] && (forall a :: a in agreement ==> a.status == Confirmed)
              && exists c :: c in exitCodes && c != 0
    ensures ComputeVerdict(agreement, exitCodes) == VerdictConfirmed <==>
              && agreement != [] && (forall a :: a in agreement ==> a.status == Confirmed)
              && forall c :: c in exitCodes ==> c == 0
  {
    assert agreement != [] ==> agreement[0] in agreement;
  }

  /** The default threshold is the least number that is at least 2 and leaves out at most one submission. */
  lemma {:induction false} DefaultThresholdIs(n: nat, t: nat)
    ensures DefaultThreshold(n) <= t <==> 2 <= t && n - 1 <= t
  {
  }

  /** There is an agreed hash exactly when the overview field is confirmed. */
  lemma {:induction false} AgreedHashExists(agreement: seq<Agreement>)
    ensures AgreedHash(agreement).Some? <==>
              exists a :: a in agreement && a.field == Id("overview/hash") && a.status == Confirmed
  {
    if agreement != [] {
      AgreedHashExists(agreement[1..]);
      assert forall a :: a in agreement <==> a == agreement[0] || a in agreement[1..];
    }
  }

  /** The values of a field come in the order of the submissions. */
  lemma {:induction false} ValuesConcat(a: seq<Submission>, b: seq<Submission>, field: Id)
    ensures Values(a + b, field) == Values(a, field) + Values(b, field)
    ensures |a| == 1 ==> Values(a, field) == if field in a[0].summary then [a[0].summary[field]] else []
    decreases |b|
  {
    if b == [] {
      assert a + b == a;
      assert |a| == 1 ==> a[..0] == [];
    } else {
      var n := |b| - 1;
      ValuesConcat(a, b[..n], field);
      assert (a + b)[..|a + b| - 1] == a + b[..n] && (a + b)[|a + b| - 1] == b[n];
    }
  }
}
