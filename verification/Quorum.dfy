/**
 What agreement means when some runners are dishonest: no false quorum, a guaranteed honest quorum, and
 when the outcome is independent of the order in which messages arrive.
 */
module Quorum {
  import opened Ids
  import opened Mailbox
  import opened Consensus

  ghost predicate OnePerRunner(subs: seq<Submission>) {
    forall i, j :: 0 <= i < j < |subs| ==> subs[i].runner != subs[j].runner
  }

  /** The runners whose submission has `v` in `field`. */
  ghost function Reporters(subs: seq<Submission>, field: Id, v: Id): set<Id> {
    set s | s in subs && field in s.summary && s.summary[field] == v :: s.runner
  }

  lemma {:induction false} ReportersOneMore(subs: seq<Submission>, last: Submission, field: Id, v: Id)
    ensures Reporters(subs + [last], field, v)
         == Reporters(subs, field, v) + if field in last.summary && last.summary[field] == v then {last.runner} else {}
  {
    assert forall s :: s in subs + [last] <==> s in subs || s == last;
  }

  lemma {:induction false} ReporterSubmitted(subs: seq<Submission>, field: Id, v: Id, r: Id)
    requires r in Reporters(subs, field, v)
    ensures exists i :: 0 <= i < |subs| && subs[i].runner == r
  {
    var s :| s in subs && s.runner == r;
  }

  /** With one submission per runner, a value's count is its number of reporters. */
  lemma {:induction false} CountIsReporters(subs: seq<Submission>, field: Id, v: Id)
    requires OnePerRunner(subs)
    ensures Count(Values(subs, field), v) == |Reporters(subs, field, v)|
    decreases |subs|
  {
    hide Count, Reporters;
    if subs == [] {
      NoReporters(field, v);
    } else {
      var n := |subs| - 1;
      var last := subs[n];
      var before := Reporters(subs[..n], field, v);
      CountIsReporters(subs[..n], field, v);
      assert subs == subs[..n] + [last];
      ReportersOneMore(subs[..n], last, field, v);
      if last.runner in before {
        ReporterSubmitted(subs[..n], field, v, last.runner);
      }
      if field in last.summary {
        CountOneMore(Values(subs[..n], field), last.summary[field], v);
        assert Values(subs, field) == Values(subs[..n], field) + [last.summary[field]];
      } else {
        assert Values(subs, field) == Values(subs[..n], field);
      }
    }
  }

  lemma {:induction false} NoReporters(field: Id, v: Id)
    ensures Count(Values([], field), v) == 0 && Reporters([], field, v) == {}
  {
  }

  // ----- honest and dishonest runners

  /** Every message that claims to come from an honest runner, and speaks of `field`, reports `v`. */
  ghost predicate HonestReport(messages: seq<Message>, honest: set<Id>, field: Id, v: Id) {
    forall m ::
      m in messages && WellNamed(m) && m.runner.value in honest && field in m.summary ==> m.summary[field] == v
  }

  ghost function Dishonest(messages: seq<Message>, honest: set<Id>): set<Id> {
    set r | r in Runners(messages) && r !in honest
  }

  /** Honest runners who posted, and speak of `field` in every message. */
  ghost function HonestVoters(messages: seq<Message>, honest: set<Id>, field: Id): set<Id> {
    set r | r in Runners(messages) && r in honest && forall m :: m in OfRunner(messages, r) ==> field in m.summary
  }

  lemma {:induction false} SubmissionIsKept(messages: seq<Message>, s: Submission)
    requires s in Deduplicated(messages)
    ensures s.runner in Runners(messages)
    ensures exists m :: m in messages && WellNamed(m) && m.runner.value == s.runner && m.summary == s.summary
  {
    hide WellNamed, Runners, Unique, Latest, OfRunner;
    var i :| 0 <= i < |Deduplicated(messages)| && Deduplicated(messages)[i] == s;
    assert s.runner in Runners(messages);
    assert Kept(messages, s.runner) in messages;
  }

  /** A value honest runners do not report is reported only by dishonest ones. */
  lemma {:induction false} FalseReportersAreDishonest(messages: seq<Message>, honest: set<Id>, field: Id, v: Id, w: Id)
    requires HonestReport(messages, honest, field, v) && w != v
    ensures Reporters(Deduplicated(messages), field, w) <= Dishonest(messages, honest)
  {
    hide WellNamed, Runners, Deduplicated;
    forall r | r in Reporters(Deduplicated(messages), field, w)
      ensures r in Dishonest(messages, honest)
    {
      var s :| s in Deduplicated(messages) && field in s.summary && s.summary[field] == w && s.runner == r;
      SubmissionIsKept(messages, s);
    }
  }

  lemma {:induction false} SubsetSize(a: set<Id>, b: set<Id>)
    requires a <= b
    ensures |a| <= |b|
  {
    if a != {} {
      var x :| x in a;
      SubsetSize(a - {x}, b - {x});
    }
  }

  lemma {:induction false} DeduplicatedOnePerRunner(messages: seq<Message>)
    ensures OnePerRunner(Deduplicated(messages))
  {
    hide Runners, Kept;
  }

  /**
   No false quorum: if honest runners report one value for a field, and fewer than `threshold` runners
   are dishonest, no other value is confirmed, whatever else is posted and however often.
   */
  lemma {:induction false} NoFalseQuorum(messages: seq<Message>, honest: set<Id>, field: Id, v: Id, threshold: nat,
                                         a: Agreement)
    requires HonestReport(messages, honest, field, v)
    requires |Dishonest(messages, honest)| < threshold
    requires IsAgreement(Deduplicated(messages), threshold, a) && a.field == field && a.status == Confirmed
    ensures a.winner == v
  {
    hide HonestReport, Dishonest, IsWinner, Deduplicated, Reporters;
    DeduplicatedOnePerRunner(messages);
    CountIsReporters(Deduplicated(messages), field, a.winner);
    if a.winner != v {
      FalseReportersAreDishonest(messages, honest, field, v, a.winner);
      SubsetSize(Reporters(Deduplicated(messages), field, a.winner), Dishonest(messages, honest));
    }
  }

  lemma {:induction false} HonestVotersReport(messages: seq<Message>, honest: set<Id>, field: Id, v: Id)
    requires HonestReport(messages, honest, field, v)
    ensures HonestVoters(messages, honest, field) <= Reporters(Deduplicated(messages), field, v)
  {
    hide WellNamed, Runners, Unique, Latest;
    forall r | r in HonestVoters(messages, honest, field)
      ensures r in Reporters(Deduplicated(messages), field, v)
    {
      var i :| 0 <= i < |Runners(messages)| && Runners(messages)[i] == r;
      var s := Deduplicated(messages)[i];
      assert s in Deduplicated(messages) && s.runner == r;
      assert Kept(messages, r) in OfRunner(messages, r);
    }
  }

  /** The other side: `threshold` honest voters against fewer dishonest runners always confirm their value. */
  lemma {:induction false} HonestQuorum(messages: seq<Message>, honest: set<Id>, field: Id, v: Id, threshold: nat,
                                        a: Agreement)
    requires HonestReport(messages, honest, field, v)
    requires |Dishonest(messages, honest)| < threshold <= |HonestVoters(messages, honest, field)|
    requires IsAgreement(Deduplicated(messages), threshold, a) && a.field == field
    ensures a.status == Confirmed && a.winner == v
  {
    var subs := Deduplicated(messages);
    hide HonestReport, Dishonest, Deduplicated, Reporters, HonestVoters, Count, Values;
    DeduplicatedOnePerRunner(messages);
    CountIsReporters(subs, field, v);
    HonestVotersReport(messages, honest, field, v);
    SubsetSize(HonestVoters(messages, honest, field), Reporters(subs, field, v));
    assert Count(Values(subs, field), v) >= threshold;
    NoFalseQuorum(messages, honest, field, v, threshold, a.(status := Confirmed, threshold := threshold)) by {
      assert Count(Values(subs, field), a.winner) >= Count(Values(subs, field), v);
    }
  }

  // ----- order of submissions

  lemma {:induction false} TwoCounts(values: seq<Id>, v: Id, w: Id)
    requires v != w
    ensures Count(values, v) + Count(values, w) <= |values|
    decreases |values|
  {
    if values != [] {
      TwoCounts(values[..|values| - 1], v, w);
    }
  }

  lemma {:induction false} CountAt(subs: seq<Submission>, i: nat, field: Id, v: Id)
    requires i < |subs|
    ensures var s := subs[i];
            Count(Values(subs, field), v)
            == Count(Values(subs[..i] + subs[i + 1..], field), v)
               + if field in s.summary && s.summary[field] == v then 1 else 0
    decreases |subs|
  {
    hide Count;
    var n := |subs| - 1;
    ValuesOneMore(subs[..n], subs[n], field, v);
    assert subs == subs[..n] + [subs[n]];
    if i < n {
      CountAt(subs[..n], i, field, v);
      var shorter := subs[..n][..i] + subs[..n][i + 1..];
      assert subs[..i] + subs[i + 1..] == shorter + [subs[n]];
      ValuesOneMore(shorter, subs[n], field, v);
    } else {
      assert subs[..i] + subs[i + 1..] == subs[..n];
    }
  }

  lemma {:induction false} ValuesOneMore(subs: seq<Submission>, last: Submission, field: Id, v: Id)
    ensures Count(Values(subs + [last], field), v)
         == Count(Values(subs, field), v) + if field in last.summary && last.summary[field] == v then 1 else 0
  {
    hide Count;
    assert (subs + [last])[..|subs|] == subs;
    if field in last.summary {
      CountOneMore(Values(subs, field), last.summary[field], v);
    } else {
      assert Values(subs + [last], field) == Values(subs, field);
    }
  }

  lemma {:induction false} WithoutOne(s: seq<Submission>, i: nat)
    requires i < |s|
    ensures multiset(s[..i] + s[i + 1..]) == multiset(s) - multiset{s[i]}
  {
    assert s == s[..i] + [s[i]] + s[i + 1..];
  }

  lemma {:induction false} SameSize(a: seq<Submission>, b: seq<Submission>)
    requires multiset(a) == multiset(b)
    ensures |a| == |b|
  {
    assert |multiset(a)| == |a| && |multiset(b)| == |b|;
  }

  lemma {:induction false} FindFirst(a: seq<Submission>, b: seq<Submission>) returns (i: nat)
    requires multiset(a) == multiset(b) && a != []
    ensures i < |b| && b[i] == a[0]
  {
    assert a[0] in multiset(a);
    assert a[0] in b;
    i :| 0 <= i < |b| && b[i] == a[0];
  }

  /** Taking the first submission of one order out of both. */
  lemma {:induction false} RemoveFirst(a: seq<Submission>, b: seq<Submission>) returns (i: nat)
    requires multiset(a) == multiset(b) && a != []
    ensures i < |b| && b[i] == a[0] && multiset(a[1..]) == multiset(b[..i] + b[i + 1..])
  {
    i := FindFirst(a, b);
    WithoutOne(a, 0);
    WithoutOne(b, i);
    assert a[..0] + a[1..] == a[1..];
  }

  /** Counts do not depend on the order of the submissions. */
  lemma {:induction false} CountIgnoresOrder(a: seq<Submission>, b: seq<Submission>, field: Id, v: Id)
    requires multiset(a) == multiset(b)
    ensures Count(Values(a, field), v) == Count(Values(b, field), v)
    ensures |a| == |b|
    decreases |a|
  {
    hide Count, Values;
    SameSize(a, b);
    if a != [] {
      var i := RemoveFirst(a, b);
      CountIgnoresOrder(a[1..], b[..i] + b[i + 1..], field, v);
      CountAt(a, 0, field, v);
      CountAt(b, i, field, v);
      assert a[..0] + a[1..] == a[1..];
    }
  }

  /** Any threshold above half the submissions makes the outcome for a field independent of their order. */
  lemma {:induction false} AgreementIgnoresOrder(a: seq<Submission>, b: seq<Submission>, threshold: nat, x: Agreement,
                                                 y: Agreement)
    requires multiset(a) == multiset(b) && 2 * threshold > |a|
    requires IsAgreement(a, threshold, x) && IsAgreement(b, threshold, y) && x.field == y.field
    ensures x.count == y.count && x.status == y.status && x.counts == y.counts
    ensures x.status == Confirmed ==> x == y
  {
    hide Count, Values, OccursFirst, IsCounts;
    CountIgnoresOrder(a, b, x.field, x.winner);
    CountIgnoresOrder(a, b, x.field, y.winner);
    WinnerIsGreatest(Values(a, x.field), x.winner, y.winner);
    WinnerIsGreatest(Values(b, x.field), y.winner, x.winner);
    if x.winner != y.winner {
      TwoCounts(Values(a, x.field), x.winner, y.winner);
    }
    CountsIgnoreOrder(a, b, x, y);
  }

  /** The counts of all values do not depend on the order, whatever the threshold. */
  lemma {:induction false} CountsIgnoreOrder(a: seq<Submission>, b: seq<Submission>, x: Agreement, y: Agreement)
    requires multiset(a) == multiset(b) && x.field == y.field
    requires IsCounts(Values(a, x.field), x.counts) && IsCounts(Values(b, y.field), y.counts)
    ensures x.counts == y.counts
  {
    hide Count, Values;
    forall v
      ensures v in x.counts <==> v in y.counts
      ensures v in x.counts ==> x.counts[v] == y.counts[v]
    {
      CountIgnoresOrder(a, b, x.field, v);
    }
  }

  lemma {:induction false} WinnerIsGreatest(values: seq<Id>, w: Id, v: Id)
    requires IsWinner(values, w)
    ensures Count(values, v) <= Count(values, w)
  {
    hide OccursFirst;
    if v !in values {
      assert Count(values, v) == 0;
    }
  }

  lemma {:induction false} DefaultThresholdIsMajority(n: nat)
    ensures 2 * DefaultThreshold(n) > n
  {
  }

  /**
   A tie breaks the independence: of several most frequent values, each one wins for some order of the same
   submissions.
   */
  lemma {:induction false} TiesDependOnOrder(subs: seq<Submission>, field: Id, i: nat)
    requires i < |subs| && field in subs[i].summary
    requires forall v :: Count(Values(subs, field), v) <= Count(Values(subs, field), subs[i].summary[field])
    ensures var order := [subs[i]] + (subs[..i] + subs[i + 1..]);
            multiset(order) == multiset(subs) && IsWinner(Values(order, field), subs[i].summary[field])
  {
    var order := [subs[i]] + (subs[..i] + subs[i + 1..]);
    assert subs == subs[..i] + [subs[i]] + subs[i + 1..];
    var w := subs[i].summary[field];
    var values := Values(order, field);
    FirstValue(order, field);
    forall v | v in values && v != w
      ensures Count(values, v) < Count(values, w) || (Count(values, v) == Count(values, w) && OccursFirst(values, w, v))
    {
      CountIgnoresOrder(order, subs, field, v);
      CountIgnoresOrder(order, subs, field, w);
      assert values[0] == w;
    }
    assert values[0] in values;
  }

  /** No other value occurs as often as `w` does. */
  ghost predicate IsUniqueGreatest(values: seq<Id>, w: Id) {
    forall v :: v in values && v != w ==> Count(values, v) < Count(values, w)
  }

  /**
   The winner of a field is the same for every order of the submissions exactly when no other value occurs
   as often.
   */
  lemma {:induction false} WinnerIgnoresOrderExactly(subs: seq<Submission>, field: Id, w: Id)
    requires IsWinner(Values(subs, field), w)
    ensures IsUniqueGreatest(Values(subs, field), w) <==>
              forall order, y :: multiset(order) == multiset(subs) && IsWinner(Values(order, field), y) ==> y == w
  {
    hide Count, Values, OccursFirst;
    var values := Values(subs, field);
    if IsUniqueGreatest(values, w) {
      forall order, y | multiset(order) == multiset(subs) && IsWinner(Values(order, field), y)
        ensures y == w
      {
        CountIgnoresOrder(order, subs, field, w);
        CountIgnoresOrder(order, subs, field, y);
        WinnerIsGreatest(Values(order, field), y, w);
      }
    } else {
      var v :| v in values && v != w && Count(values, v) >= Count(values, w);
      var i := SubmissionWith(subs, field, v);
      forall u
        ensures Count(values, u) <= Count(values, v)
      {
        WinnerIsGreatest(values, w, u);
      }
      TiesDependOnOrder(subs, field, i);
      var order := [subs[i]] + (subs[..i] + subs[i + 1..]);
      assert multiset(order) == multiset(subs) && IsWinner(Values(order, field), v);
    }
  }

  lemma {:induction false} SubmissionWith(subs: seq<Submission>, field: Id, v: Id) returns (i: nat)
    requires v in Values(subs, field)
    ensures i < |subs| && field in subs[i].summary && subs[i].summary[field] == v
    decreases |subs|
  {
    var n := |subs| - 1;
    if field in subs[n].summary && subs[n].summary[field] == v {
      i := n;
    } else {
      i := SubmissionWith(subs[..n], field, v);
    }
  }

  lemma {:induction false} FirstValue(subs: seq<Submission>, field: Id)
    requires subs != [] && field in subs[0].summary
    ensures Values(subs, field) != [] && Values(subs, field)[0] == subs[0].summary[field]
    decreases |subs|
  {
    if |subs| > 1 {
      FirstValue(subs[..|subs| - 1], field);
    } else {
      assert subs[..0] == [] && Values([], field) == [];
    }
  }

  // ----- a whole round

  /**
   A whole round: the agreed overview hash is the honest runners' hash, and a verdict of confirmed (with
   failures or without) confirms for every field the value honest runners report.
   */
  lemma {:induction false} RoundIsHonest(messages: seq<Message>, honest: set<Id>, threshold: nat,
                                         agreement: seq<Agreement>, exitCodes: seq<int>, truth: map<Id, Id>)
    requires |Dishonest(messages, honest)| < threshold
    requires forall a :: a in agreement ==> IsAgreement(Deduplicated(messages), threshold, a)
    requires forall f :: f in truth ==> HonestReport(messages, honest, f, truth[f])
    ensures AgreedHash(agreement).Some? && OVERVIEW_HASH in truth ==>
              AgreedHash(agreement).value == truth[OVERVIEW_HASH]
    ensures ComputeVerdict(agreement, exitCodes) in {ConfirmedWithFailures, VerdictConfirmed} ==>
              forall a :: a in agreement ==>
                a.status == Confirmed && (a.field in truth ==> a.winner == truth[a.field])
  {
    hide IsAgreement, HonestReport, Dishonest, Deduplicated;
    forall a | a in agreement && a.status == Confirmed && a.field in truth
      ensures a.winner == truth[a.field]
    {
      NoFalseQuorum(messages, honest, a.field, truth[a.field], threshold, a);
    }
    if AgreedHash(agreement).Some? {
      AgreedHashIsConfirmed(agreement);
    }
  }
}
