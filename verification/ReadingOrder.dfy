/**
 How far the order in which messages are read decides what is kept of them: exactly which messages can be kept
 for a runner, and exactly when the deduplicated submissions do not depend on the order.
 */
module ReadingOrder {
  import opened Ids
  import opened Mailbox
  import opened Consensus
  import opened Quorum

  ghost predicate SameMessages(a: seq<Message>, b: seq<Message>) {
    forall m :: m in a <==> m in b
  }

  ghost predicate Keeps(messages: seq<Message>, runner: Id, m: Message) {
    OfRunner(messages, runner) != [] && Kept(messages, runner) == m
  }

  /** The runner posted this hash with some message that is not later than `time`. */
  ghost predicate HasEarly(messages: seq<Message>, runner: Id, hash: Id, time: Id) {
    exists k :: k in OfRunner(messages, runner) && k.hash == hash && !Less(time, k.timestamp)
  }

  /** `m` is one of the runner's messages, and every other hash occurs with a message that is not later than it. */
  ghost predicate CanBeKept(messages: seq<Message>, runner: Id, m: Message) {
    && m in OfRunner(messages, runner)
    && forall n ::
         n in OfRunner(messages, runner) && n.hash != m.hash ==> HasEarly(messages, runner, n.hash, m.timestamp)
  }

  lemma {:induction false} CanBeKeptIsOfSet(a: seq<Message>, b: seq<Message>, runner: Id, m: Message)
    requires SameMessages(a, b) && CanBeKept(a, runner, m)
    ensures CanBeKept(b, runner, m)
  {
    hide OfRunner, Less, WellNamed;
    assert forall k :: k in OfRunner(a, runner) <==> k in OfRunner(b, runner);
    forall n | n in OfRunner(b, runner) && n.hash != m.hash
      ensures HasEarly(b, runner, n.hash, m.timestamp)
    {
      assert HasEarly(a, runner, n.hash, m.timestamp);
    }
  }

  lemma {:induction false} KeptCanBeKept(messages: seq<Message>, runner: Id)
    requires OfRunner(messages, runner) != []
    ensures CanBeKept(messages, runner, Kept(messages, runner))
  {
    hide OfRunner, Unique, Latest, Less;
    var mine := OfRunner(messages, runner);
    var kept := Kept(messages, runner);
    forall n | n in mine && n.hash != kept.hash
      ensures HasEarly(messages, runner, n.hash, kept.timestamp)
    {
      assert HashOccurs(Unique(mine), n.hash);
      var k :| k in Unique(mine) && k.hash == n.hash;
      LatestIsGreatest(Unique(mine), k);
    }
  }

  // ----- an order that keeps a given message

  /** The messages that are not later than `time`, and the later ones. */
  function Early(messages: seq<Message>, time: Id): (r: seq<Message>)
    ensures forall m :: m in r <==> m in messages && !Less(time, m.timestamp)
  {
    if messages == [] then []
    else (if Less(time, messages[0].timestamp) then [] else [messages[0]]) + Early(messages[1..], time)
  }

  function Late(messages: seq<Message>, time: Id): (r: seq<Message>)
    ensures forall m :: m in r <==> m in messages && Less(time, m.timestamp)
  {
    if messages == [] then []
    else (if Less(time, messages[0].timestamp) then [messages[0]] else []) + Late(messages[1..], time)
  }

  lemma {:induction false} EarlyAndLate(messages: seq<Message>, time: Id)
    ensures multiset(Early(messages, time) + Late(messages, time)) == multiset(messages)
  {
    hide Less;
    if messages != [] {
      EarlyAndLate(messages[1..], time);
      assert messages == [messages[0]] + messages[1..];
    }
  }

  lemma {:induction false} OfRunnerOfMore(a: seq<Message>, m: Message, runner: Id)
    ensures OfRunner(a + [m], runner)
         == OfRunner(a, runner) + (if WellNamed(m) && m.runner.value == runner then [m] else [])
  {
    hide WellNamed;
    assert (a + [m])[..|a|] == a;
  }

  lemma {:induction false} OfRunnerConcat(a: seq<Message>, b: seq<Message>, runner: Id)
    ensures OfRunner(a + b, runner) == OfRunner(a, runner) + OfRunner(b, runner)
    decreases |b|
  {
    assert OfRunner([], runner) == [];
    hide OfRunner, WellNamed;
    if b == [] {
      assert a + b == a;
    } else {
      var n := |b| - 1;
      OfRunnerConcat(a, b[..n], runner);
      assert a + b == a + b[..n] + [b[n]] && b == b[..n] + [b[n]];
      OfRunnerOfMore(a + b[..n], b[n], runner);
      OfRunnerOfMore(b[..n], b[n], runner);
    }
  }

  /** The first message of a list is kept by the removal of repeated hashes, and stays first. */
  lemma {:induction false} UniqueFirst(messages: seq<Message>)
    requires messages != []
    ensures Unique(messages)[0] == messages[0]
    decreases |messages|
  {
    if |messages| > 1 {
      UniqueFirst(messages[..|messages| - 1]);
    } else {
      assert messages[..0] == [] && Unique([]) == [];
    }
  }

  /** Messages that bring no new hash leave no trace. */
  lemma {:induction false} UniqueIgnores(messages: seq<Message>, more: seq<Message>)
    requires forall m :: m in more ==> HashOccurs(messages, m.hash)
    ensures Unique(messages + more) == Unique(messages)
    decreases |more|
  {
    hide HashOccurs;
    if more == [] {
      assert messages + more == messages;
    } else {
      var n := |more| - 1;
      UniqueIgnores(messages, more[..n]);
      assert (messages + more)[..|messages + more| - 1] == messages + more[..n];
      assert HashOccurs(messages, more[n].hash);
      SameHashes(messages, more[n].hash);
    }
  }

  lemma {:induction false} SameHashes(messages: seq<Message>, hash: Id)
    requires HashOccurs(messages, hash)
    ensures HashOccurs(Unique(messages), hash)
  {
    hide Unique;
    var m :| m in messages && m.hash == hash;
    assert HashOccurs(Unique(messages), m.hash);
  }

  lemma {:induction false} FirstIsLatest(messages: seq<Message>)
    requires messages != [] && forall m :: m in messages ==> !Less(messages[0].timestamp, m.timestamp)
    ensures Latest(messages) == messages[0]
    decreases |messages|
  {
    hide Less;
    if |messages| > 1 {
      assert messages[|messages| - 1] in messages;
      FirstIsLatest(messages[..|messages| - 1]);
    }
  }

  /** `m` first, then what is not later, then the rest. */
  function Promoted(messages: seq<Message>, i: nat): (r: seq<Message>)
    requires i < |messages|
  {
    var rest := messages[..i] + messages[i + 1..];
    [messages[i]] + (Early(rest, messages[i].timestamp) + Late(rest, messages[i].timestamp))
  }

  lemma {:induction false} PromotedIsReordered(messages: seq<Message>, i: nat)
    requires i < |messages|
    ensures multiset(Promoted(messages, i)) == multiset(messages)
  {
    hide Early, Late;
    EarlyAndLate(messages[..i] + messages[i + 1..], messages[i].timestamp);
    assert messages == messages[..i] + [messages[i]] + messages[i + 1..];
  }

  lemma {:induction false} OfRunnerThree(m: Message, early: seq<Message>, late: seq<Message>, runner: Id)
    requires m in OfRunner([m], runner)
    ensures OfRunner([m] + (early + late), runner) == [m] + OfRunner(early, runner) + OfRunner(late, runner)
  {
    SingleOfRunner(m, runner);
    hide OfRunner;
    OfRunnerConcat([m], early + late, runner);
    OfRunnerConcat(early, late, runner);
  }

  /** The runner's promoted messages: `m`, those not later than it, and the later ones. */
  lemma {:induction false} OfRunnerPromoted(messages: seq<Message>, runner: Id, i: nat)
    requires i < |messages| && messages[i] in OfRunner(messages, runner)
    ensures var rest, m := messages[..i] + messages[i + 1..], messages[i];
            OfRunner(Promoted(messages, i), runner)
            == [m] + OfRunner(Early(rest, m.timestamp), runner) + OfRunner(Late(rest, m.timestamp), runner)
  {
    var rest, m := messages[..i] + messages[i + 1..], messages[i];
    assert m in OfRunner([m], runner);
    hide Early, Late, OfRunner, WellNamed;
    OfRunnerThree(m, Early(rest, m.timestamp), Late(rest, m.timestamp), runner);
  }

  lemma {:induction false} LateBringsNoHash(messages: seq<Message>, runner: Id, i: nat)
    requires i < |messages| && CanBeKept(messages, runner, messages[i])
    ensures var rest, m := messages[..i] + messages[i + 1..], messages[i];
            forall n :: n in OfRunner(Late(rest, m.timestamp), runner) ==>
              HashOccurs([m] + OfRunner(Early(rest, m.timestamp), runner), n.hash)
  {
    hide Less, Early, Late, OfRunner, WellNamed, HashOccurs;
    var rest, m := messages[..i] + messages[i + 1..], messages[i];
    assert messages == messages[..i] + [m] + messages[i + 1..];
    forall n | n in OfRunner(Late(rest, m.timestamp), runner)
      ensures HashOccurs([m] + OfRunner(Early(rest, m.timestamp), runner), n.hash)
    {
      assert n in rest && n in messages && n in OfRunner(messages, runner);
      if n.hash == m.hash {
        FirstHashOccurs(m, OfRunner(Early(rest, m.timestamp), runner));
      } else {
        EarlyInFront(messages, runner, i, n.hash);
      }
    }
  }

  lemma {:induction false} FirstHashOccurs(m: Message, more: seq<Message>)
    ensures HashOccurs([m] + more, m.hash)
  {
    assert ([m] + more)[0] == m;
  }

  lemma {:induction false} PromotedKeeps(messages: seq<Message>, runner: Id, i: nat)
    requires i < |messages| && CanBeKept(messages, runner, messages[i])
    ensures Keeps(Promoted(messages, i), runner, messages[i])
  {
    var m := messages[i];
    var rest := messages[..i] + messages[i + 1..];
    OfRunnerPromoted(messages, runner, i);
    LateBringsNoHash(messages, runner, i);
    hide Less, Early, Late, OfRunner, WellNamed, Unique, Latest, HashOccurs, CanBeKept, Promoted;
    var front := [m] + OfRunner(Early(rest, m.timestamp), runner);
    UniqueIgnores(front, OfRunner(Late(rest, m.timestamp), runner));
    UniqueFirst(front);
    LessTotal(m.timestamp, m.timestamp);
    FirstIsLatest(Unique(front));
  }

  lemma {:induction false} SingleOfRunner(m: Message, runner: Id)
    ensures OfRunner([m], runner) == if WellNamed(m) && m.runner.value == runner then [m] else []
  {
    assert [m][..0] == [] && OfRunner([], runner) == [];
  }

  lemma {:induction false} EarlyInFront(messages: seq<Message>, runner: Id, i: nat, hash: Id)
    requires i < |messages| && hash != messages[i].hash && HasEarly(messages, runner, hash, messages[i].timestamp)
    ensures var early := Early(messages[..i] + messages[i + 1..], messages[i].timestamp);
            HashOccurs([messages[i]] + OfRunner(early, runner), hash)
  {
    hide Less, Early, OfRunner, WellNamed;
    var m := messages[i];
    assert messages == messages[..i] + [m] + messages[i + 1..];
    var k :| k in OfRunner(messages, runner) && k.hash == hash && !Less(m.timestamp, k.timestamp);
    var rest := messages[..i] + messages[i + 1..];
    assert k in messages && k != m && k in rest;
    assert k in OfRunner(Early(rest, m.timestamp), runner);
  }

  // ----- what is kept

  /** Exactly the messages that can be kept are kept in some order of the same messages. */
  lemma {:induction false} KeptInSomeOrder(messages: seq<Message>, runner: Id, m: Message)
    ensures CanBeKept(messages, runner, m) <==>
              exists order :: multiset(order) == multiset(messages) && Keeps(order, runner, m)
  {
    hide OfRunner, Kept, Promoted;
    if CanBeKept(messages, runner, m) {
      assert m in messages;
      var i :| 0 <= i < |messages| && messages[i] == m;
      PromotedIsReordered(messages, i);
      PromotedKeeps(messages, runner, i);
    }
    if order :| multiset(order) == multiset(messages) && Keeps(order, runner, m) {
      KeptCanBeKept(order, runner);
      SameMultisetSameMessages(order, messages);
      CanBeKeptIsOfSet(order, messages, runner, m);
    }
  }

  lemma {:induction false} SameMultisetSameMessages(a: seq<Message>, b: seq<Message>)
    requires multiset(a) == multiset(b)
    ensures SameMessages(a, b)
  {
    forall m
      ensures m in a <==> m in b
    {
      assert m in a <==> m in multiset(a);
      assert m in b <==> m in multiset(b);
    }
  }

  /** Only one message of the runner can be kept. */
  ghost predicate IsDecided(messages: seq<Message>, runner: Id) {
    forall m, n :: CanBeKept(messages, runner, m) && CanBeKept(messages, runner, n) ==> m == n
  }

  /** What is kept for a runner is the same in every order exactly when only one message can be kept. */
  lemma {:induction false} KeptIgnoresOrderExactly(messages: seq<Message>, runner: Id)
    requires OfRunner(messages, runner) != []
    ensures IsDecided(messages, runner) <==>
              forall order :: multiset(order) == multiset(messages) ==> Keeps(order, runner, Kept(messages, runner))
  {
    hide OfRunner, Kept, CanBeKept;
    var kept := Kept(messages, runner);
    KeptCanBeKept(messages, runner);
    if IsDecided(messages, runner) {
      forall order | multiset(order) == multiset(messages)
        ensures Keeps(order, runner, kept)
      {
        SameMultisetSameMessages(messages, order);
        KeptOfSameMessages(messages, order, runner);
      }
    } else {
      var m, n :| CanBeKept(messages, runner, m) && CanBeKept(messages, runner, n) && m != n;
      var other := if m == kept then n else m;
      KeptInSomeOrder(messages, runner, other);
      var order :| multiset(order) == multiset(messages) && Keeps(order, runner, other);
      assert !Keeps(order, runner, kept);
    }
  }

  lemma {:induction false} KeptOfSameMessages(a: seq<Message>, b: seq<Message>, runner: Id)
    requires OfRunner(a, runner) != [] && SameMessages(a, b) && IsDecided(a, runner)
    ensures Keeps(b, runner, Kept(a, runner))
  {
    hide OfRunner, Kept, CanBeKept, WellNamed;
    assert OfRunner(a, runner)[0] in OfRunner(a, runner) && OfRunner(a, runner)[0] in OfRunner(b, runner);
    KeptCanBeKept(a, runner);
    KeptCanBeKept(b, runner);
    CanBeKeptIsOfSet(b, a, runner, Kept(b, runner));
  }

  /** No message of the runner is later. */
  ghost predicate IsGreatest(messages: seq<Message>, runner: Id, m: Message) {
    m in OfRunner(messages, runner) && forall n :: n in OfRunner(messages, runner) ==> !Less(m.timestamp, n.timestamp)
  }

  /** When hashes identify messages, only one can be kept exactly when no two share the greatest timestamp. */
  lemma {:induction false} DecidedByTimestamps(messages: seq<Message>, runner: Id)
    requires forall x, y :: x in OfRunner(messages, runner) && y in OfRunner(messages, runner) && x.hash == y.hash ==>
                              x == y
    ensures IsDecided(messages, runner) <==>
              forall m, n :: IsGreatest(messages, runner, m) && IsGreatest(messages, runner, n) ==> m == n
  {
    hide OfRunner, Less;
    forall m
      ensures CanBeKept(messages, runner, m) <==> IsGreatest(messages, runner, m)
    {
      GreatestCanBeKept(messages, runner, m);
    }
    hide CanBeKept, IsGreatest;
  }

  lemma {:induction false} GreatestCanBeKept(messages: seq<Message>, runner: Id, m: Message)
    requires forall x, y :: x in OfRunner(messages, runner) && y in OfRunner(messages, runner) && x.hash == y.hash ==>
                              x == y
    ensures CanBeKept(messages, runner, m) <==> IsGreatest(messages, runner, m)
  {
    hide OfRunner, Less;
    LessTotal(m.timestamp, m.timestamp);
    if CanBeKept(messages, runner, m) {
      forall n | n in OfRunner(messages, runner)
        ensures !Less(m.timestamp, n.timestamp)
      {
        if n.hash != m.hash {
          assert HasEarly(messages, runner, n.hash, m.timestamp);
        }
      }
    }
  }

  /** Different messages of a runner that share its greatest timestamp: each one is kept in some order. */
  lemma {:induction false} TiedTimestampsDependOnOrder(messages: seq<Message>, runner: Id, m: Message, n: Message)
    requires m != n && IsGreatest(messages, runner, m) && IsGreatest(messages, runner, n)
    ensures !IsDecided(messages, runner)
    ensures exists order :: multiset(order) == multiset(messages) && Keeps(order, runner, m)
    ensures exists order :: multiset(order) == multiset(messages) && Keeps(order, runner, n)
  {
    hide OfRunner, Less, Keeps;
    assert CanBeKept(messages, runner, m) && CanBeKept(messages, runner, n);
    KeptInSomeOrder(messages, runner, m);
    KeptInSomeOrder(messages, runner, n);
    hide CanBeKept;
  }

  /**
   One declared hash on two different messages: whichever is read first hides the other. The later of them can be
   kept wherever the earlier can, so with any timestamps the order decides.
   */
  lemma {:induction false} EqualHashesDependOnOrder(messages: seq<Message>, runner: Id, m: Message, n: Message)
    requires CanBeKept(messages, runner, m) && n in OfRunner(messages, runner)
    requires m != n && m.hash == n.hash && !Less(n.timestamp, m.timestamp)
    ensures !IsDecided(messages, runner)
    ensures exists order :: multiset(order) == multiset(messages) && Keeps(order, runner, m)
    ensures exists order :: multiset(order) == multiset(messages) && Keeps(order, runner, n)
  {
    hide OfRunner, Less, Keeps;
    forall k | k in OfRunner(messages, runner) && k.hash != n.hash
      ensures HasEarly(messages, runner, k.hash, n.timestamp)
    {
      assert HasEarly(messages, runner, k.hash, m.timestamp);
      var l :| l in OfRunner(messages, runner) && l.hash == k.hash && !Less(m.timestamp, l.timestamp);
      NotLater(l.timestamp, m.timestamp, n.timestamp);
    }
    KeptInSomeOrder(messages, runner, m);
    KeptInSomeOrder(messages, runner, n);
    hide CanBeKept;
  }

  lemma {:induction false} NotLater(a: Id, b: Id, c: Id)
    requires !Less(b, a) && !Less(c, b)
    ensures !Less(c, a)
  {
    LessTotal(a, b);
    LessTotal(b, c);
    if Less(c, a) && a != b {
      LessTransitive(c, a, b);
    }
  }

  /** The least input: two messages of one runner with one declared hash, at any timestamps. */
  lemma {:induction false} EqualHashOfTwo(m: Message, n: Message)
    requires WellNamed(m) && WellNamed(n) && m.runner == n.runner && m != n && m.hash == n.hash
    ensures Keeps([m, n], m.runner.value, m) && Keeps([n, m], m.runner.value, n)
  {
    FirstOfEqualHashes(m, n);
    FirstOfEqualHashes(n, m);
  }

  lemma {:induction false} FirstOfEqualHashes(m: Message, n: Message)
    requires WellNamed(m) && WellNamed(n) && m.runner == n.runner && m.hash == n.hash
    ensures Keeps([m, n], m.runner.value, m)
  {
    var runner := m.runner.value;
    SingleOfRunner(m, runner);
    SingleOfRunner(n, runner);
    hide OfRunner, Less, WellNamed;
    OfRunnerConcat([m], [n], runner);
    assert [m] + [n] == [m, n];
    assert m in [m] && HashOccurs([m], n.hash);
    UniqueIgnores([m], [n]);
    assert [m][..0] == [] && Unique([]) == [];
    assert Unique([m]) == [m];
  }

  // ----- the submissions

  /** For every runner, the messages that can be kept have one summary. */
  ghost predicate IsSettled(messages: seq<Message>) {
    forall runner, m, n :: CanBeKept(messages, runner, m) && CanBeKept(messages, runner, n) ==> m.summary == n.summary
  }

  lemma {:induction false} DistinctMultiset(a: seq<Submission>)
    requires OnePerRunner(a)
    ensures forall s :: multiset(a)[s] == if s in a then 1 else 0
    decreases |a|
  {
    if a != [] {
      var n := |a| - 1;
      DistinctMultiset(a[..n]);
      assert a == a[..n] + [a[n]];
    }
  }

  lemma {:induction false} DistinctSameElements(x: seq<Submission>, y: seq<Submission>)
    requires OnePerRunner(x) && OnePerRunner(y) && forall s :: s in x <==> s in y
    ensures multiset(x) == multiset(y)
  {
    DistinctMultiset(x);
    DistinctMultiset(y);
    hide OnePerRunner;
    assert forall s :: multiset(x)[s] == multiset(y)[s];
  }

  /** A submission is that of the message kept for its runner. */
  lemma {:induction false} SubmissionOf(messages: seq<Message>, s: Submission)
    ensures s in Deduplicated(messages) <==>
              OfRunner(messages, s.runner) != [] && s.summary == Kept(messages, s.runner).summary
  {
    hide OfRunner, Kept;
    if s in Deduplicated(messages) {
      var i :| 0 <= i < |Deduplicated(messages)| && Deduplicated(messages)[i] == s;
      assert s.runner in Runners(messages);
    }
    if OfRunner(messages, s.runner) != [] && s.summary == Kept(messages, s.runner).summary {
      assert s.runner in Runners(messages);
      var i :| 0 <= i < |Runners(messages)| && Runners(messages)[i] == s.runner;
      assert Deduplicated(messages)[i] == s;
    }
  }

  lemma {:induction false} SubmissionIgnoresOrder(a: seq<Message>, b: seq<Message>, s: Submission)
    requires IsSettled(a) && SameMessages(a, b) && s in Deduplicated(a)
    ensures s in Deduplicated(b)
  {
    hide Kept, OfRunner, WellNamed, CanBeKept, Deduplicated;
    SubmissionOf(a, s);
    SubmissionOf(b, s);
    assert OfRunner(a, s.runner)[0] in OfRunner(a, s.runner) && OfRunner(a, s.runner)[0] in OfRunner(b, s.runner);
    KeptCanBeKept(a, s.runner);
    KeptCanBeKept(b, s.runner);
    CanBeKeptIsOfSet(b, a, s.runner, Kept(b, s.runner));
  }

  lemma {:induction false} SettledIsOfSet(a: seq<Message>, b: seq<Message>)
    requires IsSettled(a) && SameMessages(a, b)
    ensures IsSettled(b)
  {
    hide CanBeKept;
    forall runner, m | CanBeKept(b, runner, m)
      ensures CanBeKept(a, runner, m)
    {
      CanBeKeptIsOfSet(b, a, runner, m);
    }
  }

  /** Settled messages lead to the same submissions in whatever order, and however often, they are read. */
  lemma {:induction false} DeduplicationIgnoresOrder(a: seq<Message>, b: seq<Message>)
    requires IsSettled(a) && SameMessages(a, b)
    ensures multiset(Deduplicated(a)) == multiset(Deduplicated(b))
  {
    SettledIsOfSet(a, b);
    hide Deduplicated, IsSettled, OnePerRunner;
    DeduplicatedOnePerRunner(a);
    DeduplicatedOnePerRunner(b);
    forall s
      ensures s in Deduplicated(a) <==> s in Deduplicated(b)
    {
      if s in Deduplicated(a) {
        SubmissionIgnoresOrder(a, b, s);
      }
      if s in Deduplicated(b) {
        SubmissionIgnoresOrder(b, a, s);
      }
    }
    DistinctSameElements(Deduplicated(a), Deduplicated(b));
  }

  /** And only they do. */
  lemma {:induction false} DeduplicationIgnoresOrderExactly(messages: seq<Message>)
    ensures IsSettled(messages) <==>
              forall order :: multiset(order) == multiset(messages) ==>
                multiset(Deduplicated(order)) == multiset(Deduplicated(messages))
  {
    hide Deduplicated, CanBeKept;
    if IsSettled(messages) {
      forall order | multiset(order) == multiset(messages)
        ensures multiset(Deduplicated(order)) == multiset(Deduplicated(messages))
      {
        SameMultisetSameMessages(messages, order);
        DeduplicationIgnoresOrder(messages, order);
      }
    } else {
      var runner, m, n :| CanBeKept(messages, runner, m) && CanBeKept(messages, runner, n) && m.summary != n.summary;
      var x := OrderWith(messages, runner, m);
      var y := OrderWith(messages, runner, n);
      assert Submission(runner, n.summary) in multiset(Deduplicated(y));
      DeduplicatedOnePerRunner(x);
      OneSubmission(Deduplicated(x), Submission(runner, m.summary), Submission(runner, n.summary));
      assert multiset(Deduplicated(x)) != multiset(Deduplicated(y));
    }
  }

  lemma {:induction false} OrderWith(messages: seq<Message>, runner: Id, m: Message) returns (order: seq<Message>)
    requires CanBeKept(messages, runner, m)
    ensures multiset(order) == multiset(messages) && Submission(runner, m.summary) in Deduplicated(order)
  {
    hide CanBeKept, OfRunner, Kept;
    KeptInSomeOrder(messages, runner, m);
    order :| multiset(order) == multiset(messages) && Keeps(order, runner, m);
    SubmissionOf(order, Submission(runner, m.summary));
  }

  lemma {:induction false} OneSubmission(subs: seq<Submission>, s: Submission, t: Submission)
    requires OnePerRunner(subs) && s in subs && s.runner == t.runner
    ensures t in multiset(subs) ==> s == t
  {
    if t in subs {
      var i :| 0 <= i < |subs| && subs[i] == s;
      var j :| 0 <= j < |subs| && subs[j] == t;
      assert i < j || j < i || i == j;
    }
  }

  /**
   From mailbox to agreement: for settled messages and the default threshold, what is confirmed for a field, and
   with which counts, does not depend on the order of the messages.
   */
  lemma {:induction false} ConsensusIgnoresOrder(a: seq<Message>, b: seq<Message>, x: Agreement, y: Agreement)
    requires IsSettled(a) && SameMessages(a, b) && x.field == y.field
    requires IsAgreement(Deduplicated(a), DefaultThreshold(|Deduplicated(a)|), x)
    requires IsAgreement(Deduplicated(b), DefaultThreshold(|Deduplicated(b)|), y)
    ensures x.count == y.count && x.status == y.status && x.counts == y.counts
    ensures x.status == Confirmed ==> x == y
  {
    hide Deduplicated, IsAgreement, IsSettled;
    DeduplicationIgnoresOrder(a, b);
    CountIgnoresOrder(Deduplicated(a), Deduplicated(b), x.field, x.winner);
    DefaultThresholdIsMajority(|Deduplicated(a)|);
    AgreementIgnoresOrder(Deduplicated(a), Deduplicated(b), DefaultThreshold(|Deduplicated(a)|), x, y);
  }
}
