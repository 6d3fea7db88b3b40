/** Runner submissions as read from the mailbox, and their deduplication (`deduplicate_submissions`). */
module Mailbox {
  import opened Basics
  import opened Ids
  import opened Whitespace

  /** A result submission; `runner` is None when the runner id is missing or not a string. */
  datatype Message = Message(runner: Option<Id>, hash: Id, timestamp: Id, summary: map<Id, Id>)

  /** What consensus reads of a kept message: the runner, and the non-null summary fields as text. */
  datatype Submission = Submission(runner: Id, summary: map<Id, Id>)

  datatype Warning = MalformedRunnerId(hash: Id) | Equivocation(runner: Id, received: nat, distinct: nat)

  predicate WellNamed(m: Message) {
    m.runner.Some? && !IsBlank(m.runner.value.text)
  }

  // ----- what is kept

  /** The messages of one runner, in order. */
  function OfRunner(messages: seq<Message>, runner: Id): (r: seq<Message>)
    ensures forall m :: m in r <==> m in messages && WellNamed(m) && m.runner.value == runner
    decreases |messages|
  {
    if messages == [] then []
    else
      var last := messages[|messages| - 1];
      var before := OfRunner(messages[..|messages| - 1], runner);
      assert messages == messages[..|messages| - 1] + [last];
      if WellNamed(last) && last.runner.value == runner then before + [last] else before
  }

  predicate HashOccurs(messages: seq<Message>, hash: Id) {
    exists m :: m in messages && m.hash == hash
  }

  /** The first message of each hash, in order. */
  function Unique(messages: seq<Message>): (r: seq<Message>)
    ensures forall m :: m in r ==> m in messages
    ensures messages != [] ==> r != []
    ensures forall m :: m in messages ==> HashOccurs(r, m.hash)
    ensures forall i, j :: 0 <= i < j < |r| ==> r[i].hash != r[j].hash
    decreases |messages|
  {
    if messages == [] then []
    else
      var last := messages[|messages| - 1];
      var before := Unique(messages[..|messages| - 1]);
      assert messages == messages[..|messages| - 1] + [last];
      if HashOccurs(before, last.hash) then before else before + [last]
  }

  /** The first message among those with the greatest timestamp: a stable descending sort's first. */
  function Latest(messages: seq<Message>): (r: Message)
    requires messages != []
    ensures r in messages
    decreases |messages|
  {
    var last := messages[|messages| - 1];
    if |messages| == 1 then last
    else
      var best := Latest(messages[..|messages| - 1]);
      if Less(best.timestamp, last.timestamp) then last else best
  }

  function Kept(messages: seq<Message>, runner: Id): (r: Message)
    requires OfRunner(messages, runner) != []
    ensures r in messages && WellNamed(r) && r.runner.value == runner
  {
    Latest(Unique(OfRunner(messages, runner)))
  }

  /** Runner ids in order of first appearance. */
  function Runners(messages: seq<Message>): (r: seq<Id>)
    ensures forall id :: id in r <==> OfRunner(messages, id) != []
    ensures forall i, j :: 0 <= i < j < |r| ==> r[i] != r[j]
    decreases |messages|
  {
    if messages == [] then []
    else
      var last := messages[|messages| - 1];
      var before := Runners(messages[..|messages| - 1]);
      if WellNamed(last) && last.runner.value !in before then before + [last.runner.value] else before
  }

  /** One submission per runner. */
  function Deduplicated(messages: seq<Message>): (subs: seq<Submission>)
    ensures |subs| == |Runners(messages)|
    ensures forall i :: 0 <= i < |subs| ==> subs[i].runner == Runners(messages)[i]
  {
    var runners := Runners(messages);
    seq(|runners|, i requires 0 <= i < |runners| =>
      assert runners[i] in runners;
      Submission(runners[i], Kept(messages, runners[i]).summary))
  }

  /** The latest of a non-empty list has a timestamp no other exceeds. */
  lemma {:induction false} LatestIsGreatest(messages: seq<Message>, m: Message)
    requires m in messages
    ensures !Less(Latest(messages).timestamp, m.timestamp)
    decreases |messages|
  {
    hide Less;
    var last := messages[|messages| - 1];
    LessTotal(last.timestamp, last.timestamp);
    if |messages| > 1 {
      var before := messages[..|messages| - 1];
      assert messages == before + [last];
      var best := Latest(before).timestamp;
      LatestIsGreatest(before, before[0]);
      if m in before {
        LatestIsGreatest(before, m);
        if Less(best, last.timestamp) && Less(last.timestamp, m.timestamp) {
          LessTransitive(best, last.timestamp, m.timestamp);
        }
      }
    }
  }

  /** In the words of Python's order of strings: no kept timestamp precedes another one. */
  lemma {:induction false} NoneIsLater(messages: seq<Message>, m: Message)
    requires m in messages
    ensures !Precedes(Latest(messages).timestamp.text, m.timestamp.text)
  {
    LatestIsGreatest(messages, m);
    LessTextMeans(Latest(messages).timestamp.text, m.timestamp.text);
  }

  /** Of the messages with the greatest timestamp it is the first: all before it are earlier. */
  lemma {:induction false} LatestIsFirst(messages: seq<Message>) returns (i: nat)
    requires messages != []
    ensures i < |messages| && messages[i] == Latest(messages)
    ensures forall j :: 0 <= j < i ==> Precedes(messages[j].timestamp.text, messages[i].timestamp.text)
    decreases |messages|
  {
    hide LessText, Precedes;
    var n := |messages| - 1;
    if n == 0 {
      i := 0;
    } else {
      i := LatestIsFirst(messages[..n]);
      LessTextMeans(messages[i].timestamp.text, messages[n].timestamp.text);
      if Less(messages[i].timestamp, messages[n].timestamp) {
        forall j | 0 <= j < n
          ensures Precedes(messages[j].timestamp.text, messages[n].timestamp.text)
        {
          LatestIsGreatest(messages[..n], messages[..n][j]);
          NotGreater(messages[j].timestamp, messages[i].timestamp, messages[n].timestamp);
          LessTextMeans(messages[j].timestamp.text, messages[n].timestamp.text);
        }
        i := n;
      }
    }
  }

  lemma {:induction false} NotGreater(a: Id, b: Id, c: Id)
    requires !Less(b, a) && Less(b, c)
    ensures Less(a, c)
  {
    LessTotal(a, b);
    if a != b {
      LessTransitive(a, b, c);
    }
  }

  /** Position `i` holds the first message of its hash. */
  predicate IsFirstOfHash(messages: seq<Message>, i: nat) {
    i < |messages| && forall j :: 0 <= j < i ==> messages[j].hash != messages[i].hash
  }

  /** What is unique are the first messages of their hashes, in the order of the list. */
  lemma {:induction false} UniqueAreFirsts(messages: seq<Message>) returns (positions: seq<nat>)
    ensures |positions| == |Unique(messages)|
    ensures forall k :: 0 <= k < |positions| ==>
              IsFirstOfHash(messages, positions[k]) && messages[positions[k]] == Unique(messages)[k]
    ensures forall k, l :: 0 <= k < l < |positions| ==> positions[k] < positions[l]
    decreases |messages|
  {
    hide HashOccurs;
    positions := [];
    if messages != [] {
      var n := |messages| - 1;
      positions := UniqueAreFirsts(messages[..n]);
      StillFirsts(messages, n, positions);
      if !HashOccurs(Unique(messages[..n]), messages[n].hash) {
        NewHashIsFirst(messages, n);
        positions := positions + [n];
      }
    }
  }

  lemma {:induction false} StillFirsts(messages: seq<Message>, n: nat, positions: seq<nat>)
    requires n <= |messages| && forall k :: 0 <= k < |positions| ==> IsFirstOfHash(messages[..n], positions[k])
    ensures forall k :: 0 <= k < |positions| ==>
              && IsFirstOfHash(messages, positions[k]) && positions[k] < n
              && messages[positions[k]] == messages[..n][positions[k]]
  {
  }

  lemma {:induction false} NewHashIsFirst(messages: seq<Message>, n: nat)
    requires n < |messages| && !HashOccurs(Unique(messages[..n]), messages[n].hash)
    ensures IsFirstOfHash(messages, n)
  {
    hide Unique;
    forall j | 0 <= j < n
      ensures messages[j].hash != messages[n].hash
    {
      assert messages[..n][j] in messages[..n] && HashOccurs(Unique(messages[..n]), messages[..n][j].hash);
    }
  }

  /** Runners come in the order of their first messages. */
  lemma {:induction false} RunnersAreFirsts(messages: seq<Message>) returns (positions: seq<nat>)
    ensures |positions| == |Runners(messages)|
    ensures forall k :: 0 <= k < |positions| ==>
              && positions[k] < |messages| && WellNamed(messages[positions[k]])
              && messages[positions[k]].runner.value == Runners(messages)[k]
              && forall j :: 0 <= j < positions[k] && WellNamed(messages[j]) ==>
                   messages[j].runner.value != Runners(messages)[k]
    ensures forall k, l :: 0 <= k < l < |positions| ==> positions[k] < positions[l]
    decreases |messages|
  {
    hide IsBlank, OfRunner;
    positions := [];
    if messages != [] {
      var n := |messages| - 1;
      var front := messages[..n];
      positions := RunnersAreFirsts(front);
      assert forall j :: 0 <= j < n ==> front[j] == messages[j];
      if WellNamed(messages[n]) && messages[n].runner.value !in Runners(front) {
        forall j | 0 <= j < n && WellNamed(messages[j])
          ensures messages[j].runner.value in Runners(front)
        {
          assert front[j] in OfRunner(front, messages[j].runner.value);
        }
        positions := positions + [n];
      }
    }
  }

  // ----- warnings

  function MalformedWarnings(messages: seq<Message>): seq<Warning>
    decreases |messages|
  {
    if messages == [] then []
    else
      var last := messages[|messages| - 1];
      MalformedWarnings(messages[..|messages| - 1]) + if WellNamed(last) then [] else [MalformedRunnerId(last.hash)]
  }

  /** The equivocation warnings of the given runners. */
  function EquivocationWarnings(messages: seq<Message>, runners: seq<Id>): seq<Warning>
    decreases |runners|
  {
    if runners == [] then []
    else
      var runner := runners[|runners| - 1];
      var mine := OfRunner(messages, runner);
      EquivocationWarnings(messages, runners[..|runners| - 1])
      + if |Unique(mine)| > 1 then [Equivocation(runner, |mine|, |Unique(mine)|)] else []
  }

  /** A runner's messages are not all of one hash: the runner equivocates. */
  ghost predicate Equivocates(messages: seq<Message>, runner: Id) {
    exists m, n :: m in OfRunner(messages, runner) && n in OfRunner(messages, runner) && m.hash != n.hash
  }

  lemma {:induction false} EquivocationIsDetected(messages: seq<Message>, runner: Id)
    ensures |Unique(OfRunner(messages, runner))| > 1 <==> Equivocates(messages, runner)
  {
    hide OfRunner, Unique, WellNamed;
    var mine := OfRunner(messages, runner);
    var unique := Unique(mine);
    if |unique| > 1 {
      assert unique[0] in mine && unique[1] in mine && unique[0].hash != unique[1].hash;
    } else {
      forall m | m in mine
        ensures m.hash == unique[0].hash
      {
        assert HashOccurs(unique, m.hash);
      }
    }
  }

  // ----- the loops

  /** The dict `by_runner` with its insertion order. */
  ghost predicate Grouped(messages: seq<Message>, byRunner: map<Id, seq<Message>>, runners: seq<Id>) {
    && runners == Runners(messages)
    && byRunner.Keys == (set r | r in runners)
    && forall r :: r in byRunner ==> byRunner[r] == OfRunner(messages, r)
  }

  /** How one more message changes the grouping. */
  lemma {:induction false} OfRunnerOneMore(messages: seq<Message>, i: nat, r: Id)
    requires i < |messages|
    ensures var m := messages[i];
            OfRunner(messages[..i + 1], r)
            == OfRunner(messages[..i], r) + (if WellNamed(m) && m.runner.value == r then [m] else [])
  {
    hide WellNamed;
    assert messages[..i + 1][..i] == messages[..i];
  }

  lemma {:induction false} RunnersOneMore(messages: seq<Message>, i: nat)
    requires i < |messages|
    ensures var m := messages[i];
            && Runners(messages[..i + 1])
               == Runners(messages[..i])
                  + (if WellNamed(m) && m.runner.value !in Runners(messages[..i]) then [m.runner.value] else [])
            && MalformedWarnings(messages[..i + 1])
               == MalformedWarnings(messages[..i]) + (if WellNamed(m) then [] else [MalformedRunnerId(m.hash)])
  {
    hide WellNamed;
    assert messages[..i + 1][..i] == messages[..i];
  }

  method GroupByRunner(messages: seq<Message>)
    returns (byRunner: map<Id, seq<Message>>, runners: seq<Id>, warnings: seq<Warning>)
    ensures Grouped(messages, byRunner, runners)
    ensures warnings == MalformedWarnings(messages)
  {
    hide IsBlank, OfRunner, Runners, MalformedWarnings;
    byRunner, runners, warnings := map[], [], [];
    EmptyGroups();
    for i := 0 to |messages|
      invariant Grouped(messages[..i], byRunner, runners)
      invariant warnings == MalformedWarnings(messages[..i])
    {
      var m := messages[i];
      RunnersOneMore(messages, i);
      forall r
        ensures OfRunner(messages[..i + 1], r)
             == OfRunner(messages[..i], r) + (if WellNamed(m) && m.runner.value == r then [m] else [])
      {
        OfRunnerOneMore(messages, i, r);
      }
      if !WellNamed(m) {
        warnings := warnings + [MalformedRunnerId(m.hash)];
      } else {
        var r := m.runner.value;
        if r in byRunner {
          byRunner := byRunner[r := byRunner[r] + [m]];
        } else {
          byRunner := byRunner[r := [m]];
          runners := runners + [r];
        }
      }
    }
    assert messages[..|messages|] == messages;
  }

  lemma {:induction false} EmptyGroups()
    ensures Runners([]) == [] && MalformedWarnings([]) == []
  {
  }

  method UniqueByHash(messages: seq<Message>) returns (unique: seq<Message>)
    ensures unique == Unique(messages)
  {
    unique := [];
    var seenHashes: set<Id> := {};
    for i := 0 to |messages|
      invariant unique == Unique(messages[..i])
      invariant forall h :: h in seenHashes <==> HashOccurs(unique, h)
    {
      assert messages[..i + 1][..i] == messages[..i];
      var h := messages[i].hash;
      if h !in seenHashes {
        seenHashes := seenHashes + {h};
        unique := unique + [messages[i]];
      }
    }
    assert messages[..|messages|] == messages;
  }

  /** The messages of one runner come down to one; `distinct` counts the different hashes. */
  method KeepOne(mine: seq<Message>) returns (kept: Message, distinct: nat)
    requires mine != []
    ensures kept == Latest(Unique(mine)) && distinct == |Unique(mine)|
  {
    hide Unique, Less;
    var unique := UniqueByHash(mine);
    kept, distinct := unique[0], |unique|;
    if distinct > 1 {
      kept := Latest(unique);
    }
  }

  lemma {:induction false} OneMoreRunner(messages: seq<Message>, i: nat)
    requires i < |Runners(messages)|
    ensures var runners := Runners(messages);
            var mine := OfRunner(messages, runners[i]);
            && Deduplicated(messages)[..i + 1]
               == Deduplicated(messages)[..i] + [Submission(runners[i], Kept(messages, runners[i]).summary)]
            && EquivocationWarnings(messages, runners[..i + 1])
               == EquivocationWarnings(messages, runners[..i])
                  + if |Unique(mine)| > 1 then [Equivocation(runners[i], |mine|, |Unique(mine)|)] else []
  {
    hide Unique, Latest, OfRunner, Runners, WellNamed, Kept;
    var runners := Runners(messages);
    assert runners[..i + 1][..i] == runners[..i];
  }

  /** `deduplicate_submissions`: one submission per well-named runner, and a warning for every anomaly. */
  method DeduplicateSubmissions(messages: seq<Message>) returns (subs: seq<Submission>, warnings: seq<Warning>)
    ensures subs == Deduplicated(messages)
    ensures warnings == MalformedWarnings(messages) + EquivocationWarnings(messages, Runners(messages))
  {
    hide Unique, Latest, OfRunner, Runners, WellNamed, MalformedWarnings, Deduplicated;
    var byRunner, runners, malformed := GroupByRunner(messages);
    assert forall i :: 0 <= i < |runners| ==> runners[i] in runners;
    subs := [];
    var equivocations: seq<Warning> := [];
    for i := 0 to |runners|
      invariant subs == Deduplicated(messages)[..i]
      invariant equivocations == EquivocationWarnings(messages, runners[..i])
    {
      OneMoreRunner(messages, i);
      var kept, distinct := KeepOne(byRunner[runners[i]]);
      if distinct > 1 {
        equivocations := equivocations + [Equivocation(runners[i], |byRunner[runners[i]]|, distinct)];
      }
      subs := subs + [Submission(runners[i], kept.summary)];
    }
    assert runners[..|runners|] == runners;
    warnings := malformed + equivocations;
  }

  // ----- what the warnings say

  /** How many messages well-named after `runner` there are. */
  function Received(messages: seq<Message>, runner: Id): nat {
    if messages == [] then 0
    else
      var own := WellNamed(messages[0]) && messages[0].runner.value == runner;
      (if own then 1 else 0) + Received(messages[1..], runner)
  }

  function HashesOf(messages: seq<Message>, runner: Id): set<Id> {
    set m | m in messages && WellNamed(m) && m.runner.value == runner :: m.hash
  }

  lemma {:induction false} ReceivedFront(messages: seq<Message>, runner: Id)
    requires messages != []
    ensures var n := |messages| - 1;
            Received(messages, runner)
            == Received(messages[..n], runner)
               + if WellNamed(messages[n]) && messages[n].runner.value == runner then 1 else 0
  {
    hide WellNamed;
    var n := |messages| - 1;
    if n > 0 {
      ReceivedFront(messages[1..], runner);
      assert messages[..n][1..] == messages[1..][..n - 1];
    }
  }

  lemma {:induction false} ReceivedIs(messages: seq<Message>, runner: Id)
    ensures |OfRunner(messages, runner)| == Received(messages, runner)
    decreases |messages|
  {
    hide WellNamed;
    if messages != [] {
      ReceivedIs(messages[..|messages| - 1], runner);
      ReceivedFront(messages, runner);
    }
  }

  lemma {:induction false} DistinctHashes(unique: seq<Message>)
    requires forall i, j :: 0 <= i < j < |unique| ==> unique[i].hash != unique[j].hash
    ensures |set m | m in unique :: m.hash| == |unique|
  {
    if unique != [] {
      var n := |unique| - 1;
      DistinctHashes(unique[..n]);
      var before, all := set m | m in unique[..n] :: m.hash, set m | m in unique :: m.hash;
      assert unique == unique[..n] + [unique[n]];
      forall h
        ensures h in all <==> h in before || h == unique[n].hash
      {
        if m :| m in unique && m.hash == h {
          assert m in unique[..n] || m == unique[n];
        }
      }
      assert all == before + {unique[n].hash};
      assert unique[n].hash !in before;
    }
  }

  lemma {:induction false} UniqueHashes(messages: seq<Message>, runner: Id)
    ensures |Unique(OfRunner(messages, runner))| == |HashesOf(messages, runner)|
  {
    hide OfRunner, Unique, IsBlank;
    var mine := OfRunner(messages, runner);
    var unique := Unique(mine);
    DistinctHashes(unique);
    forall h
      ensures h in (set m | m in unique :: m.hash) <==> h in HashesOf(messages, runner)
    {
      if m :| m in unique && m.hash == h {
        assert m in mine && m in messages;
      }
      if h in HashesOf(messages, runner) {
        var m :| m in messages && WellNamed(m) && m.runner.value == runner && m.hash == h;
        assert m in mine && HashOccurs(unique, m.hash);
      }
    }
    assert (set m | m in unique :: m.hash) == HashesOf(messages, runner);
  }

  /** A runner with more than one hash is warned of, with the numbers of its messages and of its hashes. */
  lemma {:induction false} EquivocationWarningsAre(messages: seq<Message>, runners: seq<Id>, w: Warning)
    ensures w in EquivocationWarnings(messages, runners) <==>
              exists r :: && r in runners && |HashesOf(messages, r)| > 1
                          && w == Equivocation(r, Received(messages, r), |HashesOf(messages, r)|)
    decreases |runners|
  {
    hide OfRunner, Unique, HashesOf, Received;
    if runners != [] {
      var n := |runners| - 1;
      EquivocationWarningsAre(messages, runners[..n], w);
      UniqueHashes(messages, runners[n]);
      ReceivedIs(messages, runners[n]);
      assert forall r :: r in runners <==> r in runners[..n] || r == runners[n];
    }
  }

  /** A runner id is usable if it is there and has some character that is not one of the 29 blank ones. */
  lemma {:induction false} WellNamedMeans(m: Message)
    ensures WellNamed(m) <==> m.runner.Some? && exists c :: c in m.runner.value.text && !IsSpace(c)
  {
    if m.runner.Some? {
      var text := m.runner.value.text;
      hide IsSpace;
      if WellNamed(m) {
        var i :| 0 <= i < |text| && !IsSpace(text[i]);
        assert text[i] in text;
      }
    }
  }

  /** And every message without a usable runner id. */
  lemma {:induction false} MalformedWarningsAre(messages: seq<Message>, w: Warning)
    ensures w in MalformedWarnings(messages) <==>
              exists m :: m in messages && !WellNamed(m) && w == MalformedRunnerId(m.hash)
    decreases |messages|
  {
    hide WellNamed;
    if messages != [] {
      var n := |messages| - 1;
      MalformedWarningsAre(messages[..n], w);
      assert forall m :: m in messages <==> m in messages[..n] || m == messages[n];
    }
  }
}
