/**
 The content-addressed merge of artifacts: planning (`_resolve_merge_actions`) and applying
 (`apply_merge_actions`). The file system is a map from opaque paths to contents.
 */
module MergePlanner {
  import opened Basics
  import opened Ids

  type Files = map<Id, Bytes>

  /** A collected artifact; `declared` is the hash its manifest states, if it states one. */
  datatype Collected = Collected(logicalId: Id, rel: Id, source: Id, declared: Option<Digest>)

  datatype Kind = Link | Reuse

  /** What is known of one destination: the first entry's id and hash, and the least source. */
  datatype Info = Info(logicalId: Id, rel: Id, source: Id, dest: Id, hash: Digest)

  datatype Action = Action(info: Info, kind: Kind)

  /** Two contents for one path: what is on record, or there already, and what would replace it. */
  datatype Conflict = Conflict(rel: Id, logicalId: Id, conflictingId: Id, leftHash: Digest, rightHash: Digest,
                               leftSource: Id, rightSource: Id)

  datatype MergeError = Unreadable(path: Id) | HashMismatch(path: Id)

  /** `run_root / rel`. */
  function Dest(root: Id, rel: Id): Id {
    Id(root.text + "/" + rel.text)
  }

  /** A destination is the root, a slash, and the relative path. */
  lemma {:induction false} DestUnderRoot(root: Id, rel: Id)
    ensures root.text + "/" <= Dest(root, rel).text && Dest(root, rel).text[|root.text| + 1..] == rel.text
  {
  }

  lemma {:induction false} DestInjective(root: Id, a: Id, b: Id)
    requires Dest(root, a) == Dest(root, b)
    ensures a == b
  {
    DestUnderRoot(root, a);
    DestUnderRoot(root, b);
  }

  // ----- what planning decides

  /** The entry makes planning raise: its source is unreadable or not what its manifest declares. */
  predicate Bad(sha: Hash, files: Files, e: Collected) {
    e.source !in files || (e.declared.Some? && e.declared.value != sha(files[e.source]))
  }

  predicate AllGood(sha: Hash, files: Files, entries: seq<Collected>) {
    forall e :: e in entries ==> !Bad(sha, files, e)
  }

  /** The first bad entry: its source is missing, or is there with other content than declared. */
  ghost predicate IsFirstBad(sha: Hash, files: Files, entries: seq<Collected>, i: nat, error: MergeError) {
    && i < |entries| && AllGood(sha, files, entries[..i]) && error.path == entries[i].source
    && match error
       case Unreadable(path) => path !in files
       case HashMismatch(path) => path in files && entries[i].declared !in {None, Some(sha(files[path]))}
  }

  ghost predicate IsFirstComplaint(sha: Hash, files: Files, entries: seq<Collected>, error: MergeError) {
    exists i: nat :: IsFirstBad(sha, files, entries, i, error)
  }

  function HashOf(sha: Hash, files: Files, e: Collected): Digest
    requires !Bad(sha, files, e)
  {
    sha(files[e.source])
  }

  /** Entries that share a path share their bytes' hash. */
  predicate Agree(sha: Hash, files: Files, entries: seq<Collected>)
    requires AllGood(sha, files, entries)
  {
    forall e, f :: e in entries && f in entries && e.rel == f.rel ==> HashOf(sha, files, e) == HashOf(sha, files, f)
  }

  /** No file at a destination differs from what is to go there. */
  predicate FitsFiles(sha: Hash, files: Files, root: Id, entries: seq<Collected>)
    requires AllGood(sha, files, entries)
  {
    forall e :: e in entries && Dest(root, e.rel) in files ==> sha(files[Dest(root, e.rel)]) == HashOf(sha, files, e)
  }

  /** The least of the sources of the entries for `rel`. */
  ghost predicate IsLeastSource(entries: seq<Collected>, rel: Id, source: Id) {
    && (exists e :: e in entries && e.rel == rel && e.source == source)
    && forall e :: e in entries && e.rel == rel ==> e.source == source || Less(source, e.source)
  }

  /** The id of the first entry for `rel`. */
  function FirstId(entries: seq<Collected>, rel: Id): (r: Option<Id>)
    ensures r.None? <==> forall e :: e in entries ==> e.rel != rel
  {
    if entries == [] then None
    else if entries[0].rel == rel then Some(entries[0].logicalId)
    else FirstId(entries[1..], rel)
  }

  /** What the first pass knows of `rel` once `entries` have been read without a conflict. */
  ghost predicate Describes(sha: Hash, files: Files, root: Id, entries: seq<Collected>, info: Info)
    requires AllGood(sha, files, entries)
  {
    && FirstId(entries, info.rel) == Some(info.logicalId)
    && IsLeastSource(entries, info.rel, info.source)
    && info.dest == Dest(root, info.rel)
    && forall e :: e in entries && e.rel == info.rel ==> HashOf(sha, files, e) == info.hash
  }

  /**
   The plan without conflicts: one action per path, in path order, each described by the entries, a
   link exactly where no file exists yet.
   */
  ghost predicate IsPlan(sha: Hash, files: Files, root: Id, entries: seq<Collected>, actions: seq<Action>)
    requires AllGood(sha, files, entries)
  {
    && (forall i, j :: 0 <= i < j < |actions| ==> Less(actions[i].info.rel, actions[j].info.rel))
    && (forall e :: e in entries ==> exists a :: a in actions && a.info.rel == e.rel)
    && forall a :: a in actions ==>
         && Describes(sha, files, root, entries, a.info)
         && (a.kind == if a.info.dest in files then Reuse else Link)
  }

  // ----- reading one more entry

  lemma {:induction false} FirstIdAppend(entries: seq<Collected>, e: Collected, rel: Id)
    ensures FirstId(entries + [e], rel)
         == if FirstId(entries, rel).Some? then FirstId(entries, rel)
            else if e.rel == rel then Some(e.logicalId) else None
  {
    if entries == [] {
      assert entries + [e] == [e];
    } else {
      FirstIdAppend(entries[1..], e, rel);
      assert (entries + [e])[1..] == entries[1..] + [e];
    }
  }

  lemma {:induction false} DescribesMore(sha: Hash, files: Files, root: Id, before: seq<Collected>, e: Collected,
                                         info: Info)
    requires AllGood(sha, files, before) && AllGood(sha, files, before + [e])
    requires Describes(sha, files, root, before, info)
    requires e.rel == info.rel ==> HashOf(sha, files, e) == info.hash
    ensures var source := if e.rel == info.rel && Less(e.source, info.source) then e.source else info.source;
            Describes(sha, files, root, before + [e], info.(source := source))
  {
    hide Less;
    FirstIdAppend(before, e, info.rel);
    LessTotal(e.source, info.source);
    var source := if e.rel == info.rel && Less(e.source, info.source) then e.source else info.source;
    forall x | x in before + [e] && x.rel == info.rel
      ensures x.source == source || Less(source, x.source)
    {
      if x in before && source != info.source && x.source != info.source {
        LessTransitive(source, info.source, x.source);
      }
    }
    var w :| w in before && w.rel == info.rel && w.source == info.source;
    assert w in before + [e] && e in before + [e];
  }

  lemma {:induction false} DescribesFirst(sha: Hash, files: Files, root: Id, before: seq<Collected>, e: Collected)
    requires AllGood(sha, files, before) && AllGood(sha, files, before + [e])
    requires forall x :: x in before ==> x.rel != e.rel
    ensures Describes(sha, files, root, before + [e],
                      Info(e.logicalId, e.rel, e.source, Dest(root, e.rel), HashOf(sha, files, e)))
  {
    FirstIdAppend(before, e, e.rel);
    assert e in before + [e];
  }

  lemma {:induction false} AgreeMore(sha: Hash, files: Files, before: seq<Collected>, e: Collected)
    requires AllGood(sha, files, before) && !Bad(sha, files, e)
    ensures AllGood(sha, files, before + [e])
    ensures Agree(sha, files, before + [e])
       <==> && Agree(sha, files, before)
            && forall x :: x in before && x.rel == e.rel ==> HashOf(sha, files, x) == HashOf(sha, files, e)
  {
    assert e in before + [e];
    assert forall x :: x in before ==> x in before + [e];
  }

  // ----- the conflicts

  ghost predicate HasHash(sha: Hash, files: Files, e: Collected, hash: Digest) {
    e.source in files && sha(files[e.source]) == hash
  }

  ghost predicate IsFirstFor(entries: seq<Collected>, rel: Id, j: nat) {
    j < |entries| && entries[j].rel == rel && forall k :: 0 <= k < j ==> entries[k].rel != rel
  }

  /** The least of the sources of the entries for `rel` with this hash. */
  ghost predicate IsLeastOf(sha: Hash, files: Files, entries: seq<Collected>, rel: Id, hash: Digest, source: Id) {
    && (exists e :: e in entries && e.rel == rel && HasHash(sha, files, e, hash) && e.source == source)
    && forall e :: e in entries && e.rel == rel && HasHash(sha, files, e, hash) ==>
         e.source == source || Less(source, e.source)
  }

  ghost predicate IsFirstRecord(sha: Hash, files: Files, entries: seq<Collected>, info: Info, j: nat) {
    && IsFirstFor(entries, info.rel, j)
    && info.logicalId == entries[j].logicalId && HasHash(sha, files, entries[j], info.hash)
  }

  /**
   What is on record for a path, with or without conflicts: id and hash of the first entry, and the least source of
   the entries with that hash.
   */
  ghost predicate IsRecord(sha: Hash, files: Files, root: Id, entries: seq<Collected>, info: Info) {
    && (exists j: nat :: IsFirstRecord(sha, files, entries, info, j))
    && IsLeastOf(sha, files, entries, info.rel, info.hash, info.source)
    && info.dest == Dest(root, info.rel)
  }

  /** Entry `i` has other content than the record the entries before it left for its path. */
  ghost predicate Clashes(sha: Hash, files: Files, root: Id, entries: seq<Collected>, i: nat, info: Info) {
    && i < |entries| && IsRecord(sha, files, root, entries[..i], info) && info.rel == entries[i].rel
    && !HasHash(sha, files, entries[i], info.hash)
  }

  ghost predicate IsClash(sha: Hash, files: Files, root: Id, entries: seq<Collected>, i: nat, c: Conflict) {
    && i < |entries| && HasHash(sha, files, entries[i], c.rightHash)
    && Clashes(sha, files, root, entries, i,
               Info(c.logicalId, c.rel, c.leftSource, Dest(root, c.rel), c.leftHash))
    && c.conflictingId == entries[i].logicalId && c.rightSource == entries[i].source
  }

  /** One conflict for each of these positions, which are those of the entries that clash. */
  ghost predicate ClashesAre(sha: Hash, files: Files, root: Id, entries: seq<Collected>, conflicts: seq<Conflict>,
                             at: seq<nat>) {
    && |conflicts| == |at| && (forall m, n :: 0 <= m < n < |at| ==> at[m] < at[n])
    && (forall m :: 0 <= m < |at| ==> IsClash(sha, files, root, entries, at[m], conflicts[m]))
    && forall i: nat, info :: Clashes(sha, files, root, entries, i, info) ==> i in at
  }

  /** The file at the destination has other content than the record. */
  ghost predicate Differs(sha: Hash, files: Files, root: Id, entries: seq<Collected>, info: Info) {
    IsRecord(sha, files, root, entries, info) && info.dest in files && sha(files[info.dest]) != info.hash
  }

  ghost predicate IsExisting(sha: Hash, files: Files, root: Id, entries: seq<Collected>, rel: Id, c: Conflict) {
    && Differs(sha, files, root, entries, Info(c.logicalId, rel, c.rightSource, Dest(root, rel), c.rightHash))
    && c.rel == rel && c.conflictingId == Id("<existing run-root>")
    && c.leftHash == sha(files[Dest(root, rel)]) && c.leftSource == Dest(root, rel)
  }

  /** One conflict for each of these paths, in order, which are those whose file differs. */
  ghost predicate ExistingAre(sha: Hash, files: Files, root: Id, entries: seq<Collected>, conflicts: seq<Conflict>,
                              rels: seq<Id>) {
    && |conflicts| == |rels| && Ascending(rels)
    && (forall m :: 0 <= m < |rels| ==> IsExisting(sha, files, root, entries, rels[m], conflicts[m]))
    && forall info :: Differs(sha, files, root, entries, info) ==> info.rel in rels
  }

  /** All that is reported: the clashes in reading order, then the differing files in path order. */
  ghost predicate AreConflicts(sha: Hash, files: Files, root: Id, entries: seq<Collected>, conflicts: seq<Conflict>) {
    exists at: seq<nat>, rels: seq<Id> ::
      && |at| <= |conflicts|
      && ClashesAre(sha, files, root, entries, conflicts[..|at|], at)
      && ExistingAre(sha, files, root, entries, conflicts[|at|..], rels)
  }

  /** One entry more: the record keeps its id and hash, and takes a lesser source of the same content. */
  lemma {:induction false} RecordAfter(sha: Hash, files: Files, root: Id, before: seq<Collected>, e: Collected,
                                       info: Info)
    requires IsRecord(sha, files, root, before, info) && e.source in files
    ensures var takes := e.rel == info.rel && HasHash(sha, files, e, info.hash) && Less(e.source, info.source);
            IsRecord(sha, files, root, before + [e], if takes then info.(source := e.source) else info)
  {
    hide Less, HasHash, Dest;
    var after := before + [e];
    var takes := e.rel == info.rel && HasHash(sha, files, e, info.hash) && Less(e.source, info.source);
    var source := if takes then e.source else info.source;
    var j: nat :| IsFirstRecord(sha, files, before, info, j);
    assert IsFirstRecord(sha, files, after, info.(source := source), j);
    LessTotal(e.source, info.source);
    forall x | x in after && x.rel == info.rel && HasHash(sha, files, x, info.hash)
      ensures x.source == source || Less(source, x.source)
    {
      if x in before && takes && x.source != info.source {
        LessTransitive(source, info.source, x.source);
      }
    }
    var w :| w in before && w.rel == info.rel && HasHash(sha, files, w, info.hash) && w.source == info.source;
    assert w in after && e in after;
  }

  lemma {:induction false} RecordOfFirst(sha: Hash, files: Files, root: Id, before: seq<Collected>, e: Collected)
    requires e.source in files && forall x :: x in before ==> x.rel != e.rel
    ensures IsRecord(sha, files, root, before + [e],
                     Info(e.logicalId, e.rel, e.source, Dest(root, e.rel), sha(files[e.source])))
  {
    hide Less, Dest;
    var after := before + [e];
    var info := Info(e.logicalId, e.rel, e.source, Dest(root, e.rel), sha(files[e.source]));
    assert forall k :: 0 <= k < |before| ==> after[k] == before[k] && before[k] in before;
    assert IsFirstRecord(sha, files, after, info, |before|);
    assert e in after;
  }

  /** A path has one record. */
  lemma {:induction false} OneRecord(sha: Hash, files: Files, root: Id, entries: seq<Collected>, x: Info, y: Info)
    requires IsRecord(sha, files, root, entries, x) && IsRecord(sha, files, root, entries, y) && x.rel == y.rel
    ensures x == y
  {
    hide Less, Dest;
    var i: nat :| IsFirstRecord(sha, files, entries, x, i);
    var j: nat :| IsFirstRecord(sha, files, entries, y, j);
    assert i == j;
    LessTotal(x.source, y.source);
  }

  /** The clashes among the entries before stay; the last entry adds one exactly if it clashes. */
  lemma {:induction false} ClashesAfter(sha: Hash, files: Files, root: Id, before: seq<Collected>, e: Collected,
                                        conflicts: seq<Conflict>, at: seq<nat>, more: seq<Conflict>)
    requires ClashesAre(sha, files, root, before, conflicts, at)
    requires more == [] ==> forall info :: !Clashes(sha, files, root, before + [e], |before|, info)
    requires more != [] ==> |more| == 1 && IsClash(sha, files, root, before + [e], |before|, more[0])
    ensures ClashesAre(sha, files, root, before + [e], conflicts + more, if more == [] then at else at + [|before|])
  {
    hide IsRecord, HasHash, Dest;
    var after := before + [e];
    var all := if more == [] then at else at + [|before|];
    assert forall i: nat | i < |before| :: after[..i] == before[..i] && after[i] == before[i];
    forall i: nat, info | Clashes(sha, files, root, after, i, info)
      ensures i in all
    {
      if i < |before| {
        assert Clashes(sha, files, root, before, i, info);
      }
      assert more != [] ==> all[|all| - 1] == |before|;
    }
    forall m | 0 <= m < |all|
      ensures IsClash(sha, files, root, after, all[m], (conflicts + more)[m])
    {
      if m < |at| {
        assert IsClash(sha, files, root, before, at[m], conflicts[m]);
      }
    }
    assert forall m | 0 <= m < |at| :: IsClash(sha, files, root, before, at[m], conflicts[m]);
  }

  // ----- planning

  /** The records are those of the paths read, and the conflicts those of the entries that clash. */
  ghost predicate Read(sha: Hash, files: Files, root: Id, entries: seq<Collected>, byRel: map<Id, Info>,
                       conflicts: seq<Conflict>) {
    && (forall rel :: rel in byRel ==> byRel[rel].rel == rel && IsRecord(sha, files, root, entries, byRel[rel]))
    && (forall e :: e in entries ==> e.rel in byRel)
    && exists at: seq<nat> :: ClashesAre(sha, files, root, entries, conflicts, at)
  }

  lemma {:induction false} ReadNone(sha: Hash, files: Files, root: Id)
    ensures Read(sha, files, root, [], map[], [])
  {
    hide IsRecord;
    assert ClashesAre(sha, files, root, [], [], []);
  }

  /** What reading one more entry records and reports. */
  lemma {:induction false} ReadMore(sha: Hash, files: Files, root: Id, before: seq<Collected>, e: Collected,
                                    byRel: map<Id, Info>, conflicts: seq<Conflict>, info: Info, more: seq<Conflict>)
    requires Read(sha, files, root, before, byRel, conflicts) && e.source in files
    requires e.rel !in byRel ==>
               more == [] && info == Info(e.logicalId, e.rel, e.source, Dest(root, e.rel), sha(files[e.source]))
    requires e.rel in byRel ==>
               var prev := byRel[e.rel];
               if HasHash(sha, files, e, prev.hash) then
                 more == [] && info == prev.(source := if Less(e.source, prev.source) then e.source else prev.source)
               else
                 && info == prev
                 && more == [Conflict(e.rel, prev.logicalId, e.logicalId, prev.hash, sha(files[e.source]),
                                      prev.source, e.source)]
    ensures Read(sha, files, root, before + [e], byRel[e.rel := info], conflicts + more)
  {
    hide IsRecord, ClashesAre, Clashes, IsClash, Dest, Less;
    RecordsAfter(sha, files, root, before, e, byRel, info);
    var at: seq<nat> :| ClashesAre(sha, files, root, before, conflicts, at);
    ClashOfLast(sha, files, root, before, e, byRel, more);
    ClashesAfter(sha, files, root, before, e, conflicts, at, more);
    assert forall x :: x in before + [e] ==> x in before || x == e;
  }

  lemma {:induction false} RecordsAfter(sha: Hash, files: Files, root: Id, before: seq<Collected>, e: Collected,
                                        byRel: map<Id, Info>, info: Info)
    requires forall rel :: rel in byRel ==> byRel[rel].rel == rel && IsRecord(sha, files, root, before, byRel[rel])
    requires (forall x :: x in before ==> x.rel in byRel) && e.source in files
    requires if e.rel in byRel then
               var prev := byRel[e.rel];
               var takes := HasHash(sha, files, e, prev.hash) && Less(e.source, prev.source);
               info == if takes then prev.(source := e.source) else prev
             else info == Info(e.logicalId, e.rel, e.source, Dest(root, e.rel), sha(files[e.source]))
    ensures var all := byRel[e.rel := info];
            forall rel :: rel in all ==> all[rel].rel == rel && IsRecord(sha, files, root, before + [e], all[rel])
  {
    hide IsRecord, HasHash, Dest, Less;
    var all := byRel[e.rel := info];
    forall rel | rel in all
      ensures all[rel].rel == rel && IsRecord(sha, files, root, before + [e], all[rel])
    {
      if rel in byRel {
        RecordAfter(sha, files, root, before, e, byRel[rel]);
      } else {
        RecordOfFirst(sha, files, root, before, e);
      }
    }
  }

  lemma {:induction false} ClashOfLast(sha: Hash, files: Files, root: Id, before: seq<Collected>, e: Collected,
                                       byRel: map<Id, Info>, more: seq<Conflict>)
    requires forall rel :: rel in byRel ==> byRel[rel].rel == rel && IsRecord(sha, files, root, before, byRel[rel])
    requires (forall x :: x in before ==> x.rel in byRel) && e.source in files
    requires if e.rel in byRel && !HasHash(sha, files, e, byRel[e.rel].hash) then
               var prev := byRel[e.rel];
               more == [Conflict(e.rel, prev.logicalId, e.logicalId, prev.hash, sha(files[e.source]),
                                 prev.source, e.source)]
             else more == []
    ensures more == [] ==> forall info :: !Clashes(sha, files, root, before + [e], |before|, info)
    ensures more != [] ==> IsClash(sha, files, root, before + [e], |before|, more[0])
  {
    var after := before + [e];
    assert after[..|before|] == before;
    if more == [] {
      forall info
        ensures !Clashes(sha, files, root, after, |before|, info)
      {
        if IsRecord(sha, files, root, before, info) && info.rel == e.rel {
          RecordNamesEntry(sha, files, root, before, info);
          if e.rel in byRel {
            OneRecord(sha, files, root, before, info, byRel[e.rel]);
          }
        }
      }
    } else {
      var prev := byRel[e.rel];
      RecordNamesEntry(sha, files, root, before, prev);
      assert Info(prev.logicalId, prev.rel, prev.source, Dest(root, prev.rel), prev.hash) == prev;
    }
  }

  lemma {:induction false} RecordNamesEntry(sha: Hash, files: Files, root: Id, entries: seq<Collected>, info: Info)
    requires IsRecord(sha, files, root, entries, info)
    ensures info.dest == Dest(root, info.rel) && exists e :: e in entries && e.rel == info.rel
  {
    var e :| e in entries && e.rel == info.rel && HasHash(sha, files, e, info.hash) && e.source == info.source;
  }

  /** The paths and hashes on record. */
  ghost predicate Recorded(sha: Hash, files: Files, root: Id, entries: seq<Collected>, byRel: map<Id, Info>)
    requires AllGood(sha, files, entries)
  {
    && (forall rel :: rel in byRel <==> exists e :: e in entries && e.rel == rel)
    && (forall rel :: rel in byRel ==> byRel[rel].rel == rel && byRel[rel].dest == Dest(root, rel))
    && forall rel :: rel in byRel ==>
         exists e :: e in entries && e.rel == rel && HashOf(sha, files, e) == byRel[rel].hash
  }

  ghost predicate AllDescribed(sha: Hash, files: Files, root: Id, entries: seq<Collected>, byRel: map<Id, Info>)
    requires AllGood(sha, files, entries)
  {
    forall rel :: rel in byRel ==> Describes(sha, files, root, entries, byRel[rel])
  }

  /** The first pass so far. The hash on record is that of some entry, even after a conflict. */
  ghost predicate FirstPass(sha: Hash, files: Files, root: Id, entries: seq<Collected>, byRel: map<Id, Info>,
                            conflicts: seq<Conflict>)
    requires AllGood(sha, files, entries)
  {
    && Recorded(sha, files, root, entries, byRel)
    && (conflicts == [] <==> Agree(sha, files, entries))
    && (conflicts == [] ==> AllDescribed(sha, files, root, entries, byRel))
  }

  /** Records that described the entries still do after one more, if `e` agrees with its record. */
  lemma {:induction false} StillDescribed(sha: Hash, files: Files, root: Id, before: seq<Collected>, e: Collected,
                                          byRel: map<Id, Info>, info: Info)
    requires AllGood(sha, files, before) && AllGood(sha, files, before + [e])
    requires AllDescribed(sha, files, root, before, byRel) && Recorded(sha, files, root, before, byRel)
    requires !Bad(sha, files, e) && (e.rel in byRel ==> HashOf(sha, files, e) == byRel[e.rel].hash)
    requires if e.rel in byRel then
               var prev := byRel[e.rel];
               info == prev.(source := if Less(e.source, prev.source) then e.source else prev.source)
             else Describes(sha, files, root, before + [e], info)
    ensures AllDescribed(sha, files, root, before + [e], byRel[e.rel := info])
  {
    hide Describes, Less, Dest;
    forall rel | rel in byRel
      ensures Describes(sha, files, root, before + [e], byRel[e.rel := info][rel])
    {
      DescribesMore(sha, files, root, before, e, byRel[rel]);
    }
  }

  lemma {:induction false} RecordedMore(sha: Hash, files: Files, root: Id, before: seq<Collected>, e: Collected,
                                        byRel: map<Id, Info>, info: Info)
    requires AllGood(sha, files, before) && AllGood(sha, files, before + [e])
    requires Recorded(sha, files, root, before, byRel)
    requires info.rel == e.rel && info.dest == Dest(root, e.rel)
    requires info.hash == if e.rel in byRel then byRel[e.rel].hash else HashOf(sha, files, e)
    ensures Recorded(sha, files, root, before + [e], byRel[e.rel := info])
  {
    hide Dest, Bad;
    assert forall x :: x in before + [e] <==> x in before || x == e;
  }

  /** The first entry for a path is recorded as it is. */
  lemma {:induction false} NewPath(sha: Hash, files: Files, root: Id, before: seq<Collected>, e: Collected,
                                   byRel: map<Id, Info>, conflicts: seq<Conflict>)
    requires AllGood(sha, files, before) && AllGood(sha, files, before + [e])
    requires FirstPass(sha, files, root, before, byRel, conflicts) && e.rel !in byRel
    ensures var info := Info(e.logicalId, e.rel, e.source, Dest(root, e.rel), HashOf(sha, files, e));
            FirstPass(sha, files, root, before + [e], byRel[e.rel := info], conflicts)
  {
    assert e in before + [e] && !Bad(sha, files, e);
    hide Describes, AllDescribed, Dest, Less, Agree, Recorded, AllGood, Bad, HashOf;
    var info := Info(e.logicalId, e.rel, e.source, Dest(root, e.rel), HashOf(sha, files, e));
    RecordedMore(sha, files, root, before, e, byRel, info);
    AgreeMore(sha, files, before, e);
    NoneBefore(sha, files, root, before, byRel, e.rel);
    DescribesFirst(sha, files, root, before, e);
    if conflicts == [] {
      StillDescribed(sha, files, root, before, e, byRel, info);
    }
  }

  lemma {:induction false} NoneBefore(sha: Hash, files: Files, root: Id, entries: seq<Collected>, byRel: map<Id, Info>,
                                      rel: Id)
    requires AllGood(sha, files, entries) && Recorded(sha, files, root, entries, byRel) && rel !in byRel
    ensures forall e :: e in entries ==> e.rel != rel
  {
  }

  lemma {:induction false} RecordedRel(sha: Hash, files: Files, root: Id, entries: seq<Collected>, byRel: map<Id, Info>,
                                       rel: Id)
    requires AllGood(sha, files, entries) && Recorded(sha, files, root, entries, byRel) && rel in byRel
    ensures byRel[rel].rel == rel && byRel[rel].dest == Dest(root, rel)
    ensures exists e :: e in entries && e.rel == rel && HashOf(sha, files, e) == byRel[rel].hash
  {
  }

  /** Other content on a known path is a conflict; the record stays. */
  lemma {:induction false} OtherContent(sha: Hash, files: Files, root: Id, before: seq<Collected>, e: Collected,
                                        byRel: map<Id, Info>, conflicts0: seq<Conflict>, conflicts: seq<Conflict>)
    requires AllGood(sha, files, before) && AllGood(sha, files, before + [e])
    requires FirstPass(sha, files, root, before, byRel, conflicts0) && e.rel in byRel
    requires byRel[e.rel].hash != HashOf(sha, files, e) && conflicts != []
    ensures FirstPass(sha, files, root, before + [e], byRel, conflicts)
  {
    hide Describes, Dest, Less, Agree, Recorded;
    AgreeMore(sha, files, before, e);
    RecordedRel(sha, files, root, before, byRel, e.rel);
    RecordedMore(sha, files, root, before, e, byRel, byRel[e.rel]);
    assert byRel[e.rel := byRel[e.rel]] == byRel;
  }

  /** The same content on a known path: the lesser source is kept. */
  lemma {:induction false} SameContent(sha: Hash, files: Files, root: Id, before: seq<Collected>, e: Collected,
                                       byRel: map<Id, Info>, conflicts: seq<Conflict>)
    requires AllGood(sha, files, before) && AllGood(sha, files, before + [e])
    requires FirstPass(sha, files, root, before, byRel, conflicts) && e.rel in byRel
    requires byRel[e.rel].hash == HashOf(sha, files, e)
    ensures var prev := byRel[e.rel];
            var source := if Less(e.source, prev.source) then e.source else prev.source;
            FirstPass(sha, files, root, before + [e], byRel[e.rel := prev.(source := source)], conflicts)
  {
    assert e in before + [e] && !Bad(sha, files, e);
    hide Describes, AllDescribed, Dest, Less, Agree, Recorded, AllGood, Bad, HashOf;
    var prev := byRel[e.rel];
    var info := prev.(source := if Less(e.source, prev.source) then e.source else prev.source);
    RecordedRel(sha, files, root, before, byRel, e.rel);
    RecordedMore(sha, files, root, before, e, byRel, info);
    AgreeMore(sha, files, before, e);
    AgreesWithRecord(sha, files, root, before, e, byRel);
    if conflicts == [] {
      StillDescribed(sha, files, root, before, e, byRel, info);
    }
  }

  /** If the entries before agree, an entry with the hash on record agrees with all of them. */
  lemma {:induction false} AgreesWithRecord(sha: Hash, files: Files, root: Id, before: seq<Collected>, e: Collected,
                                            byRel: map<Id, Info>)
    requires AllGood(sha, files, before) && !Bad(sha, files, e) && Recorded(sha, files, root, before, byRel)
    requires e.rel in byRel && byRel[e.rel].hash == HashOf(sha, files, e)
    ensures Agree(sha, files, before) ==>
              forall x :: x in before && x.rel == e.rel ==> HashOf(sha, files, x) == HashOf(sha, files, e)
  {
    RecordedRel(sha, files, root, before, byRel, e.rel);
  }

  /** One entry of the first pass. */
  method MergeEntry(sha: Hash, files: Files, root: Id, ghost before: seq<Collected>, e: Collected,
                    byRel0: map<Id, Info>, conflicts0: seq<Conflict>)
    returns (byRel: map<Id, Info>, conflicts: seq<Conflict>)
    requires AllGood(sha, files, before) && !Bad(sha, files, e)
    requires FirstPass(sha, files, root, before, byRel0, conflicts0)
    requires Read(sha, files, root, before, byRel0, conflicts0)
    ensures AllGood(sha, files, before + [e])
    ensures FirstPass(sha, files, root, before + [e], byRel, conflicts)
    ensures Read(sha, files, root, before + [e], byRel, conflicts)
  {
    hide FirstPass, Read, Less, Dest;
    byRel, conflicts := byRel0, conflicts0;
    var hash := sha(files[e.source]);
    assert conflicts + [] == conflicts;
    if e.rel !in byRel {
      NewPath(sha, files, root, before, e, byRel, conflicts);
      byRel := byRel[e.rel := Info(e.logicalId, e.rel, e.source, Dest(root, e.rel), hash)];
      ReadMore(sha, files, root, before, e, byRel0, conflicts0, byRel[e.rel], []);
    } else {
      var prev := byRel[e.rel];
      if prev.hash != hash {
        var conflict := Conflict(e.rel, prev.logicalId, e.logicalId, prev.hash, hash, prev.source, e.source);
        conflicts := conflicts + [conflict];
        OtherContent(sha, files, root, before, e, byRel, conflicts0, conflicts);
        ReadMore(sha, files, root, before, e, byRel0, conflicts0, prev, [conflict]);
        assert byRel[e.rel := prev] == byRel;
      } else {
        SameContent(sha, files, root, before, e, byRel, conflicts);
        if Less(e.source, prev.source) {
          byRel := byRel[e.rel := prev.(source := e.source)];
        } else {
          assert byRel[e.rel := prev] == byRel;
        }
        ReadMore(sha, files, root, before, e, byRel0, conflicts0, byRel[e.rel], []);
      }
    }
  }

  /** The first pass over all entries; it stops at the first bad one. */
  method CollectByPath(sha: Hash, files: Files, root: Id, entries: seq<Collected>)
    returns (r: Result<(map<Id, Info>, seq<Conflict>), MergeError>)
    ensures r.Ok? <==> AllGood(sha, files, entries)
    ensures r.Ok? ==> FirstPass(sha, files, root, entries, r.value.0, r.value.1)
    ensures r.Ok? ==> Read(sha, files, root, entries, r.value.0, r.value.1)
    ensures r.Err? ==> IsFirstComplaint(sha, files, entries, r.error)
  {
    hide FirstPass, Read;
    var byRel: map<Id, Info>, conflicts: seq<Conflict> := map[], [];
    EmptyPass(sha, files, root);
    ReadNone(sha, files, root);
    for i := 0 to |entries|
      invariant AllGood(sha, files, entries[..i])
      invariant FirstPass(sha, files, root, entries[..i], byRel, conflicts)
      invariant Read(sha, files, root, entries[..i], byRel, conflicts)
    {
      var e := entries[i];
      if Bad(sha, files, e) {
        assert e in entries;
        var complaint := if e.source !in files then Unreadable(e.source) else HashMismatch(e.source);
        assert IsFirstBad(sha, files, entries, i, complaint);
        return Err(complaint);
      }
      assert entries[..i + 1] == entries[..i] + [e];
      byRel, conflicts := MergeEntry(sha, files, root, entries[..i], e, byRel, conflicts);
    }
    assert entries[..|entries|] == entries;
    return Ok((byRel, conflicts));
  }

  lemma {:induction false} EmptyPass(sha: Hash, files: Files, root: Id)
    ensures FirstPass(sha, files, root, [], map[], [])
  {
  }

  /** What the second pass has made of the first `n` paths. */
  ghost predicate SecondPass(files: Files, sha: Hash, byRel: map<Id, Info>, rels: seq<Id>, n: nat,
                             actions: seq<Action>, clean: bool)
    requires n <= |rels| && forall i :: 0 <= i < |rels| ==> rels[i] in byRel
  {
    && (clean <==> forall i :: 0 <= i < n && byRel[rels[i]].dest in files ==>
                     sha(files[byRel[rels[i]].dest]) == byRel[rels[i]].hash)
    && (clean ==> |actions| == n && forall i :: 0 <= i < n ==>
                    actions[i] == Action(byRel[rels[i]], if byRel[rels[i]].dest in files then Reuse else Link))
  }

  /** The action for a recorded path, if its file does not differ. */
  function Planned(sha: Hash, files: Files, info: Info): seq<Action> {
    if info.dest !in files then [Action(info, Link)]
    else if sha(files[info.dest]) == info.hash then [Action(info, Reuse)]
    else []
  }

  lemma {:induction false} SecondPassMore(files: Files, sha: Hash, byRel: map<Id, Info>, rels: seq<Id>, n: nat,
                                          actions: seq<Action>, clean: bool, more: seq<Action>)
    requires n < |rels| && forall i :: 0 <= i < |rels| ==> rels[i] in byRel
    requires SecondPass(files, sha, byRel, rels, n, actions, clean)
    requires var info := byRel[rels[n]];
             more == Planned(sha, files, info)
    ensures SecondPass(files, sha, byRel, rels, n + 1, actions + more, clean && more != [])
  {
  }

  /** The differing files among the first `n` paths have been reported. */
  ghost predicate Compared(sha: Hash, files: Files, root: Id, entries: seq<Collected>, byRel: map<Id, Info>,
                           rels: seq<Id>, n: nat, conflicts: seq<Conflict>, differ: seq<Id>)
    requires n <= |rels| && forall i :: 0 <= i < |rels| ==> rels[i] in byRel
  {
    && |conflicts| == |differ| && Ascending(differ)
    && (forall rel :: rel in differ ==> rel in rels[..n])
    && (forall m :: 0 <= m < |differ| ==> IsExisting(sha, files, root, entries, differ[m], conflicts[m]))
    && forall i :: 0 <= i < n && Differs(sha, files, root, entries, byRel[rels[i]]) ==> rels[i] in differ
  }

  lemma {:induction false} ComparedNone(sha: Hash, files: Files, root: Id, entries: seq<Collected>,
                                        byRel: map<Id, Info>, rels: seq<Id>)
    requires forall i :: 0 <= i < |rels| ==> rels[i] in byRel
    ensures Compared(sha, files, root, entries, byRel, rels, 0, [], [])
  {
  }

  lemma {:induction false} ComparedMore(sha: Hash, files: Files, root: Id, entries: seq<Collected>,
                                        byRel: map<Id, Info>, rels: seq<Id>, n: nat, conflicts: seq<Conflict>,
                                        differ: seq<Id>, more: seq<Conflict>)
    requires Ascending(rels) && n < |rels| && forall i :: 0 <= i < |rels| ==> rels[i] in byRel
    requires Compared(sha, files, root, entries, byRel, rels, n, conflicts, differ)
    requires more == [] ==> !Differs(sha, files, root, entries, byRel[rels[n]])
    requires more != [] ==> |more| == 1 && IsExisting(sha, files, root, entries, rels[n], more[0])
    ensures Compared(sha, files, root, entries, byRel, rels, n + 1, conflicts + more,
                     if more == [] then differ else differ + [rels[n]])
  {
    hide IsExisting, Differs, Less;
    assert rels[..n + 1] == rels[..n] + [rels[n]];
    if more != [] {
      forall m | 0 <= m < |differ|
        ensures Less(differ[m], rels[n])
      {
        assert differ[m] in differ;
      }
    }
  }

  /** Reporting on all recorded paths in order is reporting all that differs. */
  lemma {:induction false} ComparedAll(sha: Hash, files: Files, root: Id, entries: seq<Collected>,
                                       byRel: map<Id, Info>, rels: seq<Id>, conflicts: seq<Conflict>, differ: seq<Id>)
    requires forall i :: 0 <= i < |rels| ==> rels[i] in byRel
    requires Compared(sha, files, root, entries, byRel, rels, |rels|, conflicts, differ)
    requires forall rel :: rel in byRel ==> byRel[rel].rel == rel && IsRecord(sha, files, root, entries, byRel[rel])
    requires (forall e :: e in entries ==> e.rel in byRel) && forall rel :: rel in byRel ==> rel in rels
    ensures ExistingAre(sha, files, root, entries, conflicts, differ)
  {
    hide IsExisting, IsRecord, Less;
    forall info | Differs(sha, files, root, entries, info)
      ensures info.rel in differ
    {
      RecordNamesEntry(sha, files, root, entries, info);
      OneRecord(sha, files, root, entries, info, byRel[info.rel]);
      var i :| 0 <= i < |rels| && rels[i] == info.rel;
    }
  }

  lemma {:induction false} ExistingConflict(sha: Hash, files: Files, root: Id, entries: seq<Collected>, info: Info,
                                            c: Conflict)
    requires IsRecord(sha, files, root, entries, info)
    requires info.dest in files && sha(files[info.dest]) != info.hash
    requires c == Conflict(info.rel, info.logicalId, Id("<existing run-root>"), sha(files[info.dest]), info.hash,
                           info.dest, info.source)
    ensures IsExisting(sha, files, root, entries, info.rel, c)
  {
    assert info == Info(c.logicalId, info.rel, c.rightSource, Dest(root, info.rel), c.rightHash);
  }

  /** The second pass: compare each destination with what is there. */
  method PlanActions(sha: Hash, files: Files, ghost root: Id, ghost entries: seq<Collected>, byRel: map<Id, Info>,
                     rels: seq<Id>)
    returns (actions: seq<Action>, conflicts: seq<Conflict>)
    requires Ascending(rels) && forall i :: 0 <= i < |rels| ==> rels[i] in byRel
    requires forall rel :: rel in byRel ==> byRel[rel].rel == rel && IsRecord(sha, files, root, entries, byRel[rel])
    ensures SecondPass(files, sha, byRel, rels, |rels|, actions, conflicts == [])
    ensures exists differ: seq<Id> :: Compared(sha, files, root, entries, byRel, rels, |rels|, conflicts, differ)
  {
    hide Compared, IsRecord, Less;
    actions, conflicts := [], [];
    assert SecondPass(files, sha, byRel, rels, 0, actions, true);
    hide SecondPass, Ascending;
    ghost var differ: seq<Id> := [];
    ComparedNone(sha, files, root, entries, byRel, rels);
    for i := 0 to |rels|
      invariant SecondPass(files, sha, byRel, rels, i, actions, conflicts == [])
      invariant Compared(sha, files, root, entries, byRel, rels, i, conflicts, differ)
    {
      var info := byRel[rels[i]];
      assert conflicts + [] == conflicts && actions + [] == actions;
      SecondPassMore(files, sha, byRel, rels, i, actions, conflicts == [], Planned(sha, files, info));
      if info.dest in files {
        var hash := sha(files[info.dest]);
        if hash == info.hash {
          actions := actions + [Action(info, Reuse)];
          ComparedMore(sha, files, root, entries, byRel, rels, i, conflicts, differ, []);
        } else {
          var conflict := Conflict(info.rel, info.logicalId, Id("<existing run-root>"), hash, info.hash, info.dest,
                                   info.source);
          ExistingConflict(sha, files, root, entries, info, conflict);
          ComparedMore(sha, files, root, entries, byRel, rels, i, conflicts, differ, [conflict]);
          conflicts, differ := conflicts + [conflict], differ + [rels[i]];
        }
      } else {
        actions := actions + [Action(info, Link)];
        ComparedMore(sha, files, root, entries, byRel, rels, i, conflicts, differ, []);
      }
    }
  }

  /** `_resolve_merge_actions`: when it raises, when it reports a conflict, and what it plans otherwise. */
  method ResolveMergeActions(sha: Hash, files: Files, root: Id, entries: seq<Collected>)
    returns (r: Result<(seq<Action>, seq<Conflict>), MergeError>)
    ensures r.Ok? <==> AllGood(sha, files, entries)
    ensures r.Err? ==> IsFirstComplaint(sha, files, entries, r.error)
    ensures r.Ok? ==> (r.value.1 == [] <==> Agree(sha, files, entries) && FitsFiles(sha, files, root, entries))
    ensures r.Ok? && r.value.1 == [] ==> IsPlan(sha, files, root, entries, r.value.0)
    ensures r.Ok? ==> AreConflicts(sha, files, root, entries, r.value.1)
  {
    hide FirstPass, SecondPass, AllGood, Agree, FitsFiles, IsPlan, AreConflicts, IsRecord, Compared, ClashesAre;
    var collected :- CollectByPath(sha, files, root, entries);
    var (byRel, firstConflicts) := collected;
    var rels := Sorted(byRel.Keys);
    assert forall i :: 0 <= i < |rels| ==> rels[i] in rels;
    var actions, conflicts := PlanActions(sha, files, root, entries, byRel, rels);
    PassesMakePlan(sha, files, root, entries, byRel, firstConflicts, rels, actions, conflicts == []);
    PassesReport(sha, files, root, entries, byRel, firstConflicts, rels, conflicts);
    return Ok((actions, firstConflicts + conflicts));
  }

  lemma {:induction false} PassesReport(sha: Hash, files: Files, root: Id, entries: seq<Collected>,
                                        byRel: map<Id, Info>, clashes: seq<Conflict>, rels: seq<Id>,
                                        existing: seq<Conflict>)
    requires Read(sha, files, root, entries, byRel, clashes)
    requires forall i :: 0 <= i < |rels| ==> rels[i] in byRel
    requires forall rel :: rel in byRel ==> rel in rels
    requires exists differ: seq<Id> :: Compared(sha, files, root, entries, byRel, rels, |rels|, existing, differ)
    ensures AreConflicts(sha, files, root, entries, clashes + existing)
  {
    hide IsRecord, Clashes, IsClash, IsExisting, Less;
    var at: seq<nat> :| ClashesAre(sha, files, root, entries, clashes, at);
    var differ: seq<Id> :| Compared(sha, files, root, entries, byRel, rels, |rels|, existing, differ);
    ComparedAll(sha, files, root, entries, byRel, rels, existing, differ);
    var all := clashes + existing;
    assert all[..|at|] == clashes && all[|at|..] == existing;
  }

  lemma {:induction false} RecordOf(sha: Hash, files: Files, root: Id, entries: seq<Collected>, byRel: map<Id, Info>,
                                    e: Collected)
    requires AllGood(sha, files, entries) && FirstPass(sha, files, root, entries, byRel, []) && e in entries
    ensures e.rel in byRel && byRel[e.rel].hash == HashOf(sha, files, e) && byRel[e.rel].dest == Dest(root, e.rel)
  {
    hide FirstId, IsLeastSource, Agree, Bad, Dest;
    assert Describes(sha, files, root, entries, byRel[e.rel]);
  }

  lemma {:induction false} CleanMeansFits(sha: Hash, files: Files, root: Id, entries: seq<Collected>,
                                          byRel: map<Id, Info>, rels: seq<Id>, actions: seq<Action>, clean: bool)
    requires AllGood(sha, files, entries) && FirstPass(sha, files, root, entries, byRel, [])
    requires forall rel :: rel in rels <==> rel in byRel
    requires forall i :: 0 <= i < |rels| ==> rels[i] in byRel
    requires SecondPass(files, sha, byRel, rels, |rels|, actions, clean)
    ensures clean <==> FitsFiles(sha, files, root, entries)
  {
    forall e | e in entries
      ensures e.rel in byRel && byRel[e.rel].hash == HashOf(sha, files, e) && byRel[e.rel].dest == Dest(root, e.rel)
    {
      RecordOf(sha, files, root, entries, byRel, e);
    }
    assert forall i :: 0 <= i < |rels| ==> exists e :: e in entries && e.rel == rels[i];
    hide FirstPass, Dest, Bad;
  }

  lemma {:induction false} CleanPlan(sha: Hash, files: Files, root: Id, entries: seq<Collected>, byRel: map<Id, Info>,
                                     rels: seq<Id>, actions: seq<Action>)
    requires AllGood(sha, files, entries) && FirstPass(sha, files, root, entries, byRel, [])
    requires Ascending(rels) && forall rel :: rel in rels <==> rel in byRel
    requires forall i :: 0 <= i < |rels| ==> rels[i] in byRel
    requires SecondPass(files, sha, byRel, rels, |rels|, actions, true)
    ensures IsPlan(sha, files, root, entries, actions)
  {
    hide Less, Describes, Agree, Bad, Dest;
    forall e | e in entries
      ensures exists a :: a in actions && a.info.rel == e.rel
    {
      assert e.rel in byRel;
      var i :| 0 <= i < |rels| && rels[i] == e.rel;
      assert actions[i] in actions;
    }
  }

  lemma {:induction false} PassesMakePlan(sha: Hash, files: Files, root: Id, entries: seq<Collected>,
                                          byRel: map<Id, Info>, conflicts: seq<Conflict>, rels: seq<Id>,
                                          actions: seq<Action>, clean: bool)
    requires AllGood(sha, files, entries) && FirstPass(sha, files, root, entries, byRel, conflicts)
    requires Ascending(rels) && forall rel :: rel in rels <==> rel in byRel
    requires forall i :: 0 <= i < |rels| ==> rels[i] in byRel
    requires SecondPass(files, sha, byRel, rels, |rels|, actions, clean)
    ensures conflicts == [] && clean <==> Agree(sha, files, entries) && FitsFiles(sha, files, root, entries)
    ensures conflicts == [] && clean ==> IsPlan(sha, files, root, entries, actions)
  {
    hide Describes, Bad, SecondPass, FitsFiles, IsPlan;
    if conflicts == [] {
      CleanMeansFits(sha, files, root, entries, byRel, rels, actions, clean);
      if clean {
        CleanPlan(sha, files, root, entries, byRel, rels, actions);
      }
    }
  }

  // ----- reading a plan

  /** The entry an action was made for. */
  lemma {:induction false} EntryOf(sha: Hash, files: Files, root: Id, entries: seq<Collected>, actions: seq<Action>,
                                   i: nat)
    returns (e: Collected)
    requires AllGood(sha, files, entries) && IsPlan(sha, files, root, entries, actions) && i < |actions|
    ensures Describes(sha, files, root, entries, actions[i].info)
    ensures e in entries && e.rel == actions[i].info.rel && e.source == actions[i].info.source
    ensures HashOf(sha, files, e) == actions[i].info.hash && actions[i].info.dest == Dest(root, e.rel)
    ensures actions[i].kind == if actions[i].info.dest in files then Reuse else Link
  {
    hide Less, FirstId, Dest;
    assert actions[i] in actions;
    assert Describes(sha, files, root, entries, actions[i].info);
    e :| e in entries && e.rel == actions[i].info.rel && e.source == actions[i].info.source;
  }

  /** The action made for an entry. */
  lemma {:induction false} ActionOf(sha: Hash, files: Files, root: Id, entries: seq<Collected>, actions: seq<Action>,
                                    e: Collected) returns (i: nat)
    requires AllGood(sha, files, entries) && IsPlan(sha, files, root, entries, actions) && e in entries
    ensures i < |actions| && actions[i].info.rel == e.rel
    ensures actions[i].info.hash == HashOf(sha, files, e) && actions[i].info.dest == Dest(root, e.rel)
  {
    hide Less, FirstId, IsLeastSource, Dest;
    var a :| a in actions && a.info.rel == e.rel;
    i :| 0 <= i < |actions| && actions[i] == a;
    assert Describes(sha, files, root, entries, a.info);
  }

  // ----- order of the entries

  ghost predicate SameEntries(a: seq<Collected>, b: seq<Collected>) {
    forall e :: e in a <==> e in b
  }

  lemma {:induction false} SameDescription(sha: Hash, files: Files, root: Id, a: seq<Collected>, b: seq<Collected>,
                                           x: Info, y: Info)
    requires SameEntries(a, b) && AllGood(sha, files, a) && AllGood(sha, files, b)
    requires Describes(sha, files, root, a, x) && Describes(sha, files, root, b, y) && x.rel == y.rel
    ensures x.(logicalId := y.logicalId) == y
  {
    hide Less;
    var e :| e in a && e.rel == x.rel && e.source == x.source;
    var f :| f in b && f.rel == x.rel && f.source == y.source;
    assert e in b && f in a;
    LessTotal(x.source, y.source);
  }

  lemma {:induction false} PlanRels(sha: Hash, files: Files, root: Id, entries: seq<Collected>, actions: seq<Action>)
    returns (rels: seq<Id>)
    requires AllGood(sha, files, entries) && IsPlan(sha, files, root, entries, actions)
    ensures |rels| == |actions| && forall i :: 0 <= i < |rels| ==> rels[i] == actions[i].info.rel
    ensures Ascending(rels)
    ensures forall rel :: rel in rels <==> exists e :: e in entries && e.rel == rel
  {
    hide Less, Describes, Bad, FirstId, Dest;
    rels := seq(|actions|, i requires 0 <= i < |actions| => actions[i].info.rel);
    PlanHasRels(sha, files, root, entries, actions, rels);
  }

  lemma {:induction false} PlanHasRels(sha: Hash, files: Files, root: Id, entries: seq<Collected>, actions: seq<Action>,
                                       rels: seq<Id>)
    requires AllGood(sha, files, entries) && IsPlan(sha, files, root, entries, actions)
    requires |rels| == |actions| && forall i :: 0 <= i < |rels| ==> rels[i] == actions[i].info.rel
    ensures forall rel :: rel in rels <==> exists e :: e in entries && e.rel == rel
  {
    hide Less, IsPlan, Describes, Bad;
    forall rel
      ensures rel in rels <==> exists e :: e in entries && e.rel == rel
    {
      if rel in rels {
        var i :| 0 <= i < |rels| && rels[i] == rel;
        var e := EntryOf(sha, files, root, entries, actions, i);
      }
      if e :| e in entries && e.rel == rel {
        var i := ActionOf(sha, files, root, entries, actions, e);
        assert rels[i] == rel;
      }
    }
  }

  /**
   Whether planning raises, whether it conflicts, and each path's hash, source and action do not depend
   on the order of the entries; only the logical id attached to a path may.
   */
  lemma {:induction false} PlanIgnoresOrder(sha: Hash, files: Files, root: Id, a: seq<Collected>, b: seq<Collected>,
                                            x: seq<Action>, y: seq<Action>)
    requires SameEntries(a, b)
    ensures AllGood(sha, files, a) == AllGood(sha, files, b)
    ensures AllGood(sha, files, a) ==>
              && Agree(sha, files, a) == Agree(sha, files, b)
              && FitsFiles(sha, files, root, a) == FitsFiles(sha, files, root, b)
    ensures AllGood(sha, files, a) && IsPlan(sha, files, root, a, x) && IsPlan(sha, files, root, b, y) ==>
              && |x| == |y|
              && forall i :: 0 <= i < |x| ==>
                   x[i].kind == y[i].kind && x[i].info.(logicalId := y[i].info.logicalId) == y[i].info
  {
    hide IsPlan, Describes, Bad;
    if AllGood(sha, files, a) && IsPlan(sha, files, root, a, x) && IsPlan(sha, files, root, b, y) {
      var p := PlanRels(sha, files, root, a, x);
      var q := PlanRels(sha, files, root, b, y);
      AscendingUnique(p, q);
      forall i | 0 <= i < |x|
        ensures x[i].kind == y[i].kind && x[i].info.(logicalId := y[i].info.logicalId) == y[i].info
      {
        assert p[i] == q[i];
        var e := EntryOf(sha, files, root, a, x, i);
        var f := EntryOf(sha, files, root, b, y, i);
        SameDescription(sha, files, root, a, b, x[i].info, y[i].info);
      }
    }
  }

  lemma {:induction false} IdOfAction(sha: Hash, files: Files, root: Id, entries: seq<Collected>, actions: seq<Action>,
                                      i: nat)
    requires AllGood(sha, files, entries) && IsPlan(sha, files, root, entries, actions) && i < |actions|
    ensures FirstId(entries, actions[i].info.rel) == Some(actions[i].info.logicalId)
  {
    hide FirstId, IsLeastSource, Less, AllGood, Dest;
    assert actions[i] in actions;
  }

  /** One list of entries has one plan. */
  lemma {:induction false} PlanIsUnique(sha: Hash, files: Files, root: Id, entries: seq<Collected>, x: seq<Action>,
                                        y: seq<Action>)
    requires AllGood(sha, files, entries)
    requires IsPlan(sha, files, root, entries, x) && IsPlan(sha, files, root, entries, y)
    ensures x == y
  {
    hide IsPlan, AllGood, FirstId;
    PlanIgnoresOrder(sha, files, root, entries, entries, x, y);
    forall i | 0 <= i < |x|
      ensures x[i] == y[i]
    {
      IdOfAction(sha, files, root, entries, x, i);
      IdOfAction(sha, files, root, entries, y, i);
    }
  }

  // ----- applying the plan

  /** `apply_merge_actions` on the file system. */
  function Applied(files: Files, actions: seq<Action>): Files
    decreases |actions|
  {
    if actions == [] then files
    else
      var last := actions[|actions| - 1];
      var before := Applied(files, actions[..|actions| - 1]);
      if last.kind == Link && last.info.source in before then before[last.info.dest := before[last.info.source]]
      else before
  }

  class RunRoot {
    var files: Files

    method Apply(actions: seq<Action>)
      requires forall a :: a in actions ==> a.info.source in files
      modifies this
      ensures files == Applied(old(files), actions)
    {
      for i := 0 to |actions|
        invariant files == Applied(old(files), actions[..i])
        invariant forall a :: a in actions ==> a.info.source in files
      {
        assert actions[..i + 1][..i] == actions[..i] && actions[i] in actions;
        if actions[i].kind == Link {
          files := files[actions[i].info.dest := files[actions[i].info.source]];
        }
      }
      assert actions[..|actions|] == actions;
    }
  }

  /** The file system after the first `n` actions. */
  ghost predicate MergedSoFar(sha: Hash, files: Files, actions: seq<Action>, n: nat, after: Files)
    requires n <= |actions|
  {
    && (forall p :: p in files ==> p in after && after[p] == files[p])
    && (forall p :: p in after ==> p in files || exists i :: 0 <= i < n && p == actions[i].info.dest)
    && (forall i :: 0 <= i < n ==>
          actions[i].info.dest in after && sha(after[actions[i].info.dest]) == actions[i].info.hash)
  }

  lemma {:induction false} ApplyingPrefix(sha: Hash, files: Files, root: Id, entries: seq<Collected>,
                                          actions: seq<Action>,
                                          n: nat)
    requires AllGood(sha, files, entries) && FitsFiles(sha, files, root, entries)
    requires IsPlan(sha, files, root, entries, actions) && n <= |actions|
    ensures MergedSoFar(sha, files, actions, n, Applied(files, actions[..n]))
  {
    hide IsPlan, Describes, Dest;
    if n > 0 {
      ApplyingPrefix(sha, files, root, entries, actions, n - 1);
      assert actions[..n][..n - 1] == actions[..n - 1];
      var e := EntryOf(sha, files, root, entries, actions, n - 1);
      forall i | 0 <= i < n - 1
        ensures actions[i].info.dest != actions[n - 1].info.dest
      {
        DestsDiffer(sha, files, root, entries, actions, i, n - 1);
      }
    }
  }

  lemma {:induction false} DestsDiffer(sha: Hash, files: Files, root: Id, entries: seq<Collected>, actions: seq<Action>,
                                       i: nat, j: nat)
    requires AllGood(sha, files, entries) && IsPlan(sha, files, root, entries, actions) && i < j < |actions|
    ensures actions[i].info.dest != actions[j].info.dest
  {
    LessTotal(actions[i].info.rel, actions[j].info.rel);
    assert Less(actions[i].info.rel, actions[j].info.rel);
    hide IsPlan, Describes, Dest;
    var e := EntryOf(sha, files, root, entries, actions, i);
    var f := EntryOf(sha, files, root, entries, actions, j);
    if actions[i].info.dest == actions[j].info.dest {
      DestInjective(root, actions[i].info.rel, actions[j].info.rel);
    }
  }

  /**
   Applying a plan without conflicts changes no existing file, adds only the planned destinations, and
   gives the path of every collected entry content with that entry's hash.
   */
  lemma {:induction false} ApplyMerges(sha: Hash, files: Files, root: Id, entries: seq<Collected>, actions: seq<Action>)
    requires AllGood(sha, files, entries) && FitsFiles(sha, files, root, entries)
    requires IsPlan(sha, files, root, entries, actions)
    ensures var after := Applied(files, actions);
            && (forall p :: p in files ==> p in after && after[p] == files[p])
            && (forall p :: p in after && p !in files ==> exists e :: e in entries && p == Dest(root, e.rel))
            && (forall e :: e in entries ==>
                  Dest(root, e.rel) in after && sha(after[Dest(root, e.rel)]) == HashOf(sha, files, e))
  {
    hide Applied, IsPlan, Describes, Dest, Bad;
    ApplyingPrefix(sha, files, root, entries, actions, |actions|);
    assert actions[..|actions|] == actions;
    var after := Applied(files, actions);
    forall p | p in after && p !in files
      ensures exists e :: e in entries && p == Dest(root, e.rel)
    {
      var i :| 0 <= i < |actions| && p == actions[i].info.dest;
      var e := EntryOf(sha, files, root, entries, actions, i);
    }
    forall e | e in entries
      ensures Dest(root, e.rel) in after && sha(after[Dest(root, e.rel)]) == HashOf(sha, files, e)
    {
      var i := ActionOf(sha, files, root, entries, actions, e);
    }
  }

  /** Planning again after applying raises nothing, conflicts with nothing, and only reuses. */
  lemma {:induction false} ReplanOnlyReuses(sha: Hash, files: Files, root: Id, entries: seq<Collected>,
                                            actions: seq<Action>, again: seq<Action>)
    requires AllGood(sha, files, entries) && Agree(sha, files, entries) && FitsFiles(sha, files, root, entries)
    requires IsPlan(sha, files, root, entries, actions)
    ensures var after := Applied(files, actions);
            && AllGood(sha, after, entries) && Agree(sha, after, entries) && FitsFiles(sha, after, root, entries)
            && (IsPlan(sha, after, root, entries, again) ==> forall a :: a in again ==> a.kind == Reuse)
  {
    hide Applied, IsPlan, Describes, Dest;
    ApplyMerges(sha, files, root, entries, actions);
    var after := Applied(files, actions);
    assert forall e :: e in entries ==> !Bad(sha, after, e) && HashOf(sha, after, e) == HashOf(sha, files, e);
    if IsPlan(sha, after, root, entries, again) {
      forall a | a in again
        ensures a.kind == Reuse
      {
        var i :| 0 <= i < |again| && again[i] == a;
        var e := EntryOf(sha, after, root, entries, again, i);
      }
    }
  }
}
