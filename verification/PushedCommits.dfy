/**
  Which commits a push brings into a repository, tags included, and which of them the forge is
  told of.
 */
module PushedCommits {
  import opened ObjectIds
  import opened Wrappers
  import opened Sequences
  import opened Graphs
  import opened CommitWalks
  import opened ObjectStore
  import opened Selection
  import opened Keys
  import opened Refs
  import opened Comparison
  import opened KvBuildPack

  /** Tag to target. */
  function TagGraph(s: Store): Graph {
    map x | x in s && s[x].Tag? :: [s[x].target]
  }

  /** The commits that the ids are, or that the tags among them lead to. */
  ghost function Peeled(s: Store, tips: set<Oid>): set<Oid> {
    set c | c in ReachSet(TagGraph(s), tips) && IsCommit(s, c)
  }

  /** A stored tag that leads to a commit. */
  ghost predicate PeelsTo(s: Store, tag: Oid, commit: Oid) {
    tag in s && s[tag].Tag? && commit in Peeled(s, {tag})
  }

  lemma TagEdges(s: Store, x: Oid, y: Oid)
    ensures y in Succ(TagGraph(s), x) ==> y in Succ(ObjectGraph(s), x)
    ensures x in s && s[x].Tag? && y in Succ(ObjectGraph(s), x) ==> y in Succ(TagGraph(s), x)
  {
  }

  /** What an object refers to is a tag only if it is a tag itself, and a commit only if it is a tag or a commit. */
  lemma ReferenceTypes(s: Store, x: Oid, y: Oid)
    requires Typed(s) && x in s && !s[x].Tag? && y in Succ(ObjectGraph(s), x) && y in s
    ensures !s[y].Tag? && (s[y].Commit? ==> s[x].Commit? && y in Succ(CommitGraph(s), x))
  {
    ObjectSucc(s, x);
    if s[x].Tree? { TreeSuccLeafy(s, x, y); }
  }

  /** Peeling and walking parents stay within what is reachable. */
  lemma PeeledIsReached(s: Store, tips: set<Oid>)
    ensures Peeled(s, tips) <= Closure(s, tips) && Ancestors(s, Peeled(s, tips)) <= Closure(s, tips)
  {
    hide ReachSet, Reach, TagGraph, CommitGraph, ObjectGraph, IsCommit;
    ReachSetClosed(ObjectGraph(s), tips);
    forall x, y | x in Closure(s, tips) && y in Succ(TagGraph(s), x) ensures y in Closure(s, tips) {
      TagEdges(s, x, y);
    }
    ReachInClosed(TagGraph(s), tips, Closure(s, tips));
    forall x, y | x in Closure(s, tips) && y in Succ(CommitGraph(s), x) ensures y in Closure(s, tips) {
      ObjectSucc(s, x);
    }
    ReachInClosed(CommitGraph(s), Peeled(s, tips), Closure(s, tips));
  }

  /** The commits among what is reachable are the histories of the peeled tips. */
  lemma ReachedCommits(s: Store, tips: set<Oid>, x: Oid)
    requires Typed(s) && IsCommit(s, x)
    ensures x in Closure(s, tips) <==> x in Ancestors(s, Peeled(s, tips))
  {
    hide ReachSet, Reach, TagGraph, CommitGraph, ObjectGraph, Typed;
    PeeledIsReached(s, tips);
    var tags, commits := ReachSet(TagGraph(s), tips), Ancestors(s, Peeled(s, tips));
    ReachSetClosed(ObjectGraph(s), tips);
    ReachSetClosed(TagGraph(s), tips);
    ReachSetClosed(CommitGraph(s), Peeled(s, tips));
    var known := set y |
      y in Closure(s, tips) && (IsCommit(s, y) ==> y in commits) && (y in s && s[y].Tag? ==> y in tags);
    forall y, z | y in known && z in Succ(ObjectGraph(s), y) ensures z in known {
      KnownStep(s, y, z);
    }
    ReachInClosed(ObjectGraph(s), tips, known);
  }

  lemma KnownStep(s: Store, y: Oid, z: Oid)
    requires Typed(s) && z in Succ(ObjectGraph(s), y)
    ensures y in s
    ensures s[y].Tag? ==> z in Succ(TagGraph(s), y)
    ensures !s[y].Tag? ==> !(z in s && s[z].Tag?) && (IsCommit(s, z) ==> IsCommit(s, y) && z in Succ(CommitGraph(s), y))
  {
    TagEdges(s, y, z);
    if !s[y].Tag? && z in s { ReferenceTypes(s, y, z); }
  }

  /** A commit that tips peel to is one of them, or a tag among them leads to it. */
  lemma PeeledFromOne(s: Store, tips: set<Oid>, c: Oid)
    ensures c in Peeled(s, tips) <==>
      IsCommit(s, c) && (c in tips || exists t :: t in tips && PeelsTo(s, t, c))
  {
    hide ReachSet, Reach;
    var g := TagGraph(s);
    ReachFromOne(g, tips, c);
    ReachSetClosed(g, tips);
    forall t | t in tips && c in ReachSet(g, {t}) && !(t in s && s[t].Tag?) ensures t == c {
      ReachInClosed(g, {t}, {t});
    }
  }

  /** The comparison is made on this store: it walks its commits, and reads commits and perhaps some blobs. */
  ghost predicate Over(s: Store, b: Basis) {
    && b.graph == CommitGraph(s)
    && (forall x :: IsCommit(s, x) ==> x in b.readable)
    && (forall x :: x in b.readable ==> x in s && (s[x].Commit? || s[x].Blob?))
  }

  /** What the SQL and filesystem backends read as commits. */
  function StoredCommits(s: Store): set<Oid> {
    set x | x in s && s[x].Commit?
  }

  /** What the KV backend reads as commits: it looks at the bytes only. */
  function CommitShaped(s: Store): set<Oid> {
    set x | x in s && ReadCommitTree(s, x).Some?
  }

  lemma BackendsRead(s: Store, refs: seq<RefUpdate>, existing: seq<Oid>, cap: nat)
    ensures Over(s, Basis(CommitGraph(s), StoredCommits(s), refs, existing, cap))
    ensures Over(s, Basis(CommitGraph(s), CommitShaped(s), refs, existing, cap))
  {
  }

  /** The commits a push brings: reachable from its new tips, and not from the refs it leaves alone. */
  ghost function BroughtCommits(s: Store, refs: seq<RefUpdate>, existing: seq<Oid>): set<Oid> {
    set x | x in Closure(s, Elems(NewTips(refs))) - Closure(s, Elems(existing)) && IsCommit(s, x)
  }

  /** Every commit that a tag among the refs left alone leads to is reached through commits as well. */
  ghost predicate TagsCovered(s: Store, existing: seq<Oid>) {
    forall t, c :: t in existing && PeelsTo(s, t, c) ==> c in Ancestors(s, Elems(existing))
  }

  lemma CoveredIff(s: Store, existing: seq<Oid>)
    requires Typed(s)
    ensures TagsCovered(s, existing) <==>
      forall x :: x in Closure(s, Elems(existing)) && IsCommit(s, x) ==> x in Ancestors(s, Elems(existing))
  {
    hide ReachSet, Reach, CommitGraph, ObjectGraph, TagGraph, Typed, Peeled;
    var tips := Elems(existing);
    assert forall t :: t in existing <==> t in tips;
    ReachSetClosed(CommitGraph(s), tips);
    PeeledIsReached(s, tips);
    forall c
      ensures c in Peeled(s, tips) <==> IsCommit(s, c) && (c in tips || exists t :: t in tips && PeelsTo(s, t, c))
    {
      PeeledFromOne(s, tips, c);
    }
    forall t, c | t in existing && PeelsTo(s, t, c) ensures IsCommit(s, c) && c in Closure(s, tips) {
      PeeledFromOne(s, {t}, c);
    }
    if TagsCovered(s, existing) {
      ReachInClosed(CommitGraph(s), Peeled(s, tips), Ancestors(s, tips));
      forall x | x in Closure(s, tips) && IsCommit(s, x) ensures x in Ancestors(s, tips) {
        ReachedCommits(s, tips, x);
      }
    }
  }

  /** No push against these refs is reported with a commit they already reach. */
  ghost predicate NothingOldReported(s: Store, existing: seq<Oid>) {
    forall b, queries, x | Over(s, b) && b.existing == existing && InPush(b.refs, queries) ::
      Reported(AllReplies(b, queries), x) && IsCommit(s, x) ==> x !in Closure(s, Elems(existing))
  }

  lemma ReportedIsNew(s: Store, b: Basis, queries: seq<nat>, x: Oid)
    requires Over(s, b) && InPush(b.refs, queries) && Reported(AllReplies(b, queries), x)
    ensures x !in Ancestors(s, Elems(b.existing))
  {
    hide ReachSet, Reach, Replies, CommitGraph;
    RepliesAvoid(b, NoCells(b.refs), queries);
    var replies := AllReplies(b, queries);
    var k :| 0 <= k < |replies| && replies[k].Commits? && x in replies[k].oids;
    assert x in Elems(replies[k].oids) && Avoids(replies[k], Ancestors(s, Elems(b.existing)));
  }

  lemma LoneWalkIsListed(b: Basis, ref: RefUpdate)
    requires b.refs == [ref] && ref.newOid != NULL_OID
    requires b.cap >= |ReachSet(b.graph, Elems(b.existing))| + |ReachSet(b.graph, {ref.newOid})|
    ensures !OwnAnswer(b, 0).TooMany?
  {
    hide ReachSet, Reach, Told;
    NoTips([ref]);
    assert b.existing + NewTips(b.refs[..0]) == b.existing && Elems([ref.newOid]) == {ref.newOid};
    SubsetSize(ReachSet(b.graph, {ref.newOid}) - ReachSet(b.graph, Elems(b.existing)), ReachSet(b.graph, {ref.newOid}));
    CapIsTold(b.readable, NewWalk(b, 0, ref.newOid));
  }

  /** The null id is no object and no parent. */
  ghost predicate NoNulls(s: Store) {
    NULL_OID !in s && forall x :: IsCommit(s, x) ==> NULL_OID !in s[x].parents
  }

  /** The ids of a commit's history that are not stored. */
  ghost function MissingHistory(s: Store, c: Oid): set<Oid> {
    Ancestors(s, {c}) - CommitGraph(s).Keys
  }

  lemma NullIsNotMissing(s: Store, c: Oid)
    requires NoNulls(s) && IsCommit(s, c)
    ensures NULL_OID !in Ancestors(s, {c})
  {
    hide ReachSet, Reach;
    var g := CommitGraph(s);
    var rest := Ancestors(s, {c}) - {NULL_OID};
    ReachSetClosed(g, {c});
    ReachInClosed(g, {c}, rest);
  }

  /** Refs created at the ids of a list, each under a name of its own, and then one at `c`. */
  function SteppingStones(ids: seq<Oid>, c: Oid): (refs: seq<RefUpdate>)
    ensures |refs| == |ids| + 1
  {
    seq(|ids|, i requires 0 <= i < |ids| => RefUpdate(NULL_OID, ids[i], seq(i + 1, _ => 97)))
    + [RefUpdate(NULL_OID, c, [])]
  }

  lemma StonesTips(ids: seq<Oid>, c: Oid)
    requires NULL_OID !in ids
    ensures Elems(NewTips(SteppingStones(ids, c)[..|ids|])) == Elems(ids)
    ensures DistinctNames(SteppingStones(ids, c)) && Home(SteppingStones(ids, c), |ids|) == |ids|
  {
    assert forall i :: 0 <= i < |ids| ==> |SteppingStones(ids, c)[i].refname| == i + 1;
    var stones := SteppingStones(ids, c)[..|ids|];
    NewTipsElems(stones);
    forall x ensures x in NewTips(stones) <==> x in ids {
      if x in ids {
        var i :| 0 <= i < |ids| && ids[i] == x;
        assert stones[i].newOid == x;
      }
    }
  }

  /** The answer for a ref that is the first of its name, asked about alone. */
  lemma LoneQuery(b: Basis, i: nat)
    requires i < |b.refs| && Home(b.refs, i) == i
    ensures AllReplies(b, [i]) == [OwnAnswer(b, i)]
  {
    hide OwnAnswer, Replies;
    RepliesAreOwn(b, NoCells(b.refs), [i]);
  }

  /** A cap that neither side of the walk reaches. */
  lemma WideEnough(b: Basis, i: nat)
    requires i < |b.refs| && b.refs[i].newOid != NULL_OID
    requires b.cap >= |ReachSet(b.graph, Elems(b.existing) + Elems(NewTips(b.refs[..i])))|
    requires b.cap >= |ReachSet(b.graph, {b.refs[i].newOid})|
    ensures !OwnAnswer(b, i).TooMany?
  {
    hide ReachSet, Reach, Told;
    var tip, excluding := b.refs[i].newOid, b.existing + NewTips(b.refs[..i]);
    ElemsAppend(b.existing, NewTips(b.refs[..i]));
    assert Elems([tip]) == {tip};
    SubsetSize(ReachSet(b.graph, {tip}) - ReachSet(b.graph, Elems(excluding)), ReachSet(b.graph, {tip}));
    CapIsTold(b.readable, NewWalk(b, i, tip));
  }

  /** Ids that are not stored lead nowhere. */
  lemma MissingLeadNowhere(s: Store, existing: set<Oid>, c: Oid)
    ensures ReachSet(CommitGraph(s), existing + MissingHistory(s, c)) == Ancestors(s, existing) + MissingHistory(s, c)
  {
    hide ReachSet, Reach;
    var g, missing := CommitGraph(s), MissingHistory(s, c);
    ReachUnion(g, existing, missing);
    ReachSetClosed(g, missing);
    ReachInClosed(g, missing, missing);
  }

  /**
    A commit that untouched refs do not reach through commits is reported by some push: one
    that first creates refs at whatever is missing of its history, so that it is excluded.
   */
  lemma NewCommitIsReported(s: Store, existing: seq<Oid>, c: Oid) returns (b: Basis, queries: seq<nat>)
    requires Typed(s) && NoNulls(s) && IsCommit(s, c) && c !in Ancestors(s, Elems(existing))
    ensures Over(s, b) && b.existing == existing && DistinctNames(b.refs)
    ensures InPush(b.refs, queries) && Reported(AllReplies(b, queries), c)
  {
    hide ReachSet, Reach, Replies, Told, KvReachable, OwnAnswer, Typed, NewWalk, SteppingStones, NewTips, Home;
    var g, missing := CommitGraph(s), MissingHistory(s, c);
    NullIsNotMissing(s, c);
    var ids := Listing(missing);
    assert forall x :: x in ids <==> x in Elems(ids);
    var refs, n := SteppingStones(ids, c), |ids|;
    var cap := |ReachSet(g, Elems(existing) + missing)| + |ReachSet(g, {c})|;
    b, queries := Basis(g, StoredCommits(s), refs, existing, cap), [n];
    BackendsRead(s, refs, existing, cap);
    StonesTips(ids, c);
    assert refs[n].newOid == c by { LastStone(ids, c); }
    WideEnough(b, n);
    LoneQuery(b, n);
    AnswerIsBrought(b, n);
    MissingLeadNowhere(s, Elems(existing), c);
    ReachSetClosed(g, {c});
    assert Brings(b, n) == ReachSet(g, {c}) - (Ancestors(s, Elems(existing)) + missing);
    assert Brings(b, n) <= b.readable && c in Brings(b, n);
    assert c in Elems(OwnAnswer(b, n).oids) && c in [OwnAnswer(b, n)][0].oids;
  }

  lemma LastStone(ids: seq<Oid>, c: Oid)
    ensures SteppingStones(ids, c)[|ids|].newOid == c
  {
  }

  /**
    Deduplication against the refs a push leaves alone: it works for every push exactly if every
    commit that a tag among them leads to is also reached through commits.
   */
  lemma NothingOldReportedIff(s: Store, existing: seq<Oid>)
    requires Typed(s) && NoNulls(s)
    ensures NothingOldReported(s, existing) <==> TagsCovered(s, existing)
  {
    hide ReachSet, Reach, Replies, Reported, CommitGraph, Closure, Ancestors, Typed, NoNulls, Over;
    CoveredIff(s, existing);
    if TagsCovered(s, existing) {
      CoveredSuffices(s, existing);
    } else {
      var x :| x in Closure(s, Elems(existing)) && IsCommit(s, x) && x !in Ancestors(s, Elems(existing));
      var b, queries := NewCommitIsReported(s, existing, x);
    }
  }

  /** One half needs nothing about null ids. */
  lemma CoveredSuffices(s: Store, existing: seq<Oid>)
    requires Typed(s) && TagsCovered(s, existing)
    ensures NothingOldReported(s, existing)
  {
    hide ReachSet, Reach, Replies, Reported, CommitGraph, Closure, Ancestors, Typed, Over;
    CoveredIff(s, existing);
    forall b, queries, x |
      Over(s, b) && b.existing == existing && InPush(b.refs, queries) && IsCommit(s, x)
      && Reported(AllReplies(b, queries), x)
      ensures x !in Closure(s, Elems(existing))
    {
      ReportedIsNew(s, b, queries, x);
    }
  }

  /** A listing that gives for every tag what it leads to in the end. */
  ghost predicate AllPeeled(s: Store, snapshot: seq<RefInfo>) {
    forall info :: info in snapshot ==>
      && (forall c :: PeelsTo(s, info.oid, c) ==> info.peeled == Some(c))
      && (info.peeled.Some? && info.peeled.value in s ==> !s[info.peeled.value].Tag?)
  }

  /** A backend that peels tags, as the filesystem one does, never has old commits reported. */
  lemma PeeledIsDeduplicated(s: Store, snapshot: seq<RefInfo>, refs: seq<RefUpdate>, tips: seq<Oid>)
    requires Typed(s) && AllPeeled(s, snapshot)
    requires forall x :: x in tips <==> exists k :: 0 <= k < |snapshot| && Untouched(refs, snapshot[k], x)
    ensures NothingOldReported(s, tips)
  {
    hide Typed, NothingOldReported, ReachSet, Reach;
    forall t, c | t in tips && PeelsTo(s, t, c) ensures c in Ancestors(s, Elems(tips)) {
      var k :| 0 <= k < |snapshot| && Untouched(refs, snapshot[k], t);
      assert snapshot[k] in snapshot && t == snapshot[k].oid;
      assert Untouched(refs, snapshot[k], c);
      assert c in Elems(tips);
      ReachSetClosed(CommitGraph(s), Elems(tips));
    }
    CoveredSuffices(s, tips);
  }

  /** The forge is told of the new commits of the ref at this position, or they are told elsewhere or not new. */
  ghost predicate TipShown(s: Store, b: Basis, i: nat, asked: bool)
    requires i < |b.refs|
  {
    var tip := b.refs[i].newOid;
    tip != NULL_OID && IsCommit(s, tip) && tip !in Closure(s, Elems(b.existing)) ==>
      if asked then Brings(b, i) <= s.Keys else tip in ReachSet(b.graph, Elems(NewTips(b.refs[..i])))
  }

  /** Every commit that a pushed tag leads to is old, or a pushed commit reaches it. */
  ghost predicate TagsShown(s: Store, b: Basis) {
    forall t, c :: t in NewTips(b.refs) && PeelsTo(s, t, c) ==>
      c in Closure(s, Elems(b.existing)) + ReachSet(b.graph, Elems(NewTips(b.refs)))
  }

  /** The refs asked about show the commit. */
  ghost predicate Shown(b: Basis, asked: nat -> bool, x: Oid) {
    exists i :: 0 <= i < |b.refs| && asked(i) && x in Brings(b, i) && Brings(b, i) <= b.readable
  }

  /** If nothing is left out of sight, a new commit is in the histories of the pushed commits. */
  lemma BroughtIsPushed(s: Store, b: Basis, x: Oid)
    requires Typed(s) && Over(s, b) && TagsShown(s, b) && x in BroughtCommits(s, b.refs, b.existing)
    ensures x in ReachSet(b.graph, Elems(NewTips(b.refs))) - ReachSet(b.graph, Elems(b.existing))
  {
    hide ReachSet, Reach, CommitGraph, ObjectGraph, Typed, NewTips, Peeled;
    var tips, old' := Elems(NewTips(b.refs)), Elems(b.existing);
    AncestorsInClosure(s, old');
    ReachedCommits(s, tips, x);
    var p := OnePeeled(s, tips, x);
    ReachSetClosed(ObjectGraph(s), old');
    OldStaysOld(s, old', p, x);
    ReachSetClosed(CommitGraph(s), tips);
    assert p in ReachSet(b.graph, tips) by {
      PeeledFromOne(s, tips, p);
      assert forall t :: t in tips <==> t in NewTips(b.refs);
    }
    ReachInClosed(CommitGraph(s), {p}, ReachSet(b.graph, tips));
  }

  lemma OnePeeled(s: Store, tips: set<Oid>, x: Oid) returns (p: Oid)
    requires x in Ancestors(s, Peeled(s, tips))
    ensures p in Peeled(s, tips) && x in Ancestors(s, {p})
  {
    hide ReachSet, Reach, Peeled;
    ReachFromOne(CommitGraph(s), Peeled(s, tips), x);
    p :| p in Peeled(s, tips) && x in ReachSet(CommitGraph(s), {p});
  }

  /** The history of something old is old. */
  lemma OldStaysOld(s: Store, tips: set<Oid>, p: Oid, x: Oid)
    requires x in Ancestors(s, {p})
    ensures p in Closure(s, tips) ==> x in Closure(s, tips)
  {
    hide ReachSet, Reach;
    if p in Closure(s, tips) {
      AncestorsInClosure(s, {p});
      ReachSetClosed(ObjectGraph(s), tips);
      ReachInClosed(ObjectGraph(s), {p}, Closure(s, tips));
    }
  }

  /** A commit in the history of a tip makes the tip a commit. */
  lemma TipIsCommit(s: Store, tip: Oid, x: Oid)
    requires IsCommit(s, x) && x in Ancestors(s, {tip})
    ensures IsCommit(s, tip)
  {
    hide ReachSet, Reach;
    if !IsCommit(s, tip) { ReachInClosed(CommitGraph(s), {tip}, {tip}); }
  }

  lemma HistoryIsReadable(s: Store, b: Basis, i: nat)
    requires Typed(s) && Over(s, b) && i < |b.refs| && IsCommit(s, b.refs[i].newOid) && Brings(b, i) <= s.Keys
    ensures Brings(b, i) <= b.readable
  {
    hide ReachSet, Reach, CommitGraph, Typed;
    AncestorsAreCommits(s, {b.refs[i].newOid});
  }

  lemma ShownIfConditions(s: Store, b: Basis, asked: nat -> bool, x: Oid)
    requires Typed(s) && Over(s, b) && TagsShown(s, b) && x in BroughtCommits(s, b.refs, b.existing)
    requires forall i :: 0 <= i < |b.refs| ==> TipShown(s, b, i, asked(i))
    ensures Shown(b, asked, x)
  {
    hide ReachSet, Reach, CommitGraph, ObjectGraph, Typed, TagsShown;
    BroughtIsPushed(s, b, x);
    BroughtIsAll(b.graph, b.refs, b.existing, x);
    var i :| 0 <= i < |b.refs| && x in Brought(b.graph, b.refs, b.existing, i);
    var tip := b.refs[i].newOid;
    TipIsCommit(s, tip, x);
    OldStaysOld(s, Elems(b.existing), tip, x);
    assert TipShown(s, b, i, asked(i));
    if asked(i) {
      HistoryIsReadable(s, b, i);
    } else {
      var earlier := Elems(NewTips(b.refs[..i]));
      ReachSetClosed(b.graph, earlier);
      ReachInClosed(b.graph, {tip}, ReachSet(b.graph, earlier));
      ReachUnion(b.graph, Elems(b.existing), earlier);
      assert false;
    }
  }

  lemma TipIsBrought(s: Store, b: Basis, i: nat)
    requires Over(s, b) && i < |b.refs| && b.refs[i].newOid != NULL_OID && IsCommit(s, b.refs[i].newOid)
    requires b.refs[i].newOid !in Closure(s, Elems(b.existing))
    ensures b.refs[i].newOid in BroughtCommits(s, b.refs, b.existing)
    ensures b.refs[i].newOid in Brings(b, i)
      || (Brings(b, i) == {} && b.refs[i].newOid in ReachSet(b.graph, Elems(NewTips(b.refs[..i]))))
  {
    hide ReachSet, Reach, CommitGraph, ObjectGraph;
    var tip, earlier := b.refs[i].newOid, Elems(NewTips(b.refs[..i]));
    NewTipsElems(b.refs);
    ReachSetClosed(ObjectGraph(s), Elems(NewTips(b.refs)));
    assert tip in Elems(NewTips(b.refs));
    AncestorsInClosure(s, Elems(b.existing));
    BringsNothingIff(b.graph, b.refs, b.existing, i);
    ReachUnion(b.graph, Elems(b.existing), earlier);
    ReachSetClosed(b.graph, {tip});
  }

  lemma TipShownIfAll(s: Store, b: Basis, asked: nat -> bool, i: nat)
    requires Over(s, b) && i < |b.refs|
    requires forall x :: x in BroughtCommits(s, b.refs, b.existing) ==> Shown(b, asked, x)
    ensures TipShown(s, b, i, asked(i))
  {
    hide ReachSet, Reach, CommitGraph, ObjectGraph, Brings, Closure, BroughtCommits;
    var tip := b.refs[i].newOid;
    if tip != NULL_OID && IsCommit(s, tip) && tip !in Closure(s, Elems(b.existing)) {
      TipIsBrought(s, b, i);
      if tip in Brings(b, i) {
        var j :| 0 <= j < |b.refs| && asked(j) && tip in Brings(b, j) && Brings(b, j) <= b.readable;
        if j != i { SharedByNone(b, i, j); }
        assert j == i;
      }
    }
  }

  lemma SharedByNone(b: Basis, i: nat, j: nat)
    requires i < |b.refs| && j < |b.refs| && i != j
    ensures Brings(b, i) !! Brings(b, j)
  {
    hide Brought;
    BroughtIsDisjoint(b.graph, b.refs, b.existing, i, j);
  }

  lemma TagsShownIfAll(s: Store, b: Basis, asked: nat -> bool)
    requires Over(s, b)
    requires forall x :: x in BroughtCommits(s, b.refs, b.existing) ==> Shown(b, asked, x)
    ensures TagsShown(s, b)
  {
    hide ReachSet, Reach, CommitGraph, ObjectGraph, TagGraph;
    var tips := Elems(NewTips(b.refs));
    forall t, c | t in NewTips(b.refs) && PeelsTo(s, t, c) && c !in Closure(s, Elems(b.existing))
      ensures c in ReachSet(b.graph, tips)
    {
      PeeledIsReached(s, {t});
      assert t in tips;
      ReachMonotone(ObjectGraph(s), {t}, tips);
      assert c in BroughtCommits(s, b.refs, b.existing);
      var i :| 0 <= i < |b.refs| && c in Brought(b.graph, b.refs, b.existing, i);
      BroughtIsAll(b.graph, b.refs, b.existing, c);
    }
  }

  /** Everything new is shown exactly if every pushed commit and every pushed tag is taken care of. */
  lemma AllShownIff(s: Store, b: Basis, asked: nat -> bool)
    requires Typed(s) && Over(s, b)
    ensures (forall x :: x in BroughtCommits(s, b.refs, b.existing) ==> Shown(b, asked, x)) <==>
      TagsShown(s, b) && forall i :: 0 <= i < |b.refs| ==> TipShown(s, b, i, asked(i))
  {
    hide ReachSet, Reach, CommitGraph, BroughtCommits, TagsShown, TipShown, Shown, Typed, Over;
    if forall x :: x in BroughtCommits(s, b.refs, b.existing) ==> Shown(b, asked, x) {
      TagsShownIfAll(s, b, asked);
      forall i | 0 <= i < |b.refs| ensures TipShown(s, b, i, asked(i)) { TipShownIfAll(s, b, asked, i); }
    } else if TagsShown(s, b) && forall i :: 0 <= i < |b.refs| ==> TipShown(s, b, i, asked(i)) {
      forall x | x in BroughtCommits(s, b.refs, b.existing) ensures Shown(b, asked, x) {
        ShownIfConditions(s, b, asked, x);
      }
    }
  }

  /**
    A forge that asks in the order of the push is told of every commit the push brings exactly
    if: every pushed commit that is new is the first of its name and its new history is all
    stored, or it is of a repeated name and earlier pushed tips reach it; and every commit
    that a pushed tag leads to is old, or pushed commits reach it.
   */
  lemma PushOrderShowsAllIff(s: Store, b: Basis)
    requires Typed(s) && Over(s, b) && NoneCapped(AllReplies(b, PushOrder(b.refs)))
    ensures (forall x :: x in BroughtCommits(s, b.refs, b.existing) ==>
               Reported(AllReplies(b, PushOrder(b.refs)), x))
      <==> TagsShown(s, b) && forall i :: 0 <= i < |b.refs| ==> TipShown(s, b, i, !Repeated(b.refs, i))
  {
    hide ReachSet, Reach, CommitGraph, BroughtCommits, TagsShown, TipShown, Typed, Over, Replies, Brings, Reported;
    var asked: nat -> bool := (i: nat) => i < |b.refs| && !Repeated(b.refs, i);
    forall x ensures Reported(AllReplies(b, PushOrder(b.refs)), x) <==> Shown(b, asked, x) {
      ReportedInOrder(b, asked, x);
    }
    AllShownIff(s, b, asked);
    hide Repeated, Shown;
    forall i | 0 <= i < |b.refs| ensures TipShown(s, b, i, asked(i)) <==> TipShown(s, b, i, !Repeated(b.refs, i)) {
      assert asked(i) == !Repeated(b.refs, i);
    }
  }

  lemma ReportedInOrder(b: Basis, asked: nat -> bool, x: Oid)
    requires NoneCapped(AllReplies(b, PushOrder(b.refs)))
    requires forall i :: 0 <= i < |b.refs| ==> asked(i) == !Repeated(b.refs, i)
    ensures Reported(AllReplies(b, PushOrder(b.refs)), x) <==> Shown(b, asked, x)
  {
    hide Replies, Brings, Reported, Repeated;
    var order := PushOrder(b.refs);
    OrderedHomes(b.refs);
    ReportedIff(b, order, x);
    forall k | 0 <= k < |order| ensures asked(Home(b.refs, order[k])) {
      assert order[k] == k;
    }
    if Shown(b, asked, x) {
      var i :| 0 <= i < |b.refs| && asked(i) && x in Brings(b, i) && Brings(b, i) <= b.readable;
      assert order[i] == i && Home(b.refs, order[i]) == i;
    }
  }

  /**
    Under distinct names, whatever is asked, in whatever order and however often: answers for
    different refs share no commit; nothing is reported that untouched refs reach through
    commits; and once every ref has been asked about, every commit the push brings is reported
    exactly if every pushed commit that is new has its new history stored, and every commit that
    a pushed tag leads to is old or reached from pushed commits.
   */
  lemma AnswersArePartition(s: Store, b: Basis, queries: seq<nat>)
    requires Typed(s) && Over(s, b) && DistinctNames(b.refs) && InPush(b.refs, queries)
    requires NoneCapped(AllReplies(b, queries))
    ensures var replies := AllReplies(b, queries);
      && (forall k, l | 0 <= k < |queries| && 0 <= l < |queries| && queries[k] != queries[l] ::
            replies[k].Commits? && replies[l].Commits? ==> Elems(replies[k].oids) !! Elems(replies[l].oids))
      && (TagsCovered(s, b.existing) ==>
            forall x :: Reported(replies, x) && IsCommit(s, x) ==> x in BroughtCommits(s, b.refs, b.existing))
      && ((forall i :: 0 <= i < |b.refs| ==> i in queries) ==>
            ((forall x :: x in BroughtCommits(s, b.refs, b.existing) ==> Reported(replies, x)) <==>
             TagsShown(s, b) && forall i :: 0 <= i < |b.refs| ==> TipShown(s, b, i, true)))
  {
    hide ReachSet, Reach, CommitGraph, BroughtCommits, TagsShown, TipShown, Typed, Over, Replies, Brings, TagsCovered;
    DistinctHomes(b.refs, queries);
    forall k, l | 0 <= k < |queries| && 0 <= l < |queries| && queries[k] != queries[l]
      && AllReplies(b, queries)[k].Commits? && AllReplies(b, queries)[l].Commits?
      ensures Elems(AllReplies(b, queries)[k].oids) !! Elems(AllReplies(b, queries)[l].oids)
    {
      AnswersAreDisjoint(b, queries, k, l);
    }
    hide Reported;
    if TagsCovered(s, b.existing) {
      forall x | Reported(AllReplies(b, queries), x) && IsCommit(s, x)
        ensures x in BroughtCommits(s, b.refs, b.existing)
      {
        ReportedIsBrought(s, b, queries, x);
      }
    }
    if forall i :: 0 <= i < |b.refs| ==> i in queries {
      var asked: nat -> bool := _ => true;
      forall x ensures Reported(AllReplies(b, queries), x) <==> Shown(b, asked, x) {
        ReportedIff(b, queries, x);
        assert forall k :: 0 <= k < |queries| ==> asked(Home(b.refs, queries[k]));
        if Shown(b, asked, x) {
          var i :| 0 <= i < |b.refs| && asked(i) && x in Brings(b, i) && Brings(b, i) <= b.readable;
          assert i in queries;
          var k :| 0 <= k < |queries| && queries[k] == i;
          assert Home(b.refs, queries[k]) == i;
        }
      }
      AllShownIff(s, b, asked);
      assert forall i :: 0 <= i < |b.refs| ==> TipShown(s, b, i, asked(i)) == TipShown(s, b, i, true);
    }
  }

  lemma AnswersAreDisjoint(b: Basis, queries: seq<nat>, k: nat, l: nat)
    requires DistinctNames(b.refs) && InPush(b.refs, queries) && NoneCapped(AllReplies(b, queries))
    requires k < |queries| && l < |queries| && queries[k] != queries[l]
    requires AllReplies(b, queries)[k].Commits? && AllReplies(b, queries)[l].Commits?
    ensures Elems(AllReplies(b, queries)[k].oids) !! Elems(AllReplies(b, queries)[l].oids)
  {
    hide Replies, NewWalk, Told, Brings;
    DistinctHomes(b.refs, queries);
    RepliesAreOwn(b, NoCells(b.refs), queries);
    AnswerIsBrought(b, queries[k]);
    AnswerIsBrought(b, queries[l]);
    SharedByNone(b, queries[k], queries[l]);
  }

  lemma ReportedIsBrought(s: Store, b: Basis, queries: seq<nat>, x: Oid)
    requires Typed(s) && Over(s, b) && DistinctNames(b.refs) && InPush(b.refs, queries)
    requires NoneCapped(AllReplies(b, queries)) && TagsCovered(s, b.existing)
    requires Reported(AllReplies(b, queries), x) && IsCommit(s, x)
    ensures x in BroughtCommits(s, b.refs, b.existing)
  {
    hide ReachSet, Reach, CommitGraph, ObjectGraph, Typed, Replies, Reported, TagsCovered;
    DistinctHomes(b.refs, queries);
    ReportedIff(b, queries, x);
    var k :| 0 <= k < |queries| && x in Brings(b, Home(b.refs, queries[k]));
    BroughtIsAll(b.graph, b.refs, b.existing, x);
    AncestorsInClosure(s, Elems(NewTips(b.refs)));
    CoveredIff(s, b.existing);
  }

  /** A pushed tag: its answer is an error, and the commits it brings are not reported. */
  lemma PushedTagHidesItsCommit(s: Store, readable: set<Oid>, tag: Oid, c: Oid, name: Bytes, cap: nat)
    requires Typed(s) && PeelsTo(s, tag, c) && tag != NULL_OID && cap >= 1
    requires Over(s, Basis(CommitGraph(s), readable, [RefUpdate(NULL_OID, tag, name)], [], cap))
    ensures var refs := [RefUpdate(NULL_OID, tag, name)];
      var replies := AllReplies(Basis(CommitGraph(s), readable, refs, [], cap), [0]);
      replies == [Unreadable(tag)] && c in BroughtCommits(s, refs, []) && !Reported(replies, c)
  {
    hide Reach, ReachSet, Replies, KvReachable, Told, Peeled;
    var refs, g := [RefUpdate(NULL_OID, tag, name)], CommitGraph(s);
    var b := Basis(g, readable, refs, [], cap);
    ReachNothing(g);
    NoneReached(s);
    ReachSetClosed(g, {tag});
    ReachInClosed(g, {tag}, {tag});
    assert ReachSet(g, {tag}) == {tag};
    OneTip(refs[0]);
    PeeledIsReached(s, {tag});
    LoneWalkIsListed(b, refs[0]);
    OneReply(b);
    LoneTagAnswer(b, tag);
    assert c in Peeled(s, {tag}) && IsCommit(s, c) by { PeeledFromOne(s, {tag}, c); }
  }

  lemma OneTip(ref: RefUpdate)
    requires ref.newOid != NULL_OID
    ensures NewTips([ref]) == [ref.newOid] && Elems([ref.newOid]) == {ref.newOid}
  {
    assert [ref][..0] == [];
  }

  /** A tip that is not readable and has no parents is the whole answer. */
  lemma LoneTagAnswer(b: Basis, tip: Oid)
    requires |b.refs| == 1 && b.refs[0].newOid == tip && tip != NULL_OID && b.existing == [] && tip !in b.readable
    requires ReachSet(b.graph, {tip}) == {tip} && !OwnAnswer(b, 0).TooMany?
    ensures OwnAnswer(b, 0) == Unreadable(tip)
  {
    hide Reach, ReachSet, KvReachable;
    LoneRefBringsAll(b.graph, b.refs[0]);
    assert b.refs == [b.refs[0]];
    var walk := NewWalk(b, 0, tip);
    assert walk.Listed?;
    AnswerIsBrought(b, 0);
    NoTips(b.refs);
    WalkElems(b.graph, [tip], b.existing + NewTips(b.refs[..0]), b.cap);
    ReachNothing(b.graph);
    assert Elems([tip]) == {tip} && b.existing + NewTips(b.refs[..0]) == [];
    DistinctLength(walk.oids);
    assert walk.oids[0] in Elems(walk.oids);
  }

  /** There is such a push: a tag of a commit, with that commit. */
  lemma TagOfCommit(tag: Oid, commit: Oid, tree: Oid)
    requires tag != commit && commit != tree && tag != tree
    ensures var s: Store := map[tag := Tag(commit), commit := Commit(tree, []), tree := Tree([])];
      && Typed(s) && Complete(s) && PeelsTo(s, tag, commit) && commit !in Ancestors(s, {tag})
      && (NULL_OID !in s ==> NoNulls(s))
  {
    hide Reach, ReachSet;
    var s: Store := map[tag := Tag(commit), commit := Commit(tree, []), tree := Tree([])];
    ReachSetClosed(TagGraph(s), {tag});
    assert commit in Succ(TagGraph(s), tag);
    ReachInClosed(CommitGraph(s), {tag}, {tag});
  }

  /** A tag left alone: some push reports its commit as new, if no ref reaches that through commits. */
  lemma UnpeeledTagRepeatsItsCommit(s: Store, tag: Oid, c: Oid) returns (b: Basis, queries: seq<nat>)
    requires Typed(s) && NoNulls(s) && PeelsTo(s, tag, c) && c !in Ancestors(s, {tag})
    ensures Over(s, b) && b.existing == [tag] && DistinctNames(b.refs) && InPush(b.refs, queries)
    ensures Reported(AllReplies(b, queries), c) && c in Closure(s, Elems([tag]))
  {
    hide Reach, ReachSet, Replies, Reported, NoNulls;
    assert Elems([tag]) == {tag};
    PeeledIsReached(s, {tag});
    PeeledFromOne(s, {tag}, c);
    b, queries := NewCommitIsReported(s, [tag], c);
  }

  /** A new tip that is shown as a commit and is none: it reads as one, and nothing excludes it. */
  ghost predicate PassesForCommit(s: Store, b: Basis, i: nat)
    requires i < |b.refs|
  {
    var tip := b.refs[i].newOid;
    && tip != NULL_OID && tip in b.readable && !IsCommit(s, tip)
    && tip !in ReachSet(b.graph, Elems(b.existing) + Elems(NewTips(b.refs[..i])))
  }

  /** What a tip that is no commit adds is at most itself. */
  lemma NonCommitBrings(s: Store, b: Basis, i: nat)
    requires Over(s, b) && i < |b.refs| && !IsCommit(s, b.refs[i].newOid)
    ensures Brings(b, i) <= {b.refs[i].newOid}
    ensures PassesForCommit(s, b, i) ==> Brings(b, i) == {b.refs[i].newOid}
    ensures Brings(b, i) != {} && Brings(b, i) <= b.readable ==> PassesForCommit(s, b, i)
  {
    hide ReachSet, Reach;
    var tip := b.refs[i].newOid;
    ReachSetClosed(b.graph, {tip});
    ReachInClosed(b.graph, {tip}, {tip});
  }

  lemma CommitBrings(s: Store, b: Basis, i: nat, x: Oid)
    requires Typed(s) && Over(s, b) && i < |b.refs| && IsCommit(s, b.refs[i].newOid)
    requires x in Brings(b, i) && x in b.readable
    ensures IsCommit(s, x)
  {
    hide ReachSet, Reach, CommitGraph, Typed;
    AncestorsAreCommits(s, {b.refs[i].newOid});
  }

  /**
    Asked in the order of the push, a forge is shown nothing but commits exactly if no first ref
    of its name has a new tip that reads as a commit, is none, and is not excluded.
   */
  lemma OnlyCommitsShownIff(s: Store, b: Basis)
    requires Typed(s) && Over(s, b) && NoneCapped(AllReplies(b, PushOrder(b.refs)))
    ensures (forall x :: Reported(AllReplies(b, PushOrder(b.refs)), x) ==> IsCommit(s, x)) <==>
      forall i :: 0 <= i < |b.refs| && !Repeated(b.refs, i) ==> !PassesForCommit(s, b, i)
  {
    hide ReachSet, Reach, CommitGraph, Typed, Over, Replies, Brings, Reported, Repeated, PassesForCommit;
    var asked: nat -> bool := (i: nat) => i < |b.refs| && !Repeated(b.refs, i);
    forall x ensures Reported(AllReplies(b, PushOrder(b.refs)), x) <==> Shown(b, asked, x) {
      ReportedInOrder(b, asked, x);
    }
    forall i | 0 <= i < |b.refs| && asked(i) && PassesForCommit(s, b, i)
      ensures Shown(b, asked, b.refs[i].newOid) && !IsCommit(s, b.refs[i].newOid)
    {
      PassesIsReadable(s, b, i);
      NonCommitBrings(s, b, i);
    }
    forall x | Shown(b, asked, x) && !IsCommit(s, x)
      ensures exists i :: 0 <= i < |b.refs| && asked(i) && PassesForCommit(s, b, i)
    {
      var i :| 0 <= i < |b.refs| && asked(i) && x in Brings(b, i) && Brings(b, i) <= b.readable;
      if IsCommit(s, b.refs[i].newOid) { CommitBrings(s, b, i, x); }
      NonCommitBrings(s, b, i);
    }
  }

  lemma PassesIsReadable(s: Store, b: Basis, i: nat)
    requires i < |b.refs| && PassesForCommit(s, b, i)
    ensures b.refs[i].newOid in b.readable && !IsCommit(s, b.refs[i].newOid)
  {
  }

  /** A ref at a blob that holds the text of a commit: the KV backend shows it as a commit, the others refuse. */
  lemma BlobIsShownAsCommit(s: Store, blob: Oid, name: Bytes, cap: nat)
    requires blob in s && s[blob].Blob? && s[blob].shape.Some? && blob != NULL_OID && cap >= 1
    ensures var refs, g := [RefUpdate(NULL_OID, blob, name)], CommitGraph(s);
      && Reported(AllReplies(Basis(g, CommitShaped(s), refs, [], cap), [0]), blob)
      && AllReplies(Basis(g, StoredCommits(s), refs, [], cap), [0]) == [Unreadable(blob)]
  {
    hide Reach, ReachSet, Replies, KvReachable, Told;
    var refs, g := [RefUpdate(NULL_OID, blob, name)], CommitGraph(s);
    var kv, sql := Basis(g, CommitShaped(s), refs, [], cap), Basis(g, StoredCommits(s), refs, [], cap);
    ReachNothing(g);
    ReachSetClosed(g, {blob});
    ReachInClosed(g, {blob}, {blob});
    assert ReachSet(g, {blob}) == {blob};
    LoneWalkIsListed(kv, refs[0]);
    LoneWalkIsListed(sql, refs[0]);
    OneReply(kv);
    OneReply(sql);
    LoneTagAnswer(sql, blob);
    LoneRefBringsAll(g, refs[0]);
    AnswerIsBrought(kv, 0);
    assert blob in Elems(OwnAnswer(kv, 0).oids) && blob in [OwnAnswer(kv, 0)][0].oids;
  }
}
