/**
  What a client is left with after a fetch with a depth or a filter.
 */
module ShallowFetch {
  import opened ObjectIds
  import opened Wrappers
  import opened Sequences
  import opened Graphs
  import opened BreadthFirst
  import opened ObjectStore
  import opened Selection
  import opened DepthLimited
  import opened PackSelection

  /** A reference that the options of the request, or a direct want, leave open. */
  ghost predicate LeftOpen(
      s: Store, want: seq<Oid>, have: seq<Oid>, deepen: Option<nat>, filter: Filter, x: Oid, y: Oid)
  {
    || x in DirectWants(s, want)
    || (deepen.Some? && y in Succ(CommitGraph(s), x)
        && AtBoundary(CommitGraph(s), Elems(CommitWants(s, want)), Elems(have), Levels(deepen.value), x))
    || (filter.TreeNone? && IsCommit(s, x) && y == s[x].tree)
    || (filter.BlobNone? && IsTree(s, x) && exists e :: e in s[x].entries && e.oid == y && !e.isTree)
  }

  /** The parent of a listed commit is listed or had, unless the commit is on the boundary. */
  lemma ParentIsSent(s: Store, want: seq<Oid>, have: seq<Oid>, deepen: Option<nat>, x: Oid, y: Oid)
    requires Typed(s) && x in CommitsFor(s, want, have, deepen) && y in Succ(CommitGraph(s), x)
    requires deepen.Some? ==>
      !AtBoundary(CommitGraph(s), Elems(CommitWants(s, want)), Elems(have), Levels(deepen.value), x)
    ensures y in CommitsFor(s, want, have, deepen) || y in Closure(s, Elems(have))
  {
    hide ReachSet, Reach, CommitGraph, ObjectGraph, CommitWants, Typed, AtBoundary, Elems;
    var g, tips := CommitGraph(s), Elems(CommitWants(s, want));
    AncestorsInClosure(s, Elems(have));
    ReachSetClosed(ObjectGraph(s), Elems(have));
    match deepen
    case None =>
      ReachSetClosed(g, tips);
    case Some(depth) =>
      DepthCommits(s, want, have, depth);
      hide Near, CommitsFor;
      ParentsAreNear(g, tips, Elems(have), Levels(depth), x, y);
  }

  lemma ListedAreCommits(s: Store, want: seq<Oid>, have: seq<Oid>, deepen: Option<nat>)
    requires Typed(s)
    ensures CommitsOnly(s, CommitsFor(s, want, have, deepen))
  {
    hide ReachSet, Reach, CommitGraph, CommitWants, Typed, Near;
    WantsSplit(s, want);
    match deepen
    case None => AncestorsAreCommits(s, Elems(CommitWants(s, want)));
    case Some(depth) => DepthCommits(s, want, have, depth);
  }

  /** An entry of a tree that was walked is met, unless it is a blob and blobs are left out. */
  lemma EntryIsMet(s: Store, cut: set<Oid>, roots: set<Oid>, skipBlobs: bool, x: Oid, y: Oid)
    requires x in ReachSet(TreeGraph(s, skipBlobs) - cut, roots) && x !in cut && IsTree(s, x)
    requires y in Succ(ObjectGraph(s), x)
    ensures y in ReachSet(TreeGraph(s, skipBlobs) - cut, roots)
      || (skipBlobs && exists e :: e in s[x].entries && e.oid == y && !e.isTree)
  {
    hide ReachSet, Reach;
    var entries := s[x].entries;
    EntryOidsElems(entries, false);
    EntryOidsElems(entries, skipBlobs);
    assert y in Elems(EntryOids(entries, false));
    var e :| e in entries && e.oid == y;
    ReachSetClosed(TreeGraph(s, skipBlobs) - cut, roots);
    if e.isTree || !skipBlobs {
      assert y in Elems(EntryOids(entries, skipBlobs));
      assert y in Succ(TreeGraph(s, skipBlobs) - cut, x);
    }
  }

  lemma WalkedAreLeafy(s: Store, commits: set<Oid>, cut: set<Oid>, skipBlobs: bool)
    requires Typed(s)
    ensures forall x :: x in ReachSet(TreeGraph(s, skipBlobs) - cut, Roots(s, commits)) ==> Leafy(s, x)
  {
    hide ReachSet, Reach, Typed, Roots, Leafy;
    RootsLeafy(s, commits);
    forall x, y | y in Succ(TreeGraph(s, skipBlobs) - cut, x) ensures y in Succ(TreeGraph(s, false), x) {
      EntryOidsElems(s[x].entries, skipBlobs);
      EntryOidsElems(s[x].entries, false);
      assert y in Elems(EntryOids(s[x].entries, skipBlobs)) && y in Elems(EntryOids(s[x].entries, false));
    }
    TreeWalkLeafy(s, TreeGraph(s, skipBlobs) - cut, Roots(s, commits));
  }

  /** A selection's trees and root trees lead nowhere else. */
  lemma SelectionHoldsTogether(
      s: Store, commits: set<Oid>, direct: set<Oid>, have: set<Oid>, skipBlobs: bool, x: Oid, y: Oid)
    requires Typed(s) && CommitsOnly(s, commits)
    requires x in Selected(s, commits, direct, have, skipBlobs) - direct && y in Succ(ObjectGraph(s), x)
    ensures y in Selected(s, commits, direct, have, skipBlobs) + have
      || (x in commits && y in Succ(CommitGraph(s), x))
      || (skipBlobs && IsTree(s, x) && exists e :: e in s[x].entries && e.oid == y && !e.isTree)
  {
    hide ReachSet, Reach, Typed, TreeGraph, CommitGraph, ObjectGraph;
    var cut := direct + have;
    ReachSetClosed(TreeGraph(s, skipBlobs) - cut, Roots(s, commits));
    WalkedAreLeafy(s, commits, cut, skipBlobs);
    ObjectSucc(s, x);
    if x in commits {
      if IsCommit(s, x) && y == s[x].tree { assert y in Roots(s, commits); }
    } else {
      assert IsTree(s, x) by { TreeSuccIfAny(s, x, y); }
      EntryIsMet(s, cut, Roots(s, commits), skipBlobs, x, y);
    }
  }

  lemma TreeSuccIfAny(s: Store, x: Oid, y: Oid)
    requires Leafy(s, x) && y in Succ(ObjectGraph(s), x)
    ensures IsTree(s, x)
  {
  }

  /**
    Whatever is asked for, every reference of a sent object leads to one that is sent or had,
    except those that the depth, the filter or a direct want leaves open.
   */
  lemma OnlyOptionsLeaveOpen(
      s: Store, want: seq<Oid>, have: seq<Oid>, deepen: Option<nat>, filter: Filter, x: Oid, y: Oid)
    requires Typed(s) && y in Succ(ObjectGraph(s), x)
    requires var h := Closure(s, Elems(have));
      x in Filtered(s, CommitsFor(s, want, have, deepen), DirectWants(s, want), h, filter)
    ensures var h := Closure(s, Elems(have));
      y in Filtered(s, CommitsFor(s, want, have, deepen), DirectWants(s, want), h, filter) + h
      || LeftOpen(s, want, have, deepen, filter, x, y)
  {
    hide ReachSet, Reach, Typed, CommitGraph, ObjectGraph, CommitWants, DirectWants, CommitsFor, AtBoundary;
    hide Elems, Closure;
    var commits, direct, h := CommitsFor(s, want, have, deepen), DirectWants(s, want), Closure(s, Elems(have));
    ListedAreCommits(s, want, have, deepen);
    if !LeftOpen(s, want, have, deepen, filter, x, y) {
      if x in commits && y in Succ(CommitGraph(s), x) {
        ParentIsSent(s, want, have, deepen, x, y);
      } else if filter.TreeNone? {
        ObjectSucc(s, x);
      } else {
        SelectionHoldsTogether(s, commits, direct, h, filter.BlobNone?, x, y);
      }
    }
  }

  /** A parent of a boundary commit is sent exactly if it is not had and is nearer than one level below. */
  lemma BoundaryParentIsSentIff(g: Graph, want: set<Oid>, have: set<Oid>, k: nat, x: Oid, y: Oid)
    requires AtBoundary(g, want, have, k, x) && y in Succ(g, x)
    ensures Near(g, want, have, k, y) <==> y !in have && !IsDistance(g - have, want, y, k)
  {
    assert y in Succ(g - have, x);
    assert Steps(g - have, want, y, k);
  }

  /** With depth one, exactly if it is itself wanted and not had. */
  lemma DepthOneParentIsSentIff(g: Graph, want: set<Oid>, have: set<Oid>, y: Oid)
    ensures Near(g, want, have, 1, y) <==> y in want - have
  {
    assert forall n: nat :: n < 1 && Steps(g - have, want, y, n) ==> n == 0;
    assert Steps(g - have, want, y, 0) <==> y in want;
  }

  /** A commit and its parent, both wanted with depth one: the commit is listed as cut off and its parent is sent. */
  lemma ListedButNotCut(child: Oid, parent: Oid)
    requires child != parent
    ensures var g: Graph := map[child := [parent], parent := []];
      AtBoundary(g, {child, parent}, {}, 1, child) && Near(g, {child, parent}, {}, 1, parent)
  {
    var g: Graph := map[child := [parent], parent := []];
    DepthOneParentIsSentIff(g, {child, parent}, {}, parent);
    assert Steps(g - {}, {child, parent}, child, 0);
  }

  /** The commits a request lists, by edges between commits. */
  lemma ListedCommits(s: Store, want: seq<Oid>, have: seq<Oid>, deepen: Option<nat>, x: Oid)
    requires Typed(s)
    ensures var g, h := CommitGraph(s), Elems(have);
      var tips := set w | w in want && (w in s ==> s[w].Commit?);
      match deepen
      case None => x in CommitsFor(s, want, have, deepen) <==> Reach(g, tips, x) && !Reach(g, h, x)
      case Some(depth) =>
        if depth == 0 then x in CommitsFor(s, want, have, deepen) <==> x in tips - h
        else x in CommitsFor(s, want, have, deepen) <==>
          x !in h && exists n: nat :: n < depth && Steps(g - h, tips, x, n)
  {
    hide CommitWants, CommitGraph, Typed, Steps, Near;
    WantsSplit(s, want);
    var tips := set w | w in want && (w in s ==> s[w].Commit?);
    assert tips == Elems(CommitWants(s, want));
    if deepen.Some? {
      DepthCommits(s, want, have, deepen.value);
      DepthInEdges(CommitGraph(s), tips, Elems(have), deepen.value, x);
    }
  }

  /**
    `x` lies `n` tree entries below one of the roots, on a path that goes on from no id of
    `around`; with `skipBlobs`, on entries that are trees.
   */
  ghost predicate Below(s: Store, around: set<Oid>, roots: set<Oid>, skipBlobs: bool, x: Oid, n: nat)
    decreases n
  {
    if n == 0 then x in roots
    else exists t: Oid :: Below(s, around, roots, skipBlobs, t, n - 1) && t !in around && HasEntry(s, t, skipBlobs, x)
  }

  ghost predicate HasEntry(s: Store, t: Oid, skipBlobs: bool, x: Oid) {
    t in s && s[t].Tree? && exists e :: e in s[t].entries && e.oid == x && (skipBlobs ==> e.isTree)
  }

  ghost predicate MetBelow(s: Store, around: set<Oid>, roots: set<Oid>, skipBlobs: bool, x: Oid) {
    exists n: nat :: Below(s, around, roots, skipBlobs, x, n)
  }

  lemma EntryEdges(s: Store, around: set<Oid>, skipBlobs: bool, t: Oid, x: Oid)
    ensures x in Succ(TreeGraph(s, skipBlobs) - around, t) <==> t !in around && HasEntry(s, t, skipBlobs, x)
  {
    if IsTree(s, t) {
      EntryOidsElems(s[t].entries, skipBlobs);
      assert x in EntryOids(s[t].entries, skipBlobs) <==> x in Elems(EntryOids(s[t].entries, skipBlobs));
    }
  }

  lemma {:induction false} BelowIsSteps(
      s: Store, around: set<Oid>, roots: set<Oid>, skipBlobs: bool, x: Oid, n: nat)
    ensures Below(s, around, roots, skipBlobs, x, n) <==> Steps(TreeGraph(s, skipBlobs) - around, roots, x, n)
    decreases n
  {
    hide TreeGraph, HasEntry, Succ;
    if n > 0 {
      var g := TreeGraph(s, skipBlobs) - around;
      forall t: Oid
        ensures Below(s, around, roots, skipBlobs, t, n - 1) <==> Steps(g, roots, t, n - 1)
        ensures x in Succ(g, t) <==> t !in around && HasEntry(s, t, skipBlobs, x)
      {
        BelowIsSteps(s, around, roots, skipBlobs, t, n - 1);
        EntryEdges(s, around, skipBlobs, t, x);
      }
    }
  }

  lemma BelowIsReached(s: Store, around: set<Oid>, roots: set<Oid>, skipBlobs: bool, x: Oid)
    ensures x in ReachSet(TreeGraph(s, skipBlobs) - around, roots) <==> MetBelow(s, around, roots, skipBlobs, x)
  {
    hide TreeGraph;
    var g := TreeGraph(s, skipBlobs) - around;
    if Reach(g, roots, x) {
      var n: nat :| Steps(g, roots, x, n);
      BelowIsSteps(s, around, roots, skipBlobs, x, n);
    }
    if MetBelow(s, around, roots, skipBlobs, x) {
      var n: nat :| Below(s, around, roots, skipBlobs, x, n);
      BelowIsSteps(s, around, roots, skipBlobs, x, n);
    }
  }

  /** What the client has is closed under tree entries, with or without blobs. */
  lemma HadEntries(s: Store, around: set<Oid>, skipBlobs: bool, tips: set<Oid>)
    ensures Closed(TreeGraph(s, skipBlobs) - around, Closure(s, tips))
  {
    hide ReachSet, Reach, TreeGraph, ObjectGraph;
    ReachSetClosed(ObjectGraph(s), tips);
    forall x, y | x in Closure(s, tips) && y in Succ(TreeGraph(s, skipBlobs) - around, x)
      ensures y in Closure(s, tips)
    {
      EntryEdges(s, around, skipBlobs, x, y);
      EntryEdges(s, {}, false, x, y);
      assert TreeGraph(s, false) - {} == TreeGraph(s, false);
      ObjectSucc(s, x);
    }
  }

  /**
    Exactly what is sent, for every depth and filter: the stored non-commits that are wanted, the
    listed commits, and, unless trees are left out, whatever lies below the root trees of these
    commits around the direct wants and is not had; without blobs, on tree entries only.
   */
  lemma PackIsExact(s: Store, want: seq<Oid>, have: seq<Oid>, deepen: Option<nat>, filter: Filter, x: Oid)
    ensures var commits, h := CommitsFor(s, want, have, deepen), Closure(s, Elems(have));
      var direct := set w | w in want && w in s && !s[w].Commit?;
      var roots := set c | c in commits && c in s && s[c].Commit? :: s[c].tree;
      x in Filtered(s, commits, DirectWants(s, want), h, filter) <==>
        || x in direct
        || x in commits
        || (!filter.TreeNone? && x !in h && MetBelow(s, direct, roots, filter.BlobNone?, x))
  {
    hide ReachSet, Reach, TreeGraph, CommitsFor, Closure, MetBelow;
    var commits, h := CommitsFor(s, want, have, deepen), Closure(s, Elems(have));
    var direct := DirectWants(s, want);
    if !filter.TreeNone? {
      var g := TreeGraph(s, filter.BlobNone?);
      HadEntries(s, direct, filter.BlobNone?, Elems(have));
      PruningLosesNothing(g - direct, Roots(s, commits), h);
      assert (g - direct) - h == g - (direct + h);
      BelowIsReached(s, direct, Roots(s, commits), filter.BlobNone?, x);
      var pruned, whole := ReachSet(g - (direct + h), Roots(s, commits)), ReachSet(g - direct, Roots(s, commits));
      assert x in pruned - h <==> x in whole - h;
      assert Roots(s, commits) == set c | c in commits && c in s && s[c].Commit? :: s[c].tree;
    }
  }
}
