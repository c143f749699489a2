/**
  Depth and filter: the KV backend takes them and uses neither.  When that does no harm, and
  requests where it does.
 */
module KvOptions {
  import opened ObjectIds
  import opened Wrappers
  import opened Sequences
  import opened Graphs
  import opened ObjectStore
  import opened Selection
  import opened DepthLimited
  import opened PackSelection
  import opened KvBuildPack

  /** The trees that a walk for these commits meets when it leaves blobs out. */
  ghost function WalkedTrees(s: Store, commits: set<Oid>, have: set<Oid>): set<Oid> {
    ReachSet(TreeGraph(s, true) - have, Roots(s, commits))
  }

  /** Every blob of a tree that is sent would be sent or had without the filter being there. */
  ghost predicate NoBlobOmitted(s: Store, commits: set<Oid>, have: set<Oid>) {
    forall x, e :: x in WalkedTrees(s, commits, have) - have && IsTree(s, x) && e in s[x].entries && !e.isTree ==>
      e.oid in have + WalkedTrees(s, commits, have)
  }

  /** The filter leaves nothing out of the pack for these commits. */
  ghost predicate FilterIsIdle(s: Store, commits: set<Oid>, have: set<Oid>, filter: Filter) {
    match filter
    case NoFilter => true
    case TreeNone => Roots(s, commits) <= have
    case BlobNone => NoBlobOmitted(s, commits, have)
  }

  /** Edges of the two tree graphs, by the entry they come from. */
  lemma TreeEdges(s: Store, have: set<Oid>, x: Oid, y: Oid)
    ensures y in Succ(TreeGraph(s, true) - have, x) <==>
      x !in have && IsTree(s, x) && exists e :: e in s[x].entries && e.oid == y && e.isTree
    ensures y in Succ(TreeGraph(s, false) - have, x) <==>
      x !in have && IsTree(s, x) && exists e :: e in s[x].entries && e.oid == y
  {
    if IsTree(s, x) {
      EntryOidsElems(s[x].entries, true);
      EntryOidsElems(s[x].entries, false);
      assert y in EntryOids(s[x].entries, true) <==> y in Elems(EntryOids(s[x].entries, true));
      assert y in EntryOids(s[x].entries, false) <==> y in Elems(EntryOids(s[x].entries, false));
    }
  }

  /** Leaving blobs out never adds a tree. */
  lemma FilteredWalkIsPart(s: Store, commits: set<Oid>, have: set<Oid>)
    ensures WalkedTrees(s, commits, have) <= ReachSet(TreeGraph(s, false) - have, Roots(s, commits))
  {
    hide ReachSet, Reach, TreeGraph, IsTree;
    var all := ReachSet(TreeGraph(s, false) - have, Roots(s, commits));
    ReachSetClosed(TreeGraph(s, false) - have, Roots(s, commits));
    forall x, y | x in all && y in Succ(TreeGraph(s, true) - have, x) ensures y in all {
      TreeEdges(s, have, x, y);
    }
    ReachInClosed(TreeGraph(s, true) - have, Roots(s, commits), all);
  }

  /** The two walks meet the same outside the have-set exactly if no blob is omitted. */
  lemma BlobsOmittedIff(s: Store, commits: set<Oid>, have: set<Oid>)
    ensures ReachSet(TreeGraph(s, false) - have, Roots(s, commits)) - have == WalkedTrees(s, commits, have) - have
      <==> NoBlobOmitted(s, commits, have)
  {
    hide ReachSet, Reach, TreeGraph;
    var all, part := ReachSet(TreeGraph(s, false) - have, Roots(s, commits)), WalkedTrees(s, commits, have);
    FilteredWalkIsPart(s, commits, have);
    ReachSetClosed(TreeGraph(s, false) - have, Roots(s, commits));
    ReachSetClosed(TreeGraph(s, true) - have, Roots(s, commits));
    if NoBlobOmitted(s, commits, have) {
      forall x, y | x in have + part && y in Succ(TreeGraph(s, false) - have, x) ensures y in have + part {
        TreeEdges(s, have, x, y);
      }
      ReachInClosed(TreeGraph(s, false) - have, Roots(s, commits), have + part);
    } else {
      var x, e :| x in part - have && IsTree(s, x) && e in s[x].entries && !e.isTree && e.oid !in have + part;
      TreeEdges(s, have, x, e.oid);
      assert e.oid in all - have;
    }
  }

  /** What a tree walk for stored commits adds is never a commit that is stored. */
  lemma TreesAreNoCommits(s: Store, commits: set<Oid>, have: set<Oid>, skipBlobs: bool)
    requires Typed(s)
    ensures forall x :: x in ReachSet(TreeGraph(s, skipBlobs) - have, Roots(s, commits)) ==> !IsCommit(s, x)
  {
    hide ReachSet, Reach, TreeGraph, Typed, Roots, IsTree;
    RootsLeafy(s, commits);
    var all := ReachSet(TreeGraph(s, false) - have, Roots(s, commits));
    forall x, y | y in Succ(TreeGraph(s, false) - have, x) ensures y in Succ(TreeGraph(s, false), x) {
      CutSucc(s, false, have, x);
    }
    TreeWalkLeafy(s, TreeGraph(s, false) - have, Roots(s, commits));
    FilteredWalkIsPart(s, commits, have);
    assert forall x :: x in all ==> !IsCommit(s, x);
  }

  /** Root trees that the client has stop the walk at once. */
  lemma RootsHadIff(s: Store, commits: set<Oid>, have: set<Oid>)
    ensures ReachSet(TreeGraph(s, false) - have, Roots(s, commits)) <= have <==> Roots(s, commits) <= have
  {
    hide ReachSet, Reach, TreeGraph, Roots;
    var g := TreeGraph(s, false) - have;
    ReachSetClosed(g, Roots(s, commits));
    if Roots(s, commits) <= have {
      ReachInClosed(g, Roots(s, commits), have);
    }
  }

  /** A filter changes nothing about a list of stored commits exactly if it is idle. */
  lemma FilterIdleIff(s: Store, commits: set<Oid>, have: set<Oid>, filter: Filter)
    requires Typed(s) && commits <= s.Keys && CommitsOnly(s, commits)
    ensures Filtered(s, commits, {}, have, filter) == Filtered(s, commits, {}, have, NoFilter)
      <==> FilterIsIdle(s, commits, have, filter)
  {
    hide ReachSet, Reach, TreeGraph, Typed, Roots;
    assert {} + have == have;
    TreesAreNoCommits(s, commits, have, false);
    TreesAreNoCommits(s, commits, have, true);
    BlobsOmittedIff(s, commits, have);
    RootsHadIff(s, commits, have);
    var all := ReachSet(TreeGraph(s, false) - have, Roots(s, commits)) - have;
    var part := WalkedTrees(s, commits, have) - have;
    assert commits !! all && commits !! part;
    match filter
    case NoFilter =>
    case TreeNone => assert commits + all == commits <==> all == {};
    case BlobNone => assert commits + all == commits + part <==> all == part;
  }

  /** The commits of a depth-limited request are reached from its wants. */
  lemma DepthListsAncestors(s: Store, want: seq<Oid>, have: seq<Oid>, deepen: Option<nat>)
    requires CommitsOnly(s, Elems(want))
    ensures CommitsFor(s, want, have, deepen) <= Ancestors(s, Elems(want))
    ensures CommitsFor(s, want, have, None) == Ancestors(s, Elems(want)) - Ancestors(s, Elems(have))
  {
    hide ReachSet, Reach, CommitWants, DirectWants, Near, CommitGraph;
    WantsSplit(s, want);
    NoDirectWants(s, want);
    assert Elems(CommitWants(s, want)) == Elems(want);
    var g := CommitGraph(s);
    ReachSetClosed(g, Elems(want));
    assert forall x, y :: y in Succ(g - Elems(have), x) ==> y in Succ(g, x);
    ReachInClosed(g - Elems(have), Elems(want), ReachSet(g, Elems(want)));
  }

  /** Packs with the same stored commits list the same commits. */
  lemma SameCommits(s: Store, all: set<Oid>, some: set<Oid>, have: set<Oid>, filter: Filter)
    requires Typed(s) && CommitsOnly(s, all) && all <= s.Keys && all !! have
    requires forall x :: x in some ==> x in all || x in have
    requires Filtered(s, some, {}, have, filter) == Filtered(s, all, {}, have, NoFilter)
    ensures some == all
  {
    hide ReachSet, Reach, TreeGraph, Typed, Roots;
    assert {} + have == have;
    TreesAreNoCommits(s, all, have, false);
    TreesAreNoCommits(s, some, have, false);
    TreesAreNoCommits(s, some, have, true);
    var pack := Filtered(s, all, {}, have, NoFilter);
    assert pack !! have && all <= pack && some <= pack;
    forall x | x in all ensures x in some {
      assert IsCommit(s, x) && x in Filtered(s, some, {}, have, filter);
    }
  }

  /**
    The KV backend, which ignores both options, sends what the walker sends for a request for
    commits exactly if the depth reaches every commit there is to send and the filter has
    nothing to leave out.
   */
  lemma KvHonoursOptionsIff(s: Store, want: seq<Oid>, have: seq<Oid>, deepen: Option<nat>, filter: Filter)
    requires Typed(s) && CommitsOnly(s, Elems(want)) && CommitsOnly(s, Elems(have))
    requires CommitsFor(s, want, have, None) <= s.Keys
    ensures var commits, h := CommitsFor(s, want, have, None), Closure(s, Elems(have));
      KvNeeded(s, Elems(want), Elems(have)) == Filtered(s, CommitsFor(s, want, have, deepen), {}, h, filter)
      <==> CommitsFor(s, want, have, deepen) == commits && FilterIsIdle(s, commits, h, filter)
  {
    hide ReachSet, Reach, Typed, CommitWants, DirectWants, CommitGraph, ObjectGraph, TreeGraph, KvNeeded, Elems;
    var all, some, h := CommitsFor(s, want, have, None), CommitsFor(s, want, have, deepen), Closure(s, Elems(have));
    KvIsPlain(s, want, have);
    DepthListsAncestors(s, want, have, deepen);
    AncestorsInClosure(s, Elems(have));
    ClosureCommits(s, Elems(have));
    AncestorsAreCommits(s, Elems(want));
    hide CommitsFor, Ancestors, Closure;
    FilterIdleIff(s, all, h, filter);
    if Filtered(s, some, {}, h, filter) == Filtered(s, all, {}, h, NoFilter) {
      hide Filtered, FilterIsIdle;
      assert all !! h;
      SameCommits(s, all, some, h, filter);
    }
  }

  lemma KvIsPlain(s: Store, want: seq<Oid>, have: seq<Oid>)
    requires Typed(s) && CommitsOnly(s, Elems(want)) && CommitsOnly(s, Elems(have))
    requires CommitsFor(s, want, have, None) <= s.Keys
    ensures KvNeeded(s, Elems(want), Elems(have))
         == Filtered(s, CommitsFor(s, want, have, None), {}, Closure(s, Elems(have)), NoFilter)
  {
    hide ReachSet, Reach, Typed, CommitWants, DirectWants, CommitGraph, ObjectGraph, TreeGraph, KvNeeded, Elems;
    hide Misread;
    WantsSplit(s, want);
    NoDirectWants(s, want);
    assert Elems(CommitWants(s, want)) == Elems(want);
    NothingMisread(s);
    KvMatchesWalker(s, want, Elems(have));
    CommitRequestIsExact(s, Elems(want), Elems(have));
  }

  lemma FreshClone(s: Store, tip: Oid)
    requires IsCommit(s, tip)
    ensures CommitsOnly(s, Elems([tip])) && CommitWants(s, [tip]) == [tip] && Elems([tip]) == {tip}
    ensures Elems<Oid>([]) == {} && CommitsOnly(s, {}) && CommitGraph(s) - {} == CommitGraph(s)
    ensures CommitsFor(s, [tip], [], None) == Ancestors(s, {tip})
  {
    assert [tip][..0] == [] && Elems([tip]) == {tip};
    NoneReached(s);
    assert CommitWants(s, [tip]) == [tip];
  }

  /** A clone of depth one: the KV backend sends the parent of the tip all the same. */
  lemma DepthIsIgnored(s: Store, child: Oid, parent: Oid)
    requires Typed(s) && IsCommit(s, child) && s[child].parents == [parent]
    requires IsCommit(s, parent) && s[parent].parents == [] && child != parent
    ensures parent in KvNeeded(s, {child}, {}) && parent !in CommitsFor(s, [child], [], Some(1))
    ensures KvNeeded(s, {child}, {}) != Filtered(s, CommitsFor(s, [child], [], Some(1)), {}, Closure(s, {}), NoFilter)
  {
    FreshClone(s, child);
    NotInOneLevel(s, child, parent);
    HistoryOfTwo(s, child, parent);
    NoneReached(s);
    hide ReachSet, Reach, KvNeeded, CommitsFor, Filtered, CommitWants, DirectWants, Closure, Ancestors, Typed;
    KvHonoursOptionsIff(s, [child], [], Some(1), NoFilter);
    KvIsPlain(s, [child], []);
    CommitsAreSent(s, CommitsFor(s, [child], [], None), Closure(s, {}));
  }

  /** There is such a repository. */
  lemma TwoCommits(child: Oid, parent: Oid, tree: Oid)
    requires child != parent && child != tree && parent != tree
    ensures var s: Store := map[child := Commit(tree, [parent]), parent := Commit(tree, []), tree := Tree([])];
      && Typed(s) && Complete(s)
      && KvNeeded(s, {child}, {}) != Filtered(s, CommitsFor(s, [child], [], Some(1)), {}, Closure(s, {}), NoFilter)
  {
    hide KvNeeded, CommitsFor, Filtered, Closure;
    DepthIsIgnored(map[child := Commit(tree, [parent]), parent := Commit(tree, []), tree := Tree([])], child, parent);
  }

  lemma CommitsAreSent(s: Store, commits: set<Oid>, have: set<Oid>)
    ensures commits <= Filtered(s, commits, {}, have, NoFilter)
  {
  }

  lemma NotInOneLevel(s: Store, child: Oid, parent: Oid)
    requires IsCommit(s, child) && child != parent
    ensures parent !in CommitsFor(s, [child], [], Some(1))
  {
    FreshClone(s, child);
    hide ReachSet, Reach;
    assert forall n: nat :: n < 1 && Steps(CommitGraph(s) - {}, {child}, parent, n) ==> parent in {child};
  }

  lemma HistoryOfTwo(s: Store, child: Oid, parent: Oid)
    requires IsCommit(s, child) && s[child].parents == [parent] && IsCommit(s, parent) && s[parent].parents == []
    ensures Ancestors(s, {child}) == {child, parent}
  {
    hide ReachSet, Reach;
    var g := CommitGraph(s);
    ReachSetClosed(g, {child});
    ReachInClosed(g, {child}, {child, parent});
    assert parent in Succ(g, child);
  }

  /** A clone without trees: the KV backend sends the trees all the same. */
  lemma FilterIsIgnored(s: Store, commit: Oid)
    requires Typed(s) && IsCommit(s, commit) && Ancestors(s, {commit}) <= s.Keys
    ensures KvNeeded(s, {commit}, {}) != Filtered(s, CommitsFor(s, [commit], [], None), {}, Closure(s, {}), TreeNone)
  {
    FreshClone(s, commit);
    NoneReached(s);
    ReachSetClosed(CommitGraph(s), {commit});
    assert s[commit].tree in Roots(s, Ancestors(s, {commit}));
    hide ReachSet, Reach, KvNeeded, CommitsFor, Filtered, CommitWants, DirectWants, Closure, Ancestors, Roots, Typed;
    KvHonoursOptionsIff(s, [commit], [], None, TreeNone);
  }

  /** There is such a repository. */
  lemma OneCommit(commit: Oid, tree: Oid)
    requires commit != tree
    ensures var s: Store := map[commit := Commit(tree, []), tree := Tree([])];
      && Typed(s) && Complete(s)
      && KvNeeded(s, {commit}, {}) != Filtered(s, CommitsFor(s, [commit], [], None), {}, Closure(s, {}), TreeNone)
  {
    hide KvNeeded, CommitsFor, Filtered, Closure, ReachSet, Reach;
    var s: Store := map[commit := Commit(tree, []), tree := Tree([])];
    ReachInClosed(CommitGraph(s), {commit}, {commit});
    FilterIsIgnored(s, commit);
  }
}
