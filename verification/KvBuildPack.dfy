/**
  The KV backend's needed-set: collect every tree of every wanted commit, then subtract the
  have-side closure.  It prunes nothing, and is compared with what the pruned walk selects.
 */
module KvBuildPack {
  import opened ObjectIds
  import opened Wrappers
  import opened Sequences
  import opened Graphs
  import opened ObjectStore
  import opened Selection
  import opened CommitWalks
  import opened PackSelection

  /** The cap `build_pack` passes to the commit walks. */
  const USIZE_MAX: nat := 0xFFFF_FFFF_FFFF_FFFF

  /** Depth-first over one tree with a stack; an object that is not a stored tree is passed over. */
  method CollectTreeOids(s: Store, tree: Oid, known: set<Oid>, ghost base: set<Oid>, ghost roots: set<Oid>)
    returns (objects: set<Oid>)
    requires Typed(s)
    requires Gathering(TreeGraph(s, false) - base, {}, base, roots, known, {})
    ensures Gathering(TreeGraph(s, false) - base, {}, base, roots + {tree}, objects, {})
  {
    hide Typed, Gathering, TreeGraph, ReachSet, Reach, Elems, EntryOids, Succ;
    ghost var g := TreeGraph(s, false) - base;
    GatherRoot(g, {}, base, roots, known, tree);
    GatherBounds(g, {}, base, roots, known, {});
    OneRoot(tree);
    objects := known;
    var stack: seq<Oid> := [];
    if tree !in objects {
      objects, stack := objects + {tree}, [tree];
    }
    while stack != []
      invariant Gathering(g, {}, base, roots + {tree}, objects, Elems(stack))
      invariant Elems(stack) !! base
      decreases ReachSet(g, roots + {tree}) - objects, |stack|
    {
      var current := stack[|stack| - 1];
      LastElem(stack);
      ghost var before, pending := objects, Elems(stack);
      stack := stack[..|stack| - 1];
      CutSucc(s, false, base, current);
      GatherBounds(g, {}, base, roots + {tree}, before, pending);
      if !IsTree(s, current) {
        OneRoot(tree);
        GatherTree(g, {}, base, roots + {tree}, before, pending, current, objects, Elems(stack));
        continue;
      }
      objects, stack := VisitEntries(s[current].entries, {}, false, objects, stack);
      forall x ensures x in objects - before && x !in Elems(stack) ==> Succ(g, x) == [] {
        EntryTypes(s, false, current, x);
        CutSucc(s, false, base, x);
      }
      GatherTree(g, {}, base, roots + {tree}, before, pending, current, objects, Elems(stack));
    }
  }

  lemma LastElem(stack: seq<Oid>)
    requires stack != []
    ensures Elems(stack) == Elems(stack[..|stack| - 1]) + {stack[|stack| - 1]}
  {
    assert stack == stack[..|stack| - 1] + [stack[|stack| - 1]];
  }

  /** The tree an object names when its bytes are read as a commit, whatever its kind. */
  function ReadCommitTree(s: Store, x: Oid): Option<Oid> {
    if x !in s then None
    else
      match s[x]
      case Commit(tree, _) => Some(tree)
      case Blob(shape) => shape
      case Tree(_) => None
      case Tag(_) => None
  }

  /** The trees the objects name. */
  ghost function NamedTrees(s: Store, ids: set<Oid>): set<Oid> {
    set x | x in ids && ReadCommitTree(s, x).Some? :: ReadCommitTree(s, x).value
  }

  /** Add the trees that the objects of the list name to `known`. */
  method CollectCommitTrees(s: Store, commits: seq<Oid>, known: set<Oid>) returns (objects: set<Oid>)
    requires Typed(s)
    ensures objects == known + ReachSet(TreeGraph(s, false) - known, NamedTrees(s, Elems(commits)))
  {
    hide Typed, Gathering, TreeGraph, ReachSet, Reach, Elems, NamedTrees;
    ghost var g := TreeGraph(s, false) - known;
    CommitsStart(s, commits, false, known, {});
    NamedStart(s, commits);
    assert known + {} == known;
    objects := known;
    for i := 0 to |commits|
      invariant Gathering(g, {}, known, NamedTrees(s, Elems(commits[..i])), objects, {})
    {
      NamedTake(s, commits, i);
      var tree := ReadCommitTree(s, commits[i]);
      if tree.Some? {
        objects := CollectTreeOids(s, tree.value, objects, known, NamedTrees(s, Elems(commits[..i])));
      }
    }
    assert commits[..|commits|] == commits;
    GatherDone(g, {}, known, NamedTrees(s, Elems(commits)), objects);
  }

  lemma NamedStart(s: Store, commits: seq<Oid>)
    ensures NamedTrees(s, Elems(commits[..0])) == {}
  {
  }

  lemma NamedTake(s: Store, commits: seq<Oid>, i: nat)
    requires i < |commits|
    ensures var tree := ReadCommitTree(s, commits[i]);
      NamedTrees(s, Elems(commits[..i + 1]))
      == if tree.Some? then NamedTrees(s, Elems(commits[..i])) + {tree.value} else NamedTrees(s, Elems(commits[..i]))
  {
    hide ReadCommitTree;
    ElemsTake(commits, i);
  }

  /** Closure of the listed tips as the KV backend collects it. */
  ghost function Collected(s: Store, commits: set<Oid>, known: set<Oid>): set<Oid> {
    known + ReachSet(TreeGraph(s, false) - known, NamedTrees(s, commits))
  }

  ghost function KvNeeded(s: Store, want: set<Oid>, have: set<Oid>): set<Oid> {
    var commits := Ancestors(s, want) - Ancestors(s, have);
    Collected(s, commits, commits + want) - Collected(s, Ancestors(s, have), Ancestors(s, have))
  }

  /** One side of a fetch: list the commits, take `extra` along, add their trees. */
  method CollectSide(s: Store, from: seq<Oid>, excluding: seq<Oid>, extra: set<Oid>) returns (r: Option<set<Oid>>)
    requires Typed(s)
    ensures r.Some? ==> var commits := Ancestors(s, Elems(from)) - Ancestors(s, Elems(excluding));
      r.value == Collected(s, commits, commits + extra)
    ensures |Ancestors(s, Elems(excluding))| <= USIZE_MAX && |Ancestors(s, Elems(from))| <= USIZE_MAX ==> r.Some?
  {
    hide Typed, ReachSet, Reach, Elems, NamedTrees, TreeGraph, CommitGraph, KvReachable, ExactDifference;
    SubsetSize(Ancestors(s, Elems(from)) - Ancestors(s, Elems(excluding)), Ancestors(s, Elems(from)));
    var walk := ReachableExcluding(CommitGraph(s), from, excluding, USIZE_MAX);
    if walk.CapExceeded? {
      return None;
    }
    ListedElems(CommitGraph(s), from, excluding, walk.oids);
    var objects := CollectCommitTrees(s, walk.oids, Elems(walk.oids) + extra);
    r := Some(objects);
  }

  /** The objects of a fetch, before they are read and packed; `None` if a commit walk hits its cap. */
  method NeededObjects(s: Store, want: seq<Oid>, have: seq<Oid>) returns (r: Option<set<Oid>>)
    requires Typed(s)
    ensures r.Some? ==> r.value == KvNeeded(s, Elems(want), Elems(have))
    ensures |Ancestors(s, Elems(have))| <= USIZE_MAX && |Ancestors(s, Elems(want))| <= USIZE_MAX ==> r.Some?
  {
    hide Typed, Ancestors, Collected, Elems;
    NothingReached(s);
    r := CollectSide(s, want, have, Elems(want));
    if r.Some? && have != [] {
      var haveSide := CollectSide(s, have, [], {});
      ghost var known := Ancestors(s, Elems(have));
      assert known - {} == known && known + {} == known;
      r := if haveSide.None? then None else Some(r.value - haveSide.value);
    }
  }

  lemma ListedElems(g: Graph, from: seq<Oid>, excluding: seq<Oid>, oids: seq<Oid>)
    requires ExactDifference(g, from, excluding, oids)
    ensures Elems(oids) == ReachSet(g, Elems(from)) - ReachSet(g, Elems(excluding))
  {
  }

  lemma NothingReached(s: Store)
    ensures Ancestors(s, {}) == {} && Collected(s, {}, {}) == {} && Elems<Oid>([]) == {}
  {
    ReachInClosed(CommitGraph(s), {}, {});
    assert NamedTrees(s, {}) == {};
    ReachInClosed(TreeGraph(s, false) - {}, {}, {});
  }

  /** Cutting at commits cuts no tree edge. */
  lemma CommitsCutNothing(s: Store, direct: set<Oid>, commits: set<Oid>)
    requires CommitsOnly(s, commits)
    ensures TreeGraph(s, false) - (direct + commits) == TreeGraph(s, false) - direct
  {
  }

  lemma TreeEdgesInClosure(s: Store, direct: set<Oid>, tips: set<Oid>)
    ensures Closed(TreeGraph(s, false) - direct, Closure(s, tips))
  {
    hide ReachSet, Reach, ObjectGraph, TreeGraph;
    ReachSetClosed(ObjectGraph(s), tips);
    forall x
      ensures forall y :: x in Closure(s, tips) && y in Succ(TreeGraph(s, false) - direct, x) ==> y in Closure(s, tips)
    {
      ObjectSucc(s, x);
      CutEdge(s, direct, {}, x);
      assert direct + {} == direct;
    }
  }

  /** Commits name their root trees. */
  lemma CommitsNameRoots(s: Store, commits: set<Oid>)
    requires CommitsOnly(s, commits)
    ensures NamedTrees(s, commits) == Roots(s, commits)
  {
    assert forall x :: x in commits && ReadCommitTree(s, x).Some? ==> IsCommit(s, x);
  }

  /** The have side: what the KV backend subtracts is the whole closure. */
  lemma HaveSideIsClosure(s: Store, have: set<Oid>)
    requires Typed(s) && CommitsOnly(s, have)
    ensures Collected(s, Ancestors(s, have), Ancestors(s, have)) == Closure(s, have)
  {
    hide ReachSet, Reach, TreeGraph, Typed, NamedTrees;
    FullWalkIsClosure(s, have);
    AncestorsAreCommits(s, have);
    CommitsNameRoots(s, Ancestors(s, have));
    CommitsCutNothing(s, {}, Ancestors(s, have));
    assert {} + Ancestors(s, have) == Ancestors(s, have);
    var none: set<Oid> := {};
    assert none + none == none && TreeGraph(s, false) - none == TreeGraph(s, false);
  }

  /** Non-commits among the wants add nothing to the commit walk but themselves. */
  lemma WantedCommits(s: Store, wants: set<Oid>, direct: set<Oid>, have: set<Oid>)
    requires Typed(s) && CommitsOnly(s, wants) && CommitsOnly(s, have) && StoredNonCommits(s, direct)
    ensures Ancestors(s, wants + direct) - Ancestors(s, have) == (Ancestors(s, wants) - Ancestors(s, have)) + direct
    ensures NamedTrees(s, (Ancestors(s, wants) - Ancestors(s, have)) + direct)
         == Roots(s, Ancestors(s, wants) - Ancestors(s, have)) + NamedTrees(s, direct)
  {
    var g := CommitGraph(s);
    assert forall x :: x in direct ==> Succ(g, x) == [];
    hide ReachSet, Reach, CommitGraph, Typed, ReadCommitTree, Roots;
    ReachUnion(g, wants, direct);
    ReachInClosed(g, direct, direct);
    ReachSetClosed(g, direct);
    AncestorsAreCommits(s, have);
    AncestorsAreCommits(s, wants);
    CommitsNameRoots(s, Ancestors(s, wants) - Ancestors(s, have));
  }

  /** What the KV backend takes from directly wanted blobs that read as commits. */
  ghost function Misread(s: Store, direct: set<Oid>): set<Oid> {
    ReachSet(TreeGraph(s, false) - direct, NamedTrees(s, direct))
  }

  /**
    Collect-then-subtract is the pruned walk and what was misread, less whatever the client has.
   */
  lemma KvNeededIsSelected(s: Store, wants: set<Oid>, direct: set<Oid>, have: set<Oid>)
    requires Typed(s) && CommitsOnly(s, wants) && CommitsOnly(s, have) && StoredNonCommits(s, direct)
    ensures var h := Closure(s, have);
      KvNeeded(s, wants + direct, have)
      == (Selected(s, Ancestors(s, wants) - Ancestors(s, have), direct, h, false) + Misread(s, direct)) - h
  {
    hide ReachSet, Reach, TreeGraph, Typed, Roots, CommitGraph, ObjectGraph, NamedTrees;
    var commits, h := Ancestors(s, wants) - Ancestors(s, have), Closure(s, have);
    var tg, roots := TreeGraph(s, false), Roots(s, commits);
    HaveSideIsClosure(s, have);
    WantedCommits(s, wants, direct, have);
    AncestorsAreCommits(s, wants);
    AncestorsInClosure(s, have);
    ReachSetClosed(CommitGraph(s), wants);
    CommitsCutNothing(s, direct, commits + wants);
    assert (commits + direct) + (wants + direct) == direct + (commits + wants);
    TreeEdgesInClosure(s, direct, have);
    PruningLosesNothing(tg - direct, roots, h);
    assert (tg - direct) - h == tg - (direct + h);
    ReachUnion(tg - direct, roots, NamedTrees(s, direct));
  }

  /**
    The simple form against the fast form: with the wanted history stored, the KV backend and
    the pruned walk select the same objects exactly when the client has no directly wanted
    object and nothing is taken from a directly wanted blob that would not be sent or had
    anyway; with only commits wanted, always.
   */
  lemma KvMatchesWalker(s: Store, want: seq<Oid>, have: set<Oid>)
    requires Typed(s) && CommitsOnly(s, have)
    requires have == {} || Ancestors(s, Elems(CommitWants(s, want))) - Ancestors(s, have) <= s.Keys
    ensures var wants, direct, h := Elems(CommitWants(s, want)), DirectWants(s, want), Closure(s, have);
      var walker := Selected(s, Ancestors(s, wants) - Ancestors(s, have), direct, h, false);
      && KvNeeded(s, Elems(want), have) == (walker + Misread(s, direct)) - h
      && (KvNeeded(s, Elems(want), have) == walker <==> direct !! h && Misread(s, direct) - h <= walker)
    ensures CommitsOnly(s, Elems(want)) ==>
      KvNeeded(s, Elems(want), have) == Closure(s, Elems(want)) - Closure(s, have)
  {
    hide ReachSet, Reach, Typed, CommitWants, DirectWants, KvNeeded, Selected, CommitGraph, ObjectGraph, Elems, Misread;
    var wants, direct := Elems(CommitWants(s, want)), DirectWants(s, want);
    WantsSplit(s, want);
    DirectAreWanted(s, want);
    assert Elems(want) == wants + direct;
    KvNeededIsSelected(s, wants, direct, have);
    SelectionIsExact(s, wants, direct, have);
    if CommitsOnly(s, Elems(want)) {
      NoDirectWants(s, want);
      CommitRequestIsExact(s, wants, have);
      NothingMisread(s);
      assert Elems(want) == wants;
    }
  }

  /** What the commit walk lists beyond the wants is never a stored tree. */
  lemma ListedIsNoTree(s: Store, want: set<Oid>, x: Oid)
    requires Typed(s) && IsTree(s, x) && x in Ancestors(s, want)
    ensures x in want
  {
  }

  /** However the KV backend came by a tree that was not wanted itself, it sends all of it that is not had. */
  lemma KvTreesAreWhole(s: Store, want: set<Oid>, have: set<Oid>, x: Oid, e: Entry)
    requires Typed(s) && CommitsOnly(s, have)
    requires x in KvNeeded(s, want, have) - want && IsTree(s, x) && e in s[x].entries
    ensures e.oid in KvNeeded(s, want, have) + Closure(s, have)
  {
    hide ReachSet, Reach, Typed, NamedTrees, Closure;
    HaveSideIsClosure(s, have);
    var commits := Ancestors(s, want) - Ancestors(s, have);
    var known := commits + want;
    if x in Ancestors(s, want) { ListedIsNoTree(s, want, x); }
    ReachSetClosed(TreeGraph(s, false) - known, NamedTrees(s, commits));
    EntryOidsElems(s[x].entries, false);
    assert e.oid in Elems(EntryOids(s[x].entries, false));
    assert e.oid in Succ(TreeGraph(s, false) - known, x);
  }

  lemma NothingMisread(s: Store)
    ensures Misread(s, {}) == {}
  {
    assert NamedTrees(s, {}) == {};
    ReachInClosed(TreeGraph(s, false) - {}, {}, {});
  }

  lemma TreeIsDirect(s: Store, tree: Oid)
    requires IsTree(s, tree)
    ensures CommitWants(s, [tree]) == [] && DirectWants(s, [tree]) == {tree} && Elems([tree]) == {tree}
  {
    assert [tree][..0] == [] && tree in [tree];
  }

  lemma TreesNameNothing(s: Store, tree: Oid)
    requires IsTree(s, tree)
    ensures Misread(s, {tree}) == {}
  {
    assert NamedTrees(s, {tree}) == {};
    ReachInClosed(TreeGraph(s, false) - {tree}, {}, {});
  }

  /** A directly wanted tree that the client has: the walker sends it again, the KV backend sends nothing. */
  lemma HadTreeIsSentAgain(s: Store, tree: Oid, have: set<Oid>)
    requires Typed(s) && CommitsOnly(s, have) && IsTree(s, tree) && tree in Closure(s, have)
    ensures KvNeeded(s, {tree}, have) == {}
    ensures Selected(s, Ancestors(s, {}) - Ancestors(s, have), {tree}, Closure(s, have), false) == {tree}
  {
    TreeIsDirect(s, tree);
    NothingReached(s);
    TreesNameNothing(s, tree);
    hide ReachSet, Reach, CommitWants, DirectWants, KvNeeded, Selected, ObjectGraph, Typed, Misread;
    var none := Elems(CommitWants(s, [tree]));
    assert none == {};
    SelectionIsExact(s, none, {tree}, have);
    ReachInClosed(ObjectGraph(s) - {tree}, none, {});
    KvMatchesWalker(s, [tree], have);
  }

  /** There is such a request: the tree of a commit the client has. */
  lemma CommitsTreeIsHad(commit: Oid, tree: Oid)
    requires commit != tree
    ensures var s: Store := map[commit := Commit(tree, []), tree := Tree([])];
      Typed(s) && Complete(s) && CommitsOnly(s, {commit}) && IsTree(s, tree) && tree in Closure(s, {commit})
  {
    hide ReachSet, Reach;
    var s: Store := map[commit := Commit(tree, []), tree := Tree([])];
    assert References(s[commit]) == [tree] && tree in Succ(ObjectGraph(s), commit);
    ReachSetClosed(ObjectGraph(s), {commit});
  }

  lemma BlobIsDirect(s: Store, blob: Oid)
    requires blob in s && s[blob].Blob?
    ensures CommitWants(s, [blob]) == [] && DirectWants(s, [blob]) == {blob} && Elems([blob]) == {blob}
    ensures s[blob].shape.Some? ==> s[blob].shape.value in Misread(s, {blob})
  {
    assert [blob][..0] == [] && blob in [blob];
    assert s[blob].shape.Some? ==> s[blob].shape.value in NamedTrees(s, {blob});
    ReachSetClosed(TreeGraph(s, false) - {blob}, NamedTrees(s, {blob}));
  }

  /** A wanted blob that holds the text of a commit: the walker sends it alone, the KV backend adds its tree. */
  lemma BlobIsReadAsCommit(s: Store, blob: Oid, have: set<Oid>)
    requires Typed(s) && CommitsOnly(s, have) && blob in s && s[blob].Blob? && s[blob].shape.Some?
    requires blob !in Closure(s, have) && s[blob].shape.value !in {blob} + Closure(s, have)
    ensures Selected(s, Ancestors(s, {}) - Ancestors(s, have), {blob}, Closure(s, have), false) == {blob}
    ensures {blob, s[blob].shape.value} <= KvNeeded(s, {blob}, have)
  {
    BlobIsDirect(s, blob);
    NothingReached(s);
    hide ReachSet, Reach, CommitWants, DirectWants, KvNeeded, Selected, ObjectGraph, Typed, Misread;
    var none := Elems(CommitWants(s, [blob]));
    assert none == {};
    SelectionIsExact(s, none, {blob}, have);
    ReachInClosed(ObjectGraph(s) - {blob}, none, {});
    KvMatchesWalker(s, [blob], have);
  }

  /** For example: such a blob and its tree, fetched by a client that has nothing. */
  lemma SavedCommitPullsItsTree(blob: Oid, tree: Oid)
    requires blob != tree
    ensures var s: Store := map[blob := Blob(Some(tree)), tree := Tree([])];
      && Typed(s) && Complete(s) && DirectWants(s, [blob]) !! Closure(s, {})
      && tree in KvNeeded(s, {blob}, {})
      && Selected(s, Ancestors(s, {}) - Ancestors(s, {}), {blob}, Closure(s, {}), false) == {blob}
  {
    var s: Store := map[blob := Blob(Some(tree)), tree := Tree([])];
    NoneReached(s);
    hide ReachSet, Reach, KvNeeded, Selected, Closure, Ancestors;
    BlobIsReadAsCommit(s, blob, {});
  }

  /** A have that is a stored tag: the walker's traversal fails, and the KV backend subtracts the tag alone. */
  lemma TagHaveSubtractsItself(s: Store, tag: Oid)
    requires tag in s && s[tag].Tag?
    ensures Collected(s, Ancestors(s, {tag}), Ancestors(s, {tag})) == {tag}
    ensures IsTraversal(CommitGraph(s), {tag}, {}, Broken)
    ensures forall ids :: !IsTraversal(CommitGraph(s), {tag}, {}, Yielded(ids))
  {
    hide Reach;
    var g := CommitGraph(s);
    ReachSetClosed(g, {tag});
    ReachInClosed(g, {tag}, {tag});
    ReachInClosed(g, {}, {});
    assert Ancestors(s, {tag}) == {tag} && {tag} + {} == {tag};
    var none: set<Oid> := {};
    assert NamedTrees(s, {tag}) == none;
    ReachInClosed(TreeGraph(s, false) - {tag}, none, {});
  }

  lemma DirectAreWanted(s: Store, want: seq<Oid>)
    ensures DirectWants(s, want) <= Elems(want)
  {
  }
}
