/**
  What a pack must contain, and why pruned and unpruned ways of collecting it agree.
 */
module Selection {
  import opened ObjectIds
  import opened Wrappers
  import opened Graphs
  import opened ObjectStore

  /**
    What the walker gathers: the directly wanted objects, the listed commits, and everything
    met below their root trees, where the walk goes on neither from the have-set nor from a
    directly wanted object and adds nothing of the have-set.
   */
  ghost function Selected(s: Store, commits: set<Oid>, direct: set<Oid>, have: set<Oid>, skipBlobs: bool): set<Oid> {
    direct + commits + (ReachSet(TreeGraph(s, skipBlobs) - (direct + have), Roots(s, commits)) - have)
  }

  ghost predicate StoredNonCommits(s: Store, direct: set<Oid>) {
    forall x :: x in direct ==> x in s && !s[x].Commit?
  }

  /** Edges of the object graph, by the type of their source. */
  lemma ObjectSucc(s: Store, x: Oid)
    ensures IsCommit(s, x) ==> Succ(ObjectGraph(s), x) == [s[x].tree] + Succ(CommitGraph(s), x)
    ensures IsTree(s, x) ==> Succ(ObjectGraph(s), x) == Succ(TreeGraph(s, false), x)
    ensures !IsCommit(s, x) ==> Succ(CommitGraph(s), x) == []
    ensures !IsTree(s, x) ==> Succ(TreeGraph(s, false), x) == []
    ensures Leafy(s, x) ==> Succ(ObjectGraph(s), x) == Succ(TreeGraph(s, false), x)
  {
  }

  lemma AncestorsInClosure(s: Store, tips: set<Oid>)
    ensures Ancestors(s, tips) <= Closure(s, tips)
  {
    hide ReachSet, Reach, CommitGraph, ObjectGraph;
    ReachSetClosed(ObjectGraph(s), tips);
    forall x, y | x in Closure(s, tips) && y in Succ(CommitGraph(s), x) ensures y in Closure(s, tips) {
      ObjectSucc(s, x);
    }
    ReachInClosed(CommitGraph(s), tips, Closure(s, tips));
  }

  /** The only commits in a closure are the ancestors. */
  lemma ClosureCommits(s: Store, tips: set<Oid>)
    requires Typed(s) && CommitsOnly(s, tips)
    ensures forall x :: x in Closure(s, tips) ==> x in Ancestors(s, tips) || Leafy(s, x)
  {
    hide ReachSet, Reach, CommitGraph, ObjectGraph, TreeGraph, Typed;
    var og, a := ObjectGraph(s), Ancestors(s, tips);
    AncestorsAreCommits(s, tips);
    ReachSetClosed(CommitGraph(s), tips);
    ReachSetClosed(og, tips);
    RootsLeafy(s, a);
    var known := set x | x in Closure(s, tips) && (x in a || Leafy(s, x));
    forall x, y | x in known && y in Succ(og, x) ensures y in known {
      ObjectSucc(s, x);
      if y in Succ(TreeGraph(s, false), x) {
        TreeSuccLeafy(s, x, y);
      } else if y !in Succ(CommitGraph(s), x) {
        assert y == s[x].tree && y in Roots(s, a);
      }
    }
    ReachInClosed(og, tips, known);
  }

  /** Cutting at directly wanted objects and at the have-set leaves only object-graph edges. */
  lemma CutEdge(s: Store, direct: set<Oid>, have: set<Oid>, x: Oid)
    ensures x in direct + have ==> Succ(TreeGraph(s, false) - (direct + have), x) == []
    ensures x !in direct + have ==> Succ(TreeGraph(s, false) - (direct + have), x) == Succ(TreeGraph(s, false), x)
    ensures Succ(ObjectGraph(s) - direct, x) == if x in direct then [] else Succ(ObjectGraph(s), x)
  {
  }

  /** Everything selected is reachable without walking through a directly wanted object. */
  lemma SelectedIsReachable(s: Store, wants: set<Oid>, direct: set<Oid>, have: set<Oid>, excluded: set<Oid>)
    requires Typed(s) && CommitsOnly(s, wants) && StoredNonCommits(s, direct)
    ensures Ancestors(s, wants) <= ReachSet(ObjectGraph(s) - direct, wants)
    ensures ReachSet(TreeGraph(s, false) - (direct + have), Roots(s, Ancestors(s, wants) - excluded))
         <= ReachSet(ObjectGraph(s) - direct, wants)
  {
    hide ReachSet, Reach, CommitGraph, ObjectGraph, TreeGraph, Typed;
    var og, tg, commits := ObjectGraph(s) - direct, TreeGraph(s, false) - (direct + have), Ancestors(s, wants);
    var r := ReachSet(og, wants);
    ReachSetClosed(og, wants);
    forall x, y | x in r && y in Succ(CommitGraph(s), x) ensures y in r {
      ObjectSucc(s, x);
      CutEdge(s, direct, have, x);
    }
    ReachInClosed(CommitGraph(s), wants, r);
    forall x | x in Roots(s, commits - excluded) ensures x in r {
      var c :| c in commits && IsCommit(s, c) && s[c].tree == x;
      ObjectSucc(s, c);
      CutEdge(s, direct, have, c);
    }
    forall x, y | x in r && y in Succ(tg, x) ensures y in r {
      ObjectSucc(s, x);
      CutEdge(s, direct, have, x);
    }
    ReachInClosed(tg, Roots(s, commits - excluded), r);
  }

  /** Nothing reachable that way is left out, apart from what the client has. */
  lemma ReachableIsSelected(s: Store, wants: set<Oid>, direct: set<Oid>, haves: set<Oid>)
    requires Typed(s) && CommitsOnly(s, wants) && StoredNonCommits(s, direct)
    ensures ReachSet(ObjectGraph(s) - direct, wants)
         <= Selected(s, Ancestors(s, wants) - Ancestors(s, haves), direct, Closure(s, haves), false) + Closure(s, haves)
  {
    hide ReachSet, Reach, CommitGraph, ObjectGraph, TreeGraph, Typed, Selected;
    var have, commits := Closure(s, haves), Ancestors(s, wants) - Ancestors(s, haves);
    var og, tg := ObjectGraph(s) - direct, TreeGraph(s, false) - (direct + have);
    var trees := ReachSet(tg, Roots(s, commits));
    AncestorsInClosure(s, haves);
    AncestorsAreCommits(s, wants);
    ReachSetClosed(ObjectGraph(s), haves);
    ReachSetClosed(CommitGraph(s), wants);
    ReachSetClosed(tg, Roots(s, commits));
    RootsLeafy(s, commits);
    forall x ensures forall y :: y in Succ(tg, x) ==> y in Succ(TreeGraph(s, false), x) { CutEdge(s, direct, have, x); }
    TreeWalkLeafy(s, tg, Roots(s, commits));
    var kept := commits + trees + have;
    forall x, y | x in kept && y in Succ(og, x) ensures y in kept {
      KeptStep(s, wants, direct, haves, x, y);
    }
    ReachInClosed(og, wants, kept);
    assert commits + (trees - have) + have == kept;
    SelectedParts(s, commits, direct, have);
  }

  lemma SelectedParts(s: Store, commits: set<Oid>, direct: set<Oid>, have: set<Oid>)
    ensures Selected(s, commits, direct, have, false)
         == direct + commits + (ReachSet(TreeGraph(s, false) - (direct + have), Roots(s, commits)) - have)
  {
  }

  lemma KeptStep(s: Store, wants: set<Oid>, direct: set<Oid>, haves: set<Oid>, x: Oid, y: Oid)
    requires Typed(s) && CommitsOnly(s, Ancestors(s, wants))
    requires y in Succ(ObjectGraph(s) - direct, x)
    requires Ancestors(s, haves) <= Closure(s, haves)
    requires Closed(ObjectGraph(s), Closure(s, haves)) && Closed(CommitGraph(s), Ancestors(s, wants))
    requires var commits := Ancestors(s, wants) - Ancestors(s, haves);
      var trees := ReachSet(TreeGraph(s, false) - (direct + Closure(s, haves)), Roots(s, commits));
      && Roots(s, commits) <= trees
      && Closed(TreeGraph(s, false) - (direct + Closure(s, haves)), trees)
      && (forall t :: t in trees ==> Leafy(s, t))
      && x in commits + trees + Closure(s, haves)
    ensures var commits := Ancestors(s, wants) - Ancestors(s, haves);
      y in commits + ReachSet(TreeGraph(s, false) - (direct + Closure(s, haves)), Roots(s, commits)) + Closure(s, haves)
  {
    hide ReachSet, Reach, CommitGraph, ObjectGraph, TreeGraph, Typed;
    var commits := Ancestors(s, wants) - Ancestors(s, haves);
    ObjectSucc(s, x);
    CutEdge(s, direct, Closure(s, haves), x);
    if x in commits && IsCommit(s, x) && y == s[x].tree {
      assert y in Roots(s, commits);
    }
  }

  /**
    The pruned walk is exact.  An object is selected exactly when it is directly wanted, or
    reachable from a wanted commit without passing through a directly wanted object and not
    reachable from what the client has.
   */
  lemma SelectionIsExact(s: Store, wants: set<Oid>, direct: set<Oid>, haves: set<Oid>)
    requires Typed(s) && CommitsOnly(s, wants) && CommitsOnly(s, haves) && StoredNonCommits(s, direct)
    requires haves == {} || Ancestors(s, wants) - Ancestors(s, haves) <= s.Keys
    ensures Selected(s, Ancestors(s, wants) - Ancestors(s, haves), direct, Closure(s, haves), false)
         == direct + (ReachSet(ObjectGraph(s) - direct, wants) - Closure(s, haves))
  {
    hide ReachSet, Reach, CommitGraph, ObjectGraph, TreeGraph, Typed;
    var have, commits := Closure(s, haves), Ancestors(s, wants) - Ancestors(s, haves);
    SelectedIsReachable(s, wants, direct, have, Ancestors(s, haves));
    ReachableIsSelected(s, wants, direct, haves);
    AncestorsAreCommits(s, wants);
    ClosureCommits(s, haves);
    if haves == {} { ReachInClosed(ObjectGraph(s), {}, {}); }
    assert commits !! have;
  }

  /** With only commits wanted, the pack is the difference of the two closures. */
  lemma CommitRequestIsExact(s: Store, wants: set<Oid>, haves: set<Oid>)
    requires Typed(s) && CommitsOnly(s, wants) && CommitsOnly(s, haves)
    requires haves == {} || Ancestors(s, wants) - Ancestors(s, haves) <= s.Keys
    ensures Selected(s, Ancestors(s, wants) - Ancestors(s, haves), {}, Closure(s, haves), false)
         == Closure(s, wants) - Closure(s, haves)
  {
    SelectionIsExact(s, wants, {}, haves);
    assert ObjectGraph(s) - {} == ObjectGraph(s);
  }

  /** Walking with nothing to prune against gathers a whole closure. */
  lemma FullWalkIsClosure(s: Store, tips: set<Oid>)
    requires Typed(s) && CommitsOnly(s, tips)
    ensures Selected(s, Ancestors(s, tips), {}, {}, false) == Closure(s, tips)
  {
    hide ReachSet, Reach;
    CommitRequestIsExact(s, tips, {});
    ReachInClosed(CommitGraph(s), {}, {});
    ReachInClosed(ObjectGraph(s), {}, {});
    assert Ancestors(s, {}) == {} && Closure(s, {}) == {};
    assert Ancestors(s, tips) - {} == Ancestors(s, tips);
  }

  /** What the documentation promises: everything the want tips reach and the have tips do not. */
  ghost predicate PromiseKept(s: Store, wants: set<Oid>, direct: set<Oid>, haves: set<Oid>) {
    Selected(s, Ancestors(s, wants) - Ancestors(s, haves), direct, Closure(s, haves), false)
    == Closure(s, wants + direct) - Closure(s, haves)
  }

  /** What the client needs of it: every reference of an object it gets leads to one it gets or has. */
  ghost predicate NothingDangles(s: Store, wants: set<Oid>, direct: set<Oid>, haves: set<Oid>) {
    var sent := Selected(s, Ancestors(s, wants) - Ancestors(s, haves), direct, Closure(s, haves), false);
    forall x, y :: x in sent && y in Succ(ObjectGraph(s), x) ==> y in sent + Closure(s, haves)
  }

  /**
    Every reference of every directly wanted object is covered: directly wanted, had by the
    client, or reachable from a wanted commit around the directly wanted objects.
   */
  ghost predicate DirectWantsCovered(s: Store, wants: set<Oid>, direct: set<Oid>, haves: set<Oid>) {
    forall d, y :: d in direct && y in Succ(ObjectGraph(s), d) ==>
      y in direct + Closure(s, haves) + ReachSet(ObjectGraph(s) - direct, wants)
  }

  lemma AroundEdges(s: Store, wants: set<Oid>, direct: set<Oid>, x: Oid, y: Oid)
    requires x in ReachSet(ObjectGraph(s) - direct, wants) && x !in direct && y in Succ(ObjectGraph(s), x)
    ensures y in ReachSet(ObjectGraph(s) - direct, wants)
  {
    hide Reach, ObjectGraph;
    ReachSetClosed(ObjectGraph(s) - direct, wants);
    assert y in Succ(ObjectGraph(s) - direct, x);
  }

  /** With its direct wants covered, the selection and what the client has are closed together. */
  lemma CoveredIsClosed(s: Store, wants: set<Oid>, direct: set<Oid>, haves: set<Oid>)
    requires DirectWantsCovered(s, wants, direct, haves)
    ensures Closed(ObjectGraph(s), direct + Closure(s, haves) + ReachSet(ObjectGraph(s) - direct, wants))
  {
    hide ReachSet, Reach, ObjectGraph;
    var around, kept := ReachSet(ObjectGraph(s) - direct, wants), direct + Closure(s, haves);
    ReachSetClosed(ObjectGraph(s), haves);
    forall x, y | x in kept + around && y in Succ(ObjectGraph(s), x) ensures y in kept + around {
      if x in around && x !in direct { AroundEdges(s, wants, direct, x, y); }
    }
  }

  /** Everything reached around the direct wants is reached. */
  lemma AroundIsReached(s: Store, wants: set<Oid>, direct: set<Oid>)
    ensures ReachSet(ObjectGraph(s) - direct, wants) <= Closure(s, wants + direct)
    ensures direct <= Closure(s, wants + direct)
    ensures forall d, y :: d in direct && y in Succ(ObjectGraph(s), d) ==> y in Closure(s, wants + direct)
  {
    hide ReachSet, Reach, ObjectGraph;
    ReachSetClosed(ObjectGraph(s), wants + direct);
    assert forall x :: Succ(ObjectGraph(s) - direct, x) == if x in direct then [] else Succ(ObjectGraph(s), x);
    ReachInClosed(ObjectGraph(s) - direct, wants, Closure(s, wants + direct));
  }

  /**
    The promise can fail: a directly wanted object is sent without what it refers to, and it
    stops the walk of the wanted commits.  The promise is kept exactly when the client has no
    directly wanted object and every reference of one is covered.
   */
  lemma PromiseKeptIff(s: Store, wants: set<Oid>, direct: set<Oid>, haves: set<Oid>)
    requires Typed(s) && CommitsOnly(s, wants) && CommitsOnly(s, haves) && StoredNonCommits(s, direct)
    requires haves == {} || Ancestors(s, wants) - Ancestors(s, haves) <= s.Keys
    ensures PromiseKept(s, wants, direct, haves) <==>
      direct !! Closure(s, haves) && DirectWantsCovered(s, wants, direct, haves)
  {
    hide ReachSet, Reach, ObjectGraph, Typed, Selected;
    var have, all := Closure(s, haves), Closure(s, wants + direct);
    var around := ReachSet(ObjectGraph(s) - direct, wants);
    SelectionIsExact(s, wants, direct, haves);
    AroundIsReached(s, wants, direct);
    if direct !! have && DirectWantsCovered(s, wants, direct, haves) {
      CoveredIsClosed(s, wants, direct, haves);
      ReachSetClosed(ObjectGraph(s) - direct, wants);
      ReachInClosed(ObjectGraph(s), wants + direct, direct + have + around);
      assert direct + (around - have) == all - have;
    } else if direct !! have {
      var d, y :| d in direct && y in Succ(ObjectGraph(s), d) && y !in direct + have + around;
      assert y in all - have && y !in direct + (around - have);
    }
  }

  /** Nothing is left dangling exactly when every reference of a directly wanted object is covered. */
  lemma NothingDanglesIff(s: Store, wants: set<Oid>, direct: set<Oid>, haves: set<Oid>)
    requires Typed(s) && CommitsOnly(s, wants) && CommitsOnly(s, haves) && StoredNonCommits(s, direct)
    requires haves == {} || Ancestors(s, wants) - Ancestors(s, haves) <= s.Keys
    ensures NothingDangles(s, wants, direct, haves) <==> DirectWantsCovered(s, wants, direct, haves)
  {
    hide ReachSet, Reach, ObjectGraph, Typed, Selected;
    var have, around := Closure(s, haves), ReachSet(ObjectGraph(s) - direct, wants);
    SelectionIsExact(s, wants, direct, haves);
    assert direct + (around - have) + have == direct + have + around;
    if DirectWantsCovered(s, wants, direct, haves) {
      CoveredIsClosed(s, wants, direct, haves);
      assert Closed(ObjectGraph(s), direct + have + around);
    }
  }

  lemma NoneReached(s: Store)
    ensures Closure(s, {}) == {} && Ancestors(s, {}) == {}
  {
    ReachInClosed(ObjectGraph(s), {}, {});
    ReachInClosed(CommitGraph(s), {}, {});
  }

  /** One reference of one directly wanted object that nothing covers breaks both. */
  lemma Uncovered(s: Store, wants: set<Oid>, direct: set<Oid>, haves: set<Oid>, d: Oid, y: Oid)
    requires Typed(s) && CommitsOnly(s, wants) && CommitsOnly(s, haves) && StoredNonCommits(s, direct)
    requires haves == {} || Ancestors(s, wants) - Ancestors(s, haves) <= s.Keys
    requires d in direct && y in Succ(ObjectGraph(s), d)
    requires y !in direct + Closure(s, haves) + ReachSet(ObjectGraph(s) - direct, wants)
    ensures !PromiseKept(s, wants, direct, haves) && !NothingDangles(s, wants, direct, haves)
  {
    hide ReachSet, Reach, ObjectGraph, Typed, PromiseKept, NothingDangles;
    assert !DirectWantsCovered(s, wants, direct, haves);
    PromiseKeptIff(s, wants, direct, haves);
    NothingDanglesIff(s, wants, direct, haves);
  }

  function CommitTreeBlob(commit: Oid, tree: Oid, blob: Oid): Store {
    map[commit := Commit(tree, []), tree := Tree([Entry(blob, false)]), blob := Blob(None)]
  }

  lemma CommitTreeBlobEdges(commit: Oid, tree: Oid, blob: Oid)
    requires commit != tree && tree != blob && commit != blob
    ensures var s := CommitTreeBlob(commit, tree, blob);
      Typed(s) && Complete(s) && Succ(ObjectGraph(s), commit) == [tree] && Succ(ObjectGraph(s), tree) == [blob]
  {
    assert References(Commit(tree, [])) == [tree];
    assert EntryOids([Entry(blob, false)], false) == [blob];
  }

  /** A commit and its own root tree, both wanted: the blob in the tree is never sent. */
  lemma DirectTreeHidesItsBlob(commit: Oid, tree: Oid, blob: Oid)
    requires commit != tree && tree != blob && commit != blob
    ensures var s := CommitTreeBlob(commit, tree, blob);
      && Typed(s) && Complete(s)
      && !PromiseKept(s, {commit}, {tree}, {}) && !NothingDangles(s, {commit}, {tree}, {})
  {
    hide ReachSet, Reach, ObjectGraph, Typed, Complete, PromiseKept, NothingDangles;
    var s := CommitTreeBlob(commit, tree, blob);
    CommitTreeBlobEdges(commit, tree, blob);
    NoneReached(s);
    ReachInClosed(ObjectGraph(s) - {tree}, {commit}, {commit, tree});
    Uncovered(s, {commit}, {tree}, {}, tree, blob);
  }

  lemma TagReaches(s: Store, tag: Oid)
    requires tag in s && s[tag].Tag?
    ensures s[tag].target in Succ(ObjectGraph(s), tag) && s[tag].target in Closure(s, {tag})
  {
    assert Succ(ObjectGraph(s), tag) == [s[tag].target];
    hide ReachSet, Reach;
    ReachSetClosed(ObjectGraph(s), {tag});
  }

  /** A wanted annotated tag is sent alone, although the client lacks what it points to. */
  lemma WantedTagIsSentAlone(s: Store, tag: Oid, haves: set<Oid>)
    requires Typed(s) && CommitsOnly(s, haves) && tag in s && s[tag].Tag?
    requires s[tag].target !in {tag} + Closure(s, haves)
    ensures Selected(s, Ancestors(s, {}) - Ancestors(s, haves), {tag}, Closure(s, haves), false) == {tag}
    ensures s[tag].target in Closure(s, {tag}) - Closure(s, haves)
    ensures !PromiseKept(s, {}, {tag}, haves) && !NothingDangles(s, {}, {tag}, haves)
  {
    hide ReachSet, Reach, ObjectGraph, PromiseKept, NothingDangles, Selected, Typed, Closure, Ancestors;
    var none: set<Oid> := {};
    TagReaches(s, tag);
    ReachInClosed(ObjectGraph(s) - {tag}, none, {});
    NoneReached(s);
    SelectionIsExact(s, none, {tag}, haves);
    Uncovered(s, none, {tag}, haves, tag, s[tag].target);
  }

  /** For example: a tag of a commit with an empty tree, fetched by a client that has nothing. */
  lemma TaggedCommitIsNotSent(tag: Oid, commit: Oid, tree: Oid)
    requires tag != commit && commit != tree && tag != tree
    ensures var s: Store := map[tag := Tag(commit), commit := Commit(tree, []), tree := Tree([])];
      && Typed(s) && Complete(s)
      && Selected(s, Ancestors(s, {}) - Ancestors(s, {}), {tag}, Closure(s, {}), false) == {tag}
  {
    hide ReachSet, Reach, Selected;
    var s: Store := map[tag := Tag(commit), commit := Commit(tree, []), tree := Tree([])];
    NoneReached(s);
    WantedTagIsSentAlone(s, tag, {});
  }
}
