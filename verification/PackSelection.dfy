/**
  The pack selection of the filesystem backend: have-set, want-side walk, filters and depth.

  The commit iterator of the git library is not modelled; what it yields for a request is a
  parameter (`Traversal`), constrained only by what such an iterator promises, so the results
  hold for whatever order it chooses.
 */
module PackSelection {
  import opened ObjectIds
  import opened Wrappers
  import opened Sequences
  import opened Graphs
  import opened ObjectStore
  import opened Selection
  import opened DepthLimited

  datatype Filter = NoFilter | BlobNone | TreeNone

  datatype Traversal = Broken | Yielded(ids: seq<Oid>)

  datatype Fetch = Failed | Fetched(objects: set<Oid>, shallow: seq<Oid>)

  /** A commit iterator from `tips` that hides `hidden` and their ancestors. */
  ghost predicate IsTraversal(g: Graph, tips: set<Oid>, hidden: set<Oid>, t: Traversal) {
    match t
    case Yielded(ids) => Elems(ids) == ReachSet(g, tips) - ReachSet(g, hidden) && Elems(ids) <= g.Keys
    case Broken => !(ReachSet(g, tips + hidden) <= g.Keys)
  }

  /**
    The tree walk's invariant.  `base` is in the result from elsewhere; below the roots, the
    result holds only what the cut graph reaches, and all of it but the pending trees' entries.
   */
  ghost predicate Gathering(
      g: Graph, have: set<Oid>, base: set<Oid>, roots: set<Oid>, objects: set<Oid>, pending: set<Oid>)
  {
    && base <= objects
    && objects <= base + (ReachSet(g, roots) - have)
    && roots <= objects + have
    && pending <= ReachSet(g, roots) - have
    && ClosedExcept(g, objects + have, pending)
  }

  lemma GatherStart(g: Graph, have: set<Oid>, base: set<Oid>)
    requires forall x :: x in base + have ==> Succ(g, x) == []
    ensures Gathering(g, have, base, {}, base, {})
  {
  }

  lemma GatherCommit(g: Graph, have: set<Oid>, base: set<Oid>, roots: set<Oid>, objects: set<Oid>, commit: Oid)
    requires Gathering(g, have, base, roots, objects, {}) && Succ(g, commit) == []
    ensures Gathering(g, have, base + {commit}, roots, objects + {commit}, {})
  {
  }

  lemma GatherRoot(g: Graph, have: set<Oid>, base: set<Oid>, roots: set<Oid>, objects: set<Oid>, root: Oid)
    requires Gathering(g, have, base, roots, objects, {})
    ensures root in objects + have ==> Gathering(g, have, base, roots + {root}, objects, {})
    ensures root !in objects + have ==> Gathering(g, have, base, roots + {root}, objects + {root}, {root})
  {
    hide ReachSet, Reach;
    ReachMonotone(g, roots, roots + {root});
    ReachSetClosed(g, roots + {root});
  }

  /** Expanding one pending tree. */
  lemma GatherTree(g: Graph, have: set<Oid>, base: set<Oid>, roots: set<Oid>, objects: set<Oid>, pending: set<Oid>,
                   tree: Oid, objects': set<Oid>, pending': set<Oid>)
    requires Gathering(g, have, base, roots, objects, pending) && tree in pending
    requires objects' == objects + (Elems(Succ(g, tree)) - have)
    requires pending - {tree} <= pending' <= pending + (objects' - objects)
    requires forall x :: x in objects' - objects && x !in pending' ==> Succ(g, x) == []
    ensures Gathering(g, have, base, roots, objects', pending')
    ensures Elems(Succ(g, tree)) - have <= ReachSet(g, roots) - have
  {
    hide ReachSet, Reach, Succ;
    ReachSetClosed(g, roots);
    forall x | x in objects' + have && x !in pending'
      ensures forall y :: y in Succ(g, x) ==> y in objects' + have
    {
      if x == tree {
        forall y | y in Succ(g, x) ensures y in objects' + have { assert y in Elems(Succ(g, tree)); }
      } else if x in objects + have {
        forall y | y in Succ(g, x) ensures y in objects' + have { assert y in objects + have; }
      } else {
        assert x in objects' - objects && Succ(g, x) == [];
      }
    }
  }

  /** When no tree is pending the result is exactly what the cut graph reaches. */
  lemma GatherDone(g: Graph, have: set<Oid>, base: set<Oid>, roots: set<Oid>, objects: set<Oid>)
    requires Gathering(g, have, base, roots, objects, {})
    ensures objects == base + (ReachSet(g, roots) - have)
  {
    hide ReachSet, Reach;
    ReachInClosed(g, roots, objects + have);
  }

  /**
    Both tree visitors on the entries of one tree: ids the client has are passed over, new ids
    are recorded, and a new subtree is queued for descent.  The have-side visitor is the case
    of an empty `have`.
   */
  method VisitEntries(entries: seq<Entry>, have: set<Oid>, skipBlobs: bool, found: set<Oid>, pending: seq<Oid>)
    returns (objects: set<Oid>, queue: seq<Oid>)
    ensures objects == found + (Elems(EntryOids(entries, skipBlobs)) - have)
    ensures Elems(pending) <= Elems(queue) <= Elems(pending) + (objects - found)
    ensures forall x :: x in objects - found && x !in Elems(queue) ==>
      exists e :: e in entries && e.oid == x && !e.isTree
    ensures forall x :: x in Elems(queue) && x !in Elems(pending) ==> exists e :: e in entries && e.oid == x && e.isTree
    ensures objects == found ==> queue == pending
  {
    hide Elems, EntryOids;
    objects, queue := found, pending;
    EntriesStart(entries, skipBlobs);
    for i := 0 to |entries|
      invariant objects == found + (Elems(EntryOids(entries[..i], skipBlobs)) - have)
      invariant Elems(pending) <= Elems(queue) <= Elems(pending) + (objects - found)
      invariant forall x :: x in objects - found && x !in Elems(queue) ==>
        exists e :: e in entries && e.oid == x && !e.isTree
      invariant forall x :: x in Elems(queue) && x !in Elems(pending) ==>
        exists e :: e in entries && e.oid == x && e.isTree
      invariant objects == found ==> queue == pending
    {
      var e := entries[i];
      assert e in entries;
      EntriesTake(entries, skipBlobs, i);
      ElemsSnoc(queue, e.oid);
      if e.isTree {
        if e.oid !in have && e.oid !in objects {
          objects, queue := objects + {e.oid}, queue + [e.oid];
        }
      } else if !skipBlobs {
        if e.oid !in have {
          objects := objects + {e.oid};
        }
      }
    }
    assert entries[..|entries|] == entries;
  }

  lemma ElemsSnoc(s: seq<Oid>, x: Oid)
    ensures Elems(s + [x]) == Elems(s) + {x}
  {
  }

  lemma EntriesStart(entries: seq<Entry>, skipBlobs: bool)
    ensures Elems(EntryOids(entries[..0], skipBlobs)) == {}
  {
  }

  lemma EntriesTake(entries: seq<Entry>, skipBlobs: bool, i: nat)
    requires i < |entries|
    ensures Elems(EntryOids(entries[..i + 1], skipBlobs)) == Elems(EntryOids(entries[..i], skipBlobs))
      + if skipBlobs && !entries[i].isTree then {} else {entries[i].oid}
  {
    assert entries[..i + 1][..i] == entries[..i];
  }

  /** In a typed store only tree entries have entries of their own, and in a complete one they are there. */
  lemma EntryTypes(s: Store, skipBlobs: bool, tree: Oid, x: Oid)
    requires Typed(s) && IsTree(s, tree)
    ensures (exists e :: e in s[tree].entries && e.oid == x && !e.isTree) ==> Succ(TreeGraph(s, skipBlobs), x) == []
    ensures Complete(s) && (exists e :: e in s[tree].entries && e.oid == x && e.isTree) ==> IsTree(s, x)
  {
  }

  /** The walk below one root tree; it fails only on a tree the store does not have. */
  method WalkTree(s: Store, root: Oid, have: set<Oid>, found: set<Oid>, skipBlobs: bool,
                  ghost cut: set<Oid>, ghost base: set<Oid>, ghost roots: set<Oid>)
    returns (ok: bool, objects: set<Oid>)
    requires Typed(s) && cut <= base + have && have <= cut && root !in cut
    requires Gathering(TreeGraph(s, skipBlobs) - cut, have, base, roots, found, {root})
    ensures ok ==> Gathering(TreeGraph(s, skipBlobs) - cut, have, base, roots, objects, {})
    ensures Complete(s) && IsTree(s, root) ==> ok
  {
    hide Typed, Complete, Gathering, TreeGraph, ReachSet, Reach, Elems, EntryOids, Succ;
    ghost var g := TreeGraph(s, skipBlobs) - cut;
    var queue := [root];
    objects := found;
    OneRoot(root);
    while queue != []
      invariant Gathering(g, have, base, roots, objects, Elems(queue))
      invariant Elems(queue) !! cut
      invariant Complete(s) && IsTree(s, root) ==> forall t :: t in Elems(queue) ==> IsTree(s, t)
      decreases ReachSet(g, roots) - objects, |queue|
    {
      var tree := queue[0];
      HeadElem(queue);
      if !IsTree(s, tree) {
        return false, objects;
      }
      ghost var before, pending := objects, queue[1..];
      objects, queue := VisitEntries(s[tree].entries, have, skipBlobs, objects, queue[1..]);
      forall x ensures x in objects - before && x !in Elems(queue) ==> Succ(g, x) == [] {
        EntryTypes(s, skipBlobs, tree, x);
        CutSucc(s, skipBlobs, cut, x);
      }
      CutSucc(s, skipBlobs, cut, tree);
      GatherBounds(g, have, base, roots, before, Elems([tree] + pending));
      forall x | Complete(s) && IsTree(s, root) && x in Elems(queue) ensures IsTree(s, x) {
        EntryTypes(s, skipBlobs, tree, x);
      }
      GatherTree(g, have, base, roots, before, Elems([tree] + pending), tree, objects, Elems(queue));
    }
    ok := true;
  }

  lemma OneRoot(root: Oid)
    ensures Elems([root]) == {root} && Elems<Oid>([]) == {}
  {
  }

  lemma HeadElem(queue: seq<Oid>)
    requires queue != []
    ensures [queue[0]] + queue[1..] == queue
    ensures Elems(queue) == {queue[0]} + Elems(queue[1..])
  {
    assert queue == [queue[0]] + queue[1..];
  }

  lemma CutSucc(s: Store, skipBlobs: bool, cut: set<Oid>, x: Oid)
    ensures Succ(TreeGraph(s, skipBlobs) - cut, x) == if x in cut then [] else Succ(TreeGraph(s, skipBlobs), x)
    ensures IsTree(s, x) ==> Succ(TreeGraph(s, skipBlobs), x) == EntryOids(s[x].entries, skipBlobs)
    ensures !IsTree(s, x) ==> Succ(TreeGraph(s, skipBlobs), x) == []
  {
  }

  lemma GatherBounds(g: Graph, have: set<Oid>, base: set<Oid>, roots: set<Oid>, objects: set<Oid>, pending: set<Oid>)
    requires Gathering(g, have, base, roots, objects, pending)
    ensures base <= objects
    ensures pending <= ReachSet(g, roots) - have
  {
  }

  /**
    The loop over commits shared by the have side and the want side: record the commit, and
    walk its tree unless that tree is already known.
   */
  method GatherCommits(s: Store, commits: seq<Oid>, direct: set<Oid>, have: set<Oid>, skipBlobs: bool)
    returns (ok: bool, objects: set<Oid>)
    requires Typed(s) && CommitsOnly(s, Elems(commits))
    ensures ok ==> objects == Selected(s, Elems(commits), direct, have, skipBlobs)
    ensures ok ==> Elems(commits) <= s.Keys
    ensures Complete(s) && Elems(commits) <= s.Keys ==> ok
  {
    hide Typed, Complete, Gathering, TreeGraph, ReachSet, Reach, Elems, Succ, CommitsOnly, Roots;
    ghost var cut := direct + have;
    ghost var g, roots: set<Oid> := TreeGraph(s, skipBlobs) - cut, {};
    objects := direct;
    CommitsStart(s, commits, skipBlobs, direct, have);
    for i := 0 to |commits|
      invariant roots == Roots(s, Elems(commits[..i]))
      invariant Elems(commits[..i]) <= s.Keys
      invariant Gathering(g, have, direct + Elems(commits[..i]), roots, objects, {})
    {
      var commit := commits[i];
      ElemsTake(commits, i);
      ghost var base := direct + Elems(commits[..i + 1]);
      assert base == direct + Elems(commits[..i]) + {commit};
      if commit !in s {
        return false, objects;
      }
      CommitTypes(s, commits, skipBlobs, cut, i);
      GatherCommit(g, have, direct + Elems(commits[..i]), roots, objects, commit);
      objects := objects + {commit};
      var tree := s[commit].tree;
      GatherRoot(g, have, base, roots, objects, tree);
      GatherBounds(g, have, base, roots, objects, {});
      roots := roots + {tree};
      if tree in objects || tree in have {
        continue;
      }
      objects := objects + {tree};
      ok, objects := WalkTree(s, tree, have, objects, skipBlobs, cut, base, roots);
      if !ok {
        return;
      }
    }
    assert commits[..|commits|] == commits;
    GatherDone(g, have, direct + Elems(commits), roots, objects);
    ok := true;
  }

  lemma CommitsStart(s: Store, commits: seq<Oid>, skipBlobs: bool, direct: set<Oid>, have: set<Oid>)
    ensures Elems(commits[..0]) == {} && Roots(s, {}) == {} && direct + {} == direct
    ensures Gathering(TreeGraph(s, skipBlobs) - (direct + have), have, direct, {}, direct, {})
  {
    GatherStart(TreeGraph(s, skipBlobs) - (direct + have), have, direct);
  }

  lemma CommitTypes(s: Store, commits: seq<Oid>, skipBlobs: bool, cut: set<Oid>, i: nat)
    requires Typed(s) && CommitsOnly(s, Elems(commits)) && i < |commits| && commits[i] in s
    ensures s[commits[i]].Commit? && Succ(TreeGraph(s, skipBlobs) - cut, commits[i]) == []
    ensures Roots(s, Elems(commits[..i + 1])) == Roots(s, Elems(commits[..i])) + {s[commits[i]].tree}
    ensures Complete(s) ==> IsTree(s, s[commits[i]].tree)
  {
    assert commits[i] in Elems(commits);
    ElemsTake(commits, i);
  }

  /** Everything the client has, from the walk over the commits the iterator yields. */
  method BuildHaveSet(s: Store, have: seq<Oid>, walk: Traversal) returns (r: Option<set<Oid>>)
    requires Typed(s) && IsTraversal(CommitGraph(s), Elems(have), {}, walk)
    ensures r.Some? ==> r.value == Closure(s, Elems(have)) && Elems(have) <= CommitGraph(s).Keys
    ensures Complete(s) && Elems(have) <= CommitGraph(s).Keys ==> r.Some?
  {
    hide Typed, Complete, ReachSet, Reach, Elems, Selected;
    HaveTraversal(s, have, walk);
    if walk.Broken? {
      return None;
    }
    var ok, objects := GatherCommits(s, walk.ids, {}, {}, false);
    if !ok {
      return None;
    }
    FullWalkIsClosure(s, Elems(have));
    r := Some(objects);
  }

  lemma CompleteHistory(s: Store, tips: set<Oid>)
    requires Typed(s) && Complete(s) && tips <= CommitGraph(s).Keys
    ensures Ancestors(s, tips) <= CommitGraph(s).Keys
  {
    ReachInClosed(CommitGraph(s), tips, CommitGraph(s).Keys);
  }

  lemma HaveTraversal(s: Store, have: seq<Oid>, walk: Traversal)
    requires Typed(s) && IsTraversal(CommitGraph(s), Elems(have), {}, walk)
    ensures walk.Yielded? ==> Elems(walk.ids) == Ancestors(s, Elems(have)) <= CommitGraph(s).Keys
    ensures walk.Yielded? ==> CommitsOnly(s, Elems(walk.ids)) && Elems(have) <= CommitGraph(s).Keys <= s.Keys
    ensures Complete(s) && Elems(have) <= CommitGraph(s).Keys ==> walk.Yielded?
  {
    hide Typed, Complete, ReachSet, Reach, Elems;
    ReachSetClosed(CommitGraph(s), Elems(have));
    ReachInClosed(CommitGraph(s), {}, {});
    if Complete(s) && Elems(have) <= CommitGraph(s).Keys { CompleteHistory(s, Elems(have)); }
    assert Elems(have) + {} == Elems(have);
  }

  /** The wanted ids that go through the commit walk: all but the stored non-commits. */
  function CommitWants(s: Store, want: seq<Oid>): seq<Oid> {
    if want == [] then []
    else
      var before, x := CommitWants(s, want[..|want| - 1]), want[|want| - 1];
      if x in s && !s[x].Commit? then before else before + [x]
  }

  /** The wanted ids that are sent as they are. */
  function DirectWants(s: Store, want: seq<Oid>): set<Oid> {
    set x | x in want && x in s && !s[x].Commit?
  }

  lemma {:induction false} WantsSplit(s: Store, want: seq<Oid>)
    ensures Elems(CommitWants(s, want)) == Elems(want) - DirectWants(s, want)
    ensures CommitsOnly(s, Elems(CommitWants(s, want))) && StoredNonCommits(s, DirectWants(s, want))
  {
    if want != [] {
      var before, x := want[..|want| - 1], want[|want| - 1];
      WantsSplit(s, before);
      assert want == before + [x];
      ElemsSnoc(CommitWants(s, before), x);
      ElemsSnoc(before, x);
    }
  }

  /** The commits a request selects, with or without a depth limit. */
  ghost function CommitsFor(s: Store, want: seq<Oid>, have: seq<Oid>, deepen: Option<nat>): set<Oid> {
    var tips, g := Elems(CommitWants(s, want)), CommitGraph(s);
    match deepen
    case None => Ancestors(s, tips) - Ancestors(s, Elems(have))
    case Some(depth) =>
      set x | x in ReachSet(g - Elems(have), tips) && Near(g, tips, Elems(have), Levels(depth), x)
  }

  ghost function Filtered(s: Store, commits: set<Oid>, direct: set<Oid>, have: set<Oid>, filter: Filter): set<Oid> {
    match filter
    case TreeNone => commits + direct
    case BlobNone => Selected(s, commits, direct, have, true)
    case NoFilter => Selected(s, commits, direct, have, false)
  }

  /** Sorting the wanted ids by type; ids the store lacks go to the commit walk. */
  method ClassifyWants(s: Store, want: seq<Oid>) returns (commits: seq<Oid>, direct: set<Oid>)
    ensures commits == CommitWants(s, want) && direct == DirectWants(s, want)
  {
    commits, direct := [], {};
    for i := 0 to |want|
      invariant commits == CommitWants(s, want[..i]) && direct == DirectWants(s, want[..i])
    {
      assert want[..i + 1][..i] == want[..i] && want[..i + 1] == want[..i] + [want[i]];
      if want[i] in s && !s[want[i]].Commit? {
        direct := direct + {want[i]};
      } else {
        commits := commits + [want[i]];
      }
    }
    assert want[..|want|] == want;
  }

  /** The want side, against a have-set computed elsewhere. */
  method ObjectsForFetchWithHaveSet(s: Store, want: seq<Oid>, have: seq<Oid>, deepen: Option<nat>, filter: Filter,
                                    haveSet: set<Oid>, walk: Traversal)
    returns (r: Fetch)
    requires Typed(s)
    requires IsTraversal(CommitGraph(s), Elems(CommitWants(s, want)), Elems(have), walk)
    ensures r.Fetched? ==>
      r.objects == Filtered(s, CommitsFor(s, want, have, deepen), DirectWants(s, want), haveSet, filter)
    ensures r.Fetched? ==> forall x :: x in want && x in s && !s[x].Commit? ==> x in r.objects
    ensures r.Fetched? ==> CommitsFor(s, want, have, deepen) <= s.Keys
    ensures r.Fetched? && deepen.None? ==> r.shallow == []
    ensures r.Fetched? ==> Distinct(r.shallow) && forall x :: x in r.shallow <==>
      deepen.Some? && AtBoundary(CommitGraph(s), Elems(CommitWants(s, want)), Elems(have), Levels(deepen.value), x)
    ensures Complete(s) && Elems(want) <= s.Keys && Elems(have) <= CommitGraph(s).Keys ==> r.Fetched?
  {
    hide Typed, Complete, ReachSet, Reach, Elems, Selected, Near, AtBoundary, IsTraversal, CommitWants, DirectWants;
    hide CommitsOnly, CommitGraph;
    DirectAreSent(s, want, CommitsFor(s, want, have, deepen), haveSet, filter);
    var commitWants, direct := ClassifyWants(s, want);
    WantsSplit(s, want);
    WalkedCommits(s, want, have, walk);
    var wantCommits, shallow: seq<Oid>;
    if deepen.Some? {
      var walked := DepthLimitedCommits(CommitGraph(s), commitWants, have, deepen.value);
      DepthCommits(s, want, have, deepen.value);
      if walked.MissingCommit? {
        return Failed;
      }
      wantCommits, shallow := walked.commits, walked.boundary;
      SameElems(wantCommits, CommitsFor(s, want, have, deepen));
    } else if commitWants != [] {
      if walk.Broken? {
        return Failed;
      }
      wantCommits, shallow := walk.ids, [];
    } else {
      NoCommits(s, want, have);
      wantCommits, shallow := [], [];
    }
    if filter.TreeNone? {
      return Fetched(Elems(wantCommits) + direct, shallow);
    }
    var ok, objects := GatherCommits(s, wantCommits, direct, haveSet, filter.BlobNone?);
    if !ok {
      return Failed;
    }
    r := Fetched(objects, shallow);
  }

  /** Whatever is wanted directly is sent, whatever the filter. */
  lemma DirectAreSent(s: Store, want: seq<Oid>, commits: set<Oid>, have: set<Oid>, filter: Filter)
    ensures forall x :: x in want && x in s && !s[x].Commit? ==>
      x in Filtered(s, commits, DirectWants(s, want), have, filter)
  {
  }

  lemma SameElems(xs: seq<Oid>, set': set<Oid>)
    requires forall x :: x in xs <==> x in set'
    ensures Elems(xs) == set'
  {
  }

  lemma NoCommits(s: Store, want: seq<Oid>, have: seq<Oid>)
    requires CommitWants(s, want) == []
    ensures CommitsFor(s, want, have, None) == Elems<Oid>([]) == {}
    ensures CommitsOnly(s, {})
  {
    assert Elems<Oid>([]) == {};
    ReachInClosed(CommitGraph(s), {}, {});
  }

  lemma WalkedCommits(s: Store, want: seq<Oid>, have: seq<Oid>, walk: Traversal)
    requires Typed(s) && IsTraversal(CommitGraph(s), Elems(CommitWants(s, want)), Elems(have), walk)
    ensures walk.Yielded? ==> Elems(walk.ids) == CommitsFor(s, want, have, None) <= s.Keys
    ensures walk.Yielded? ==> CommitsOnly(s, Elems(walk.ids))
    ensures Complete(s) && Elems(want) <= s.Keys && Elems(have) <= CommitGraph(s).Keys ==> walk.Yielded?
  {
    hide ReachSet, Reach;
    if Complete(s) && Elems(want) <= s.Keys && Elems(have) <= CommitGraph(s).Keys {
      WantsSplit(s, want);
      CompleteHistory(s, Elems(CommitWants(s, want)) + Elems(have));
    }
  }

  lemma DepthCommits(s: Store, want: seq<Oid>, have: seq<Oid>, depth: nat)
    requires Typed(s)
    ensures forall x :: x in CommitsFor(s, want, have, Some(depth)) <==>
      Near(CommitGraph(s), Elems(CommitWants(s, want)), Elems(have), Levels(depth), x)
    ensures CommitsOnly(s, CommitsFor(s, want, have, Some(depth)))
    ensures Complete(s) && Elems(want) <= s.Keys ==> CommitsFor(s, want, have, Some(depth)) <= CommitGraph(s).Keys
    ensures CommitGraph(s).Keys <= s.Keys
  {
    hide Near, ReachSet, Reach, Typed, Complete, Elems, CommitWants;
    var tips, g := Elems(CommitWants(s, want)), CommitGraph(s);
    WantsSplit(s, want);
    forall x | Near(g, tips, Elems(have), Levels(depth), x)
      ensures x in CommitsFor(s, want, have, Some(depth))
    {
      NearIsReached(g, tips, Elems(have), Levels(depth), x);
    }
    ReachSetClosed(g, tips);
    assert forall x :: Succ(g - Elems(have), x) == if x in Elems(have) then [] else Succ(g, x);
    ReachInClosed(g - Elems(have), tips, Ancestors(s, tips));
    AncestorsAreCommits(s, tips);
    if Complete(s) && Elems(want) <= s.Keys { CompleteHistory(s, tips); }
  }

  lemma NearIsReached(g: Graph, tips: set<Oid>, have: set<Oid>, k: nat, x: Oid)
    requires Near(g, tips, have, k, x)
    ensures x in ReachSet(g - have, tips)
  {
    var n: nat :| n < k && Steps(g - have, tips, x, n);
    assert Reach(g - have, tips, x);
  }

  /**
    A fetch without depth or filter.  On success the pack holds the directly wanted objects
    and exactly what the wanted commits reach (without walking through a directly wanted
    object) and the client lacks; with only commits wanted, the difference of the closures.
   */
  method ObjectsForFetch(s: Store, want: seq<Oid>, have: seq<Oid>, haveWalk: Traversal, wantWalk: Traversal)
    returns (r: Fetch)
    requires Typed(s)
    requires IsTraversal(CommitGraph(s), Elems(have), {}, haveWalk)
    requires IsTraversal(CommitGraph(s), Elems(CommitWants(s, want)), Elems(have), wantWalk)
    ensures r.Fetched? ==> var direct := DirectWants(s, want);
      r.objects == direct + (ReachSet(ObjectGraph(s) - direct, Elems(want) - direct) - Closure(s, Elems(have)))
    ensures r.Fetched? && CommitsOnly(s, Elems(want)) ==>
      r.objects == Closure(s, Elems(want)) - Closure(s, Elems(have))
    ensures r.Fetched? ==> r.shallow == []
    ensures Complete(s) && Elems(want) <= s.Keys && Elems(have) <= CommitGraph(s).Keys ==> r.Fetched?
  {
    hide Typed, Complete, ReachSet, Reach, Elems, Selected, IsTraversal, CommitWants, DirectWants;
    hide CommitGraph, ObjectGraph;
    var haveSet := BuildHaveSet(s, have, haveWalk);
    if haveSet.None? {
      return Failed;
    }
    r := ObjectsForFetchWithHaveSet(s, want, have, None, NoFilter, haveSet.value, wantWalk);
    if r.Fetched? {
      WantsSplit(s, want);
      HavesAreCommits(s, have);
      SelectionIsExact(s, Elems(CommitWants(s, want)), DirectWants(s, want), Elems(have));
      if CommitsOnly(s, Elems(want)) {
        NoDirectWants(s, want);
        assert Elems(want) - {} == Elems(want);
      }
    }
  }

  lemma HavesAreCommits(s: Store, have: seq<Oid>)
    requires Elems(have) <= CommitGraph(s).Keys
    ensures CommitsOnly(s, Elems(have))
  {
  }

  lemma NoDirectWants(s: Store, want: seq<Oid>)
    requires CommitsOnly(s, Elems(want))
    ensures DirectWants(s, want) == {} && ObjectGraph(s) - {} == ObjectGraph(s)
  {
    assert forall x :: x in want ==> x in Elems(want);
  }
}
