/**
  Shallow fetches: the depth-limited commit walk and its boundary.
 */
module DepthLimited {
  import opened ObjectIds
  import opened Sequences
  import opened Graphs
  import opened BreadthFirst

  datatype Shallow = MissingCommit(oid: Oid) | Walked(commits: seq<Oid>, boundary: seq<Oid>)

  /** Depth 1 is the tips alone, and a requested depth of 0 walks no less. */
  function Levels(depth: nat): (k: nat)
    ensures k >= 1
  {
    if depth == 0 then 1 else depth
  }

  /** Commits fewer than `k` edges from a tip, on walks that do not go on from a commit the client has. */
  ghost predicate Near(g: Graph, want: set<Oid>, have: set<Oid>, k: nat, x: Oid) {
    x !in have && exists n: nat :: n < k && Steps(g - have, want, x, n)
  }

  /** The commits whose parents are cut off: exactly `k - 1` edges away, and not roots. */
  ghost predicate AtBoundary(g: Graph, want: set<Oid>, have: set<Oid>, k: nat, x: Oid) {
    x !in have && k >= 1 && IsDistance(g - have, want, x, k - 1) && Succ(g, x) != []
  }

  function Tagged(xs: seq<Oid>, d: nat): seq<(Oid, nat)> {
    seq(|xs|, i requires 0 <= i < |xs| => (xs[i], d))
  }

  method PushParents(parents: seq<Oid>, seen: set<Oid>, pending: seq<(Oid, nat)>, d: nat)
    returns (visited: set<Oid>, queue: seq<(Oid, nat)>)
    ensures queue == pending + Tagged(Fresh(parents, seen), d)
    ensures visited == seen + Elems(parents)
  {
    hide Fresh, Elems;
    visited, queue := seen, pending;
    FreshStart(parents, seen);
    for i := 0 to |parents|
      invariant queue == pending + Tagged(Fresh(parents[..i], seen), d)
      invariant visited == seen + Elems(parents[..i])
    {
      ElemsTake(parents, i);
      FreshTake(parents, i, seen);
      if parents[i] !in visited {
        visited, queue := visited + {parents[i]}, queue + [(parents[i], d)];
      }
    }
    assert parents[..|parents|] == parents;
  }

  /** The queue holds the rest of the list, each id with its depth counted from one. */
  ghost predicate Queued(depth: map<Oid, nat>, list: seq<Oid>, p: nat, queue: seq<(Oid, nat)>) {
    && p <= |list| && |queue| == |list| - p
    && forall i :: 0 <= i < |queue| ==>
      queue[i].0 == list[p + i] && list[p + i] in depth && queue[i].1 == depth[list[p + i]] + 1
  }

  /** The ids already popped whose parents were pushed. */
  ghost function Expanded(have: set<Oid>, k: nat, depth: map<Oid, nat>, popped: seq<Oid>): set<Oid> {
    set x | x in Elems(popped) && x in depth && x !in have && depth[x] + 1 < k
  }

  ghost function Boundary(g: Graph, have: set<Oid>, k: nat, depth: map<Oid, nat>, popped: seq<Oid>): set<Oid> {
    set x | x in Elems(popped) && x in depth && x !in have && depth[x] + 1 >= k && Succ(g, x) != []
  }

  /** The walk's invariant, over the list of ids met and their depths. */
  ghost predicate Level(
      g: Graph, want: set<Oid>, have: set<Oid>, k: nat, depth: map<Oid, nat>, list: seq<Oid>, p: nat)
  {
    && p <= |list|
    && Sorted(depth, list, p)
    && Witnessed(g - have, want, {}, depth)
    && Explored(g - have, want, {}, depth, Expanded(have, k, depth, list[..p]))
    && (forall x :: x in depth ==> depth[x] < k)
    && (forall x :: x in list[..p] && x !in have ==> x in g)
  }

  lemma LevelStart(g: Graph, want: seq<Oid>, have: set<Oid>, k: nat) returns (zero: map<Oid, nat>)
    requires k >= 1
    ensures Level(g, Elems(want), have, k, zero, Fresh(want, {}), 0)
    ensures Queued(zero, Fresh(want, {}), 0, Tagged(Fresh(want, {}), 1))
  {
    hide Fresh, Sorted, Witnessed, Explored;
    zero := StartExplored(g - have, {}, want);
    SortedKeys(zero, Fresh(want, {}), 0);
    assert Fresh(want, {})[..0] == [];
    assert Expanded(have, k, zero, []) == {};
  }

  /** Popping an id that is not expanded: one the client has, or one at the boundary. */
  lemma LevelPop(g: Graph, want: set<Oid>, have: set<Oid>, k: nat, depth: map<Oid, nat>, list: seq<Oid>, p: nat)
    requires Level(g, want, have, k, depth, list, p) && p < |list|
    requires list[p] in have || (list[p] in depth && depth[list[p]] + 1 >= k && list[p] in g)
    ensures Level(g, want, have, k, depth, list, p + 1)
  {
    SortedPop(depth, list, p);
    assert list[..p + 1] == list[..p] + [list[p]];
    assert Expanded(have, k, depth, list[..p + 1]) == Expanded(have, k, depth, list[..p]);
    hide Sorted, Witnessed, Explored;
  }

  /** Popping an id and pushing its parents one level deeper. */
  lemma LevelPush(g: Graph, want: set<Oid>, have: set<Oid>, k: nat, depth: map<Oid, nat>, list: seq<Oid>, p: nat)
    requires Level(g, want, have, k, depth, list, p) && p < |list|
    requires list[p] !in have && list[p] in depth && depth[list[p]] + 1 < k && list[p] in g
    ensures Succ(g - have, list[p]) == Succ(g, list[p])
    ensures Level(g, want, have, k, Deepen(g - have, {}, depth, list, p), Push(g - have, {}, list, p), p + 1)
  {
    hide Sorted, Witnessed, Explored, Deepen, Push;
    var cut := g - have;
    SortedPush(cut, {}, depth, list, p);
    WitnessedPush(cut, want, {}, depth, list, p);
    ExploredPush(cut, want, {}, depth, Expanded(have, k, depth, list[..p]), list, p);
    DeepenValues(cut, {}, depth, list, p);
    PushPrefix(cut, {}, list, p);
    SortedKeys(depth, list, p);
    var deeper, longer := Deepen(cut, {}, depth, list, p), Push(cut, {}, list, p);
    PoppedAfterPush(have, k, depth, deeper, list, p, longer);
  }

  lemma PoppedAfterPush(have: set<Oid>, k: nat, depth: map<Oid, nat>, deeper: map<Oid, nat>,
                        list: seq<Oid>, p: nat, longer: seq<Oid>)
    requires p < |list| && p < |longer| && depth.Keys == Elems(list) <= deeper.Keys
    requires Elems(longer[..p + 1]) == Elems(list[..p]) + {list[p]}
    requires forall x :: x in depth ==> deeper[x] == depth[x]
    requires list[p] !in have && list[p] in depth && depth[list[p]] + 1 < k
    ensures Expanded(have, k, deeper, longer[..p + 1]) == Expanded(have, k, depth, list[..p]) + {list[p]}
    ensures forall x :: x in longer[..p + 1] ==> x in list[..p] || x == list[p]
  {
    assert Elems(list[..p]) <= Elems(list);
    forall x | x in longer[..p + 1] ensures x in list[..p] || x == list[p] { assert x in Elems(longer[..p + 1]); }
  }

  /** When the queue is empty the popped ids are the near commits, and the depths tell the boundary. */
  lemma LevelDone(g: Graph, want: set<Oid>, have: set<Oid>, k: nat, depth: map<Oid, nat>, list: seq<Oid>)
    requires k >= 1 && Level(g, want, have, k, depth, list, |list|)
    ensures forall x :: x in Elems(list) - have <==> Near(g, want, have, k, x)
    ensures forall x :: x in Boundary(g, have, k, depth, list) <==> AtBoundary(g, want, have, k, x)
  {
    assert list[..|list|] == list;
    SortedKeys(depth, list, |list|);
    var expanded := Expanded(have, k, depth, list);
    hide Sorted, Explored;
    forall x, n: nat | Steps(g - have, want, x, n) && n < k ensures x in depth && depth[x] <= n {
      DepthIsShortest(g - have, want, {}, depth, expanded, k - 1, x, n);
    }
    hide Steps;
    forall x ensures x in Boundary(g, have, k, depth, list) <==> AtBoundary(g, want, have, k, x) {
      if x in Boundary(g, have, k, depth, list) { assert depth[x] == k - 1; }
    }
  }

  /** A near commit that is not cut off has all its parents near, or had by the client. */
  lemma ParentsAreNear(g: Graph, want: set<Oid>, have: set<Oid>, k: nat, x: Oid, y: Oid)
    requires Near(g, want, have, k, x) && !AtBoundary(g, want, have, k, x) && y in Succ(g, x)
    ensures y in have || Near(g, want, have, k, y)
  {
    var m: nat :| m < k && Steps(g - have, want, x, m);
    if m == k - 1 {
      assert !IsDistance(g - have, want, x, k - 1);
      m :| m < k - 1 && Steps(g - have, want, x, m);
    }
    assert y in Succ(g - have, x);
    assert Steps(g - have, want, y, m + 1);
  }

  /** What the two result lists hold once the ids before `p` are popped. */
  ghost predicate Recorded(g: Graph, have: set<Oid>, k: nat, depth: map<Oid, nat>, list: seq<Oid>, p: nat,
                           result: seq<Oid>, shallow: seq<Oid>)
  {
    && p <= |list|
    && Distinct(result) && Elems(result) == Elems(list[..p]) - have
    && Distinct(shallow) && Elems(shallow) == Boundary(g, have, k, depth, list[..p])
  }

  /** Recording a popped id: not if the client has it, and as shallow if its parents are cut off. */
  lemma Record(g: Graph, have: set<Oid>, k: nat, depth: map<Oid, nat>, list: seq<Oid>, p: nat,
               result: seq<Oid>, shallow: seq<Oid>)
    requires Recorded(g, have, k, depth, list, p, result, shallow)
    requires p < |list| && list[p] in depth && list[p] !in Elems(list[..p])
    ensures var x := list[p];
      var result' := if x in have then result else result + [x];
      var shallow' := if x !in have && depth[x] + 1 >= k && Succ(g, x) != [] then shallow + [x] else shallow;
      Recorded(g, have, k, depth, list, p + 1, result', shallow')
  {
    hide Succ;
    assert list[..p + 1] == list[..p] + [list[p]];
    SnocDistinct(result, list[p]);
    SnocDistinct(shallow, list[p]);
  }

  lemma WalkBegins(g: Graph, want: seq<Oid>, have: set<Oid>, k: nat, depth: map<Oid, nat>)
    ensures {} + Elems(want) == Elems(Fresh(want, {}))
    ensures [] + Tagged(Fresh(want, {}), 1) == Tagged(Fresh(want, {}), 1)
    ensures Recorded(g, have, k, depth, Fresh(want, {}), 0, [], [])
  {
    FreshElems(want, {});
  }

  /** What the head of the queue is. */
  lemma Head(g: Graph, want: set<Oid>, have: set<Oid>, k: nat, depth: map<Oid, nat>, list: seq<Oid>, p: nat,
             queue: seq<(Oid, nat)>, bound: set<Oid>)
    requires p <= |list| && Level(g, want, have, k, depth, list, p) && Queued(depth, list, p, queue) && queue != []
    requires WalkState(g - have, bound, list, p)
    ensures p < |list| && p < |bound| && queue[0].0 == list[p]
    ensures list[p] in depth && queue[0].1 == depth[list[p]] + 1 <= k
    ensures list[p] !in Elems(list[..p])
    ensures list[p] !in have ==> Near(g, want, have, k, list[p])
  {
    var x := list[p];
    assert Steps(g - have, want, x, depth[x]);
  }

  /** The head of the queue leaves it unexpanded. */
  lemma Popped(g: Graph, want: set<Oid>, have: set<Oid>, k: nat, depth: map<Oid, nat>, list: seq<Oid>, p: nat,
               queue: seq<(Oid, nat)>, bound: set<Oid>)
    requires p < |list| && Level(g, want, have, k, depth, list, p) && Queued(depth, list, p, queue) && queue != []
    requires WalkState(g - have, bound, list, p)
    requires list[p] in have || (list[p] in depth && depth[list[p]] + 1 >= k && list[p] in g)
    ensures Level(g, want, have, k, depth, list, p + 1)
    ensures Queued(depth, list, p + 1, queue[1..])
    ensures WalkState(g - have, bound, list, p + 1)
  {
    LevelPop(g, want, have, k, depth, list, p);
    hide Level;
  }

  /** The head of the queue leaves it and its unseen parents join it. */
  lemma Pushed(g: Graph, want: set<Oid>, have: set<Oid>, k: nat, depth: map<Oid, nat>, list: seq<Oid>, p: nat,
               queue: seq<(Oid, nat)>, bound: set<Oid>, result: seq<Oid>, shallow: seq<Oid>)
    requires p < |list| && Level(g, want, have, k, depth, list, p) && Queued(depth, list, p, queue) && queue != []
    requires WalkState(g - have, bound, list, p)
    requires list[p] !in have && list[p] in depth && depth[list[p]] + 1 < k && list[p] in g
    requires Recorded(g, have, k, depth, list, p + 1, result, shallow)
    ensures var deeper, longer := Deepen(g - have, {}, depth, list, p), Push(g - have, {}, list, p);
      && Level(g, want, have, k, deeper, longer, p + 1)
      && Queued(deeper, longer, p + 1, queue[1..] + Tagged(Fresh(Succ(g, list[p]), Elems(list)), depth[list[p]] + 2))
      && WalkState(g - have, bound, longer, p + 1)
      && Elems(longer) == Elems(list) + Elems(Succ(g, list[p]))
      && p < |longer| && Recorded(g, have, k, deeper, longer, p + 1, result, shallow)
  {
    hide Level, Sorted, WalkState, Fresh, Succ, Elems, Distinct, Boundary, Queued, Push, Deepen;
    var cut := g - have;
    LevelPush(g, want, have, k, depth, list, p);
    LevelSorted(g, want, have, k, depth, list, p);
    WalkStep(cut, {}, bound, list, p);
    PushElems(cut, {}, list, p);
    PushPrefix(cut, {}, list, p);
    DeepenValues(cut, {}, depth, list, p);
    SortedKeys(depth, list, p);
    FreshElems(Succ(g, list[p]), Elems(list));
    QueuedPush(g, have, depth, list, p, queue);
    var longer, deeper := Push(cut, {}, list, p), Deepen(cut, {}, depth, list, p);
    RecordedAfterPush(g, have, k, depth, deeper, list, p, longer, result, shallow);
  }

  lemma LevelSorted(g: Graph, want: set<Oid>, have: set<Oid>, k: nat, depth: map<Oid, nat>, list: seq<Oid>, p: nat)
    requires Level(g, want, have, k, depth, list, p)
    ensures Sorted(depth, list, p) && Distinct(list)
  {
  }

  lemma RecordedAfterPush(g: Graph, have: set<Oid>, k: nat, depth: map<Oid, nat>, deeper: map<Oid, nat>,
                          list: seq<Oid>, p: nat, longer: seq<Oid>, result: seq<Oid>, shallow: seq<Oid>)
    requires p < |list| && p < |longer| && depth.Keys == Elems(list) <= deeper.Keys
    requires Elems(longer[..p + 1]) == Elems(list[..p]) + {list[p]}
    requires forall x :: x in depth ==> deeper[x] == depth[x]
    requires Recorded(g, have, k, depth, list, p + 1, result, shallow)
    ensures Recorded(g, have, k, deeper, longer, p + 1, result, shallow)
  {
    hide Succ;
    ElemsTake(list, p);
  }

  lemma QueuedPush(g: Graph, have: set<Oid>, depth: map<Oid, nat>, list: seq<Oid>, p: nat, queue: seq<(Oid, nat)>)
    requires p < |list| && Queued(depth, list, p, queue) && queue != [] && list[p] in depth
    requires Succ(g - have, list[p]) == Succ(g, list[p]) && depth.Keys == Elems(list)
    requires Elems(Fresh(Succ(g, list[p]), Elems(list))) == Elems(Succ(g, list[p])) - Elems(list)
    ensures Queued(Deepen(g - have, {}, depth, list, p), Push(g - have, {}, list, p), p + 1,
                   queue[1..] + Tagged(Fresh(Succ(g, list[p]), Elems(list)), depth[list[p]] + 2))
  {
    hide Fresh, Succ;
    assert {} + Elems(list) == Elems(list);
    var unseen := Fresh(Succ(g, list[p]), Elems(list));
    assert forall i :: 0 <= i < |unseen| ==> unseen[i] in Elems(unseen);
  }

  /** What an empty queue says of the two lists. */
  lemma Finished(g: Graph, want: set<Oid>, have: set<Oid>, k: nat, depth: map<Oid, nat>, list: seq<Oid>, p: nat,
                 queue: seq<(Oid, nat)>, result: seq<Oid>, shallow: seq<Oid>)
    requires k >= 1 && p <= |list| && Level(g, want, have, k, depth, list, p)
    requires Queued(depth, list, p, queue) && queue == []
    requires Recorded(g, have, k, depth, list, p, result, shallow)
    ensures Distinct(result) && Distinct(shallow)
    ensures forall x :: x in result <==> Near(g, want, have, k, x)
    ensures forall x :: x in result ==> x in g
    ensures forall x :: x in shallow <==> AtBoundary(g, want, have, k, x)
    ensures forall x, y :: x in result && x !in shallow && y in Succ(g, x) ==> y in result || y in have
  {
    assert list[..p] == list;
    LevelDone(g, want, have, k, depth, list);
    hide Near, AtBoundary, Boundary;
    forall x ensures x in result <==> Near(g, want, have, k, x) { InElems(result, x); }
    forall x ensures x in shallow <==> AtBoundary(g, want, have, k, x) { InElems(shallow, x); }
    forall x, y | x in result && x !in shallow && y in Succ(g, x) ensures y in result || y in have {
      ParentsAreNear(g, want, have, k, x, y);
    }
    forall x | x in result ensures x in g { InElems(result, x); assert x in list; }
  }

  lemma InElems(s: seq<Oid>, x: Oid)
    ensures x in s <==> x in Elems(s)
  {
  }

  /** What the limit means, in edges: below `depth` and at `depth - 1`; a depth of zero is the wants alone. */
  lemma DepthInEdges(g: Graph, want: set<Oid>, have: set<Oid>, depth: nat, x: Oid)
    ensures depth >= 1 ==>
      (Near(g, want, have, Levels(depth), x) <==>
       x !in have && exists n: nat :: n < depth && Steps(g - have, want, x, n))
    ensures depth >= 1 ==>
      (AtBoundary(g, want, have, Levels(depth), x) <==>
       x !in have && IsDistance(g - have, want, x, depth - 1) && Succ(g, x) != [])
    ensures depth == 0 ==> (Near(g, want, have, Levels(depth), x) <==> x in want - have)
    ensures depth == 0 ==> (AtBoundary(g, want, have, Levels(depth), x) <==> x in want - have && Succ(g, x) != [])
  {
    if depth >= 1 {
      NearInEdges(g, want, have, depth, x);
      hide Near;
      assert Levels(depth) == depth;
    } else {
      assert Levels(depth) == 1;
      OneLevel(g - have, want, x);
    }
  }

  lemma NearInEdges(g: Graph, want: set<Oid>, have: set<Oid>, k: nat, x: Oid)
    ensures Near(g, want, have, k, x) <==> x !in have && exists n: nat :: n < k && Steps(g - have, want, x, n)
  {
    hide Steps;
    if Near(g, want, have, k, x) {
      var n: nat :| n < k && Steps(g - have, want, x, n);
      assert n < k && Steps(g - have, want, x, n);
    }
    if x !in have && exists n: nat :: n < k && Steps(g - have, want, x, n) {
      var n: nat :| n < k && Steps(g - have, want, x, n);
      assert n < k && Steps(g - have, want, x, n);
    }
  }

  lemma OneLevel(g: Graph, want: set<Oid>, x: Oid)
    ensures Steps(g, want, x, 0) <==> x in want
    ensures (exists n: nat :: n < 1 && Steps(g, want, x, n)) <==> x in want
    ensures IsDistance(g, want, x, 0) <==> x in want
  {
  }

  /**
    The depth-limited walk.  It fails exactly when some near commit is missing; otherwise it
    lists once each the commits fewer than `depth` edges from a want, the boundary is exactly
    those at distance `depth - 1` that have parents, and no other listed commit loses a parent.
   */
  method DepthLimitedCommits(g: Graph, want: seq<Oid>, have: seq<Oid>, depth: nat) returns (r: Shallow)
    ensures r.MissingCommit? ==> r.oid !in g && Near(g, Elems(want), Elems(have), Levels(depth), r.oid)
    ensures r.Walked? ==> Distinct(r.commits) && Distinct(r.boundary)
    ensures r.Walked? ==> forall x :: x in r.commits <==> Near(g, Elems(want), Elems(have), Levels(depth), x)
    ensures r.Walked? ==> forall x :: x in r.commits ==> x in g
    ensures r.Walked? ==> forall x :: x in r.boundary <==> AtBoundary(g, Elems(want), Elems(have), Levels(depth), x)
    ensures r.Walked? && depth >= 1 ==> forall x ::
      (x in r.commits <==> Near(g, Elems(want), Elems(have), depth, x)) &&
      (x in r.boundary <==> AtBoundary(g, Elems(want), Elems(have), depth, x))
    ensures r.Walked? && depth == 0 ==> forall x ::
      (x in r.commits <==> x in Elems(want) - Elems(have)) &&
      (x in r.boundary <==> x in Elems(want) - Elems(have) && Succ(g, x) != [])
    ensures r.Walked? ==> forall x, y :: x in r.commits && x !in r.boundary && y in Succ(g, x) ==>
      y in r.commits || y in Elems(have)
  {
    hide Fresh, Tagged, Level, Queued, WalkState, Near, AtBoundary, Push, Deepen, Recorded;
    hide Succ, Elems, Targets, Distinct, Steps, IsDistance;
    ghost var tips, known, k := Elems(want), Elems(have), Levels(depth);
    ghost var bound := Targets(g - known) + tips;
    var haveSet := Elems(have);
    var visited, queue := PushParents(want, {}, [], 1);
    var result: seq<Oid>, shallow: seq<Oid> := [], [];
    ghost var list, p := Fresh(want, {}), 0;
    ghost var levels := LevelStart(g, want, known, k);
    StartState(g - known, {}, want);
    WalkBegins(g, want, known, k, levels);
    while queue != []
      invariant p <= |list| && WalkState(g - known, bound, list, p)
      invariant Level(g, tips, known, k, levels, list, p)
      invariant Queued(levels, list, p, queue)
      invariant visited == Elems(list)
      invariant Recorded(g, known, k, levels, list, p, result, shallow)
      decreases |bound| - p
    {
      var (commit, currentDepth) := queue[0];
      Head(g, tips, known, k, levels, list, p, queue, bound);
      Record(g, known, k, levels, list, p, result, shallow);
      if commit in haveSet {
        Popped(g, tips, known, k, levels, list, p, queue, bound);
        queue, p := queue[1..], p + 1;
        continue;
      }
      result := result + [commit];
      if commit !in g {
        return MissingCommit(commit);
      }
      var parents := Succ(g, commit);
      if currentDepth >= depth {
        if parents != [] {
          shallow := shallow + [commit];
        }
        Popped(g, tips, known, k, levels, list, p, queue, bound);
        queue, p := queue[1..], p + 1;
        continue;
      }
      Pushed(g, tips, known, k, levels, list, p, queue, bound, result, shallow);
      visited, queue := PushParents(parents, visited, queue[1..], currentDepth + 1);
      levels, list, p := Deepen(g - known, {}, levels, list, p), Push(g - known, {}, list, p), p + 1;
    }
    Finished(g, tips, known, k, levels, list, p, queue, result, shallow);
    forall x { DepthInEdges(g, tips, known, depth, x); }
    r := Walked(result, shallow);
  }
}
