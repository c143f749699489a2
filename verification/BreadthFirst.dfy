/**
  Breadth-first order: the list a queue-driven walk produces, and why its entries come in
  order of distance.  The walks of the KV and SQL backends are both proved to return `OrderFrom`.

  A walk is described by the list of everything met so far and a position in it: the ids
  before the position have been popped, the ids from it on are the queue.
 */
module BreadthFirst {
  import opened ObjectIds
  import opened Sequences
  import opened Graphs

  /** The ids a loop `for x in xs { if visited.insert(x) { push(x) } }` pushes. */
  function Fresh(xs: seq<Oid>, seen: set<Oid>): seq<Oid> {
    if xs == [] then []
    else
      var before, x := xs[..|xs| - 1], xs[|xs| - 1];
      Fresh(before, seen) + if x in seen || x in before then [] else [x]
  }

  lemma {:induction false} FreshElems(xs: seq<Oid>, seen: set<Oid>)
    ensures Elems(Fresh(xs, seen)) == Elems(xs) - seen
    ensures Distinct(Fresh(xs, seen))
  {
    if xs != [] {
      var before, x := xs[..|xs| - 1], xs[|xs| - 1];
      FreshElems(before, seen);
      assert Elems(xs) == Elems(before) + {x};
      var rest := if x in seen || x in before then [] else [x];
      assert Elems(Fresh(xs, seen)) == Elems(Fresh(before, seen)) + Elems(rest);
      assert rest != [] ==> x !in Elems(Fresh(before, seen));
    }
  }

  lemma FreshStart(xs: seq<Oid>, seen: set<Oid>)
    ensures Fresh(xs[..0], seen) == [] && Elems(xs[..0]) == {}
  {
  }

  lemma FreshTake(xs: seq<Oid>, i: nat, seen: set<Oid>)
    requires i < |xs|
    ensures Fresh(xs[..i + 1], seen) == Fresh(xs[..i], seen) + if xs[i] in seen + Elems(xs[..i]) then [] else [xs[i]]
  {
    assert xs[..i + 1][..i] == xs[..i];
  }

  /** A walk that meets nothing new pushes nothing. */
  lemma NothingFresh(xs: seq<Oid>, seen: set<Oid>)
    requires Elems(xs) <= seen
    ensures Fresh(xs, seen) == []
  {
    FreshElems(xs, seen);
    DistinctLength(Fresh(xs, seen));
  }

  lemma AppendDistinct(a: seq<Oid>, b: seq<Oid>)
    requires Distinct(a) && Distinct(b) && Elems(a) !! Elems(b)
    ensures Distinct(a + b) && Elems(a + b) == Elems(a) + Elems(b)
  {
    forall i, j | 0 <= i < j < |a + b| ensures (a + b)[i] != (a + b)[j] {
      if i < |a| <= j {
        assert a[i] in Elems(a) && b[j - |a|] in Elems(b);
      }
    }
  }

  /** The list after popping the id at position `p` and pushing its unseen successors. */
  function Push(g: Graph, excluded: set<Oid>, list: seq<Oid>, p: nat): seq<Oid>
    requires p < |list|
  {
    list + Fresh(Succ(g, list[p]), excluded + Elems(list))
  }

  lemma PushElems(g: Graph, excluded: set<Oid>, list: seq<Oid>, p: nat)
    requires p < |list| && Distinct(list)
    ensures Distinct(Push(g, excluded, list, p))
    ensures Elems(Push(g, excluded, list, p)) == Elems(list) + (Elems(Succ(g, list[p])) - excluded)
  {
    FreshElems(Succ(g, list[p]), excluded + Elems(list));
    AppendDistinct(list, Fresh(Succ(g, list[p]), excluded + Elems(list)));
  }

  /** Nothing is listed twice and nothing leaves `bound`, so the walk ends. */
  ghost predicate WalkState(g: Graph, bound: set<Oid>, list: seq<Oid>, p: nat) {
    && p <= |list| <= |bound|
    && Distinct(list)
    && Elems(list) <= bound
    && Targets(g) <= bound
  }

  lemma MakeState(g: Graph, bound: set<Oid>, list: seq<Oid>, p: nat)
    requires p <= |list| && Distinct(list) && Elems(list) <= bound && Targets(g) <= bound
    ensures WalkState(g, bound, list, p)
  {
    DistinctLength(list);
    SubsetSize(Elems(list), bound);
  }

  lemma WalkStep(g: Graph, excluded: set<Oid>, bound: set<Oid>, list: seq<Oid>, p: nat)
    requires WalkState(g, bound, list, p) && p < |list|
    ensures WalkState(g, bound, Push(g, excluded, list, p), p + 1)
  {
    PushElems(g, excluded, list, p);
    assert Elems(Succ(g, list[p])) <= Targets(g);
    MakeState(g, bound, Push(g, excluded, list, p), p + 1);
  }

  /** Pop and push until the queue is empty; the list is then what the walk returns. */
  ghost function Order(g: Graph, excluded: set<Oid>, bound: set<Oid>, list: seq<Oid>, p: nat): seq<Oid>
    requires WalkState(g, bound, list, p)
    decreases |bound| - p
  {
    if p == |list| then list
    else
      WalkStep(g, excluded, bound, list, p);
      Order(g, excluded, bound, Push(g, excluded, list, p), p + 1)
  }

  lemma OrderStep(g: Graph, excluded: set<Oid>, bound: set<Oid>, list: seq<Oid>, p: nat)
    requires WalkState(g, bound, list, p) && p < |list|
    ensures WalkState(g, bound, Push(g, excluded, list, p), p + 1)
    ensures Order(g, excluded, bound, list, p) == Order(g, excluded, bound, Push(g, excluded, list, p), p + 1)
    ensures p < |bound|
  {
    hide Push;
    WalkStep(g, excluded, bound, list, p);
  }

  lemma StartState(g: Graph, excluded: set<Oid>, from: seq<Oid>)
    ensures WalkState(g, Targets(g) + Elems(from), Fresh(from, excluded), 0)
  {
    FreshElems(from, excluded);
    MakeState(g, Targets(g) + Elems(from), Fresh(from, excluded), 0);
  }

  ghost function OrderFrom(g: Graph, excluded: set<Oid>, from: seq<Oid>): seq<Oid> {
    StartState(g, excluded, from);
    Order(g, excluded, Targets(g) + Elems(from), Fresh(from, excluded), 0)
  }

  /** What has been met stays where it is in the list. */
  lemma {:induction false} OrderPrefix(g: Graph, excluded: set<Oid>, bound: set<Oid>, list: seq<Oid>, p: nat)
    requires WalkState(g, bound, list, p)
    ensures list <= Order(g, excluded, bound, list, p)
    decreases |bound| - p
  {
    hide Fresh, Succ, Elems, Targets;
    if p < |list| {
      OrderStep(g, excluded, bound, list, p);
      OrderPrefix(g, excluded, bound, Push(g, excluded, list, p), p + 1);
      hide Order, WalkState;
      assert list <= Push(g, excluded, list, p);
    }
  }

  /** A walk that meets nothing new returns what it has queued. */
  lemma {:induction false} OrderStays(g: Graph, excluded: set<Oid>, bound: set<Oid>, list: seq<Oid>, p: nat)
    requires WalkState(g, bound, list, p)
    requires forall k :: 0 <= k < |list| ==> Elems(Succ(g, list[k])) <= excluded + Elems(list)
    ensures Order(g, excluded, bound, list, p) == list
    decreases |bound| - p
  {
    hide Fresh, Succ, Elems, Targets;
    if p < |list| {
      NothingFresh(Succ(g, list[p]), excluded + Elems(list));
      assert Push(g, excluded, list, p) == list;
      OrderStep(g, excluded, bound, list, p);
      OrderStays(g, excluded, bound, list, p + 1);
    }
  }

  /** The walk lists at least everything it has queued. */
  lemma {:induction false} OrderGrows(g: Graph, excluded: set<Oid>, bound: set<Oid>, list: seq<Oid>, p: nat)
    requires WalkState(g, bound, list, p)
    ensures |Order(g, excluded, bound, list, p)| >= |list|
    decreases |bound| - p
  {
    if p < |list| {
      WalkStep(g, excluded, bound, list, p);
      OrderGrows(g, excluded, bound, Push(g, excluded, list, p), p + 1);
    }
  }

  /** Depths never decrease along the list, and the queue spans at most two of them. */
  ghost predicate Sorted(depth: map<Oid, nat>, list: seq<Oid>, p: nat) {
    && Distinct(list)
    && depth.Keys == Elems(list)
    && (forall i, j :: 0 <= i <= j < |list| ==> depth[list[i]] <= depth[list[j]])
    && (forall j :: 0 <= p < |list| && p <= j < |list| ==> depth[list[j]] <= depth[list[p]] + 1)
  }

  /** Only ids outside `excluded` are met, and each depth is the length of some walk. */
  ghost predicate Witnessed(g: Graph, from: set<Oid>, excluded: set<Oid>, depth: map<Oid, nat>) {
    forall x :: x in depth ==> x !in excluded && Steps(g, from, x, depth[x])
  }

  /** The tips have depth zero, and `expanded` ids have their successors at most one deeper. */
  ghost predicate Explored(g: Graph, from: set<Oid>, excluded: set<Oid>, depth: map<Oid, nat>, expanded: set<Oid>) {
    && (forall x :: x in from ==> x in excluded || (x in depth && depth[x] == 0))
    && expanded <= depth.Keys
    && (forall x, y :: x in expanded && y in Succ(g, x) ==> y in excluded || (y in depth && depth[y] <= depth[x] + 1))
  }

  /** Depths after the id at position `p` has been expanded. */
  ghost function Deepen(g: Graph, excluded: set<Oid>, depth: map<Oid, nat>, list: seq<Oid>, p: nat): map<Oid, nat>
    requires p < |list| && list[p] in depth
  {
    depth + map y | y in Elems(Fresh(Succ(g, list[p]), excluded + Elems(list))) :: depth[list[p]] + 1
  }

  lemma DeepenValues(g: Graph, excluded: set<Oid>, depth: map<Oid, nat>, list: seq<Oid>, p: nat)
    requires Sorted(depth, list, p) && p < |list|
    ensures list[p] in depth
    ensures var deeper := Deepen(g, excluded, depth, list, p);
      && deeper.Keys == depth.Keys + (Elems(Succ(g, list[p])) - excluded)
      && forall x :: x in deeper ==> deeper[x] == if x in depth then depth[x] else depth[list[p]] + 1
  {
    assert list[p] in Elems(list);
    FreshElems(Succ(g, list[p]), excluded + Elems(list));
  }

  lemma SortedKeys(depth: map<Oid, nat>, list: seq<Oid>, p: nat)
    requires Sorted(depth, list, p)
    ensures depth.Keys == Elems(list)
    ensures forall i :: 0 <= i < |list| ==> list[i] in depth
  {
    assert forall i :: 0 <= i < |list| ==> list[i] in Elems(list);
  }

  lemma DepthBound(depth: map<Oid, nat>, list: seq<Oid>, p: nat, i: nat)
    requires Sorted(depth, list, p) && p < |list| && i < |list|
    ensures list[i] in depth && list[p] in depth && depth[list[i]] <= depth[list[p]] + 1
  {
    assert list[i] in Elems(list) && list[p] in Elems(list);
    if i < p { assert depth[list[i]] <= depth[list[p]]; }
  }

  lemma SortedPop(depth: map<Oid, nat>, list: seq<Oid>, p: nat)
    requires Sorted(depth, list, p) && p < |list|
    ensures Sorted(depth, list, p + 1)
  {
    if p + 1 < |list| { assert depth[list[p]] <= depth[list[p + 1]]; }
  }

  /** Depths along the list after a push: the old ones, then one more than that of the popped id. */
  lemma PushedDepths(g: Graph, excluded: set<Oid>, depth: map<Oid, nat>, list: seq<Oid>, p: nat, i: nat)
    requires Sorted(depth, list, p) && p < |list| && i < |Push(g, excluded, list, p)|
    ensures list[p] in depth
    ensures var longer, deeper := Push(g, excluded, list, p), Deepen(g, excluded, depth, list, p);
      && longer[i] in deeper
      && (i < |list| ==> longer[i] == list[i] && deeper[longer[i]] == depth[list[i]] <= depth[list[p]] + 1)
      && (i >= |list| ==> deeper[longer[i]] == depth[list[p]] + 1)
  {
    hide Fresh, Succ;
    DeepenValues(g, excluded, depth, list, p);
    PushElems(g, excluded, list, p);
    var longer := Push(g, excluded, list, p);
    var unseen := Fresh(Succ(g, list[p]), excluded + Elems(list));
    FreshElems(Succ(g, list[p]), excluded + Elems(list));
    assert longer == list + unseen && longer[i] in Elems(longer);
    if i < |list| {
      DepthBound(depth, list, p, i);
    } else {
      assert longer[i] == unseen[i - |list|] && longer[i] in Elems(unseen);
    }
  }

  lemma PairInOrder(g: Graph, excluded: set<Oid>, depth: map<Oid, nat>, list: seq<Oid>, p: nat, i: nat, j: nat)
    requires Sorted(depth, list, p) && p < |list|
    requires i < |Push(g, excluded, list, p)| && j < |Push(g, excluded, list, p)|
    ensures list[p] in depth
    ensures var longer, deeper := Push(g, excluded, list, p), Deepen(g, excluded, depth, list, p);
      && longer[i] in deeper && longer[j] in deeper
      && (i <= j ==> deeper[longer[i]] <= deeper[longer[j]])
      && (i == p + 1 <= j ==> deeper[longer[j]] <= deeper[longer[i]] + 1)
  {
    hide Fresh, Succ, Deepen, Push;
    PushedDepths(g, excluded, depth, list, p, i);
    PushedDepths(g, excluded, depth, list, p, j);
    SortedKeys(depth, list, p);
    if i == p + 1 < |list| { assert depth[list[p]] <= depth[list[i]]; }
  }

  lemma SortedPush(g: Graph, excluded: set<Oid>, depth: map<Oid, nat>, list: seq<Oid>, p: nat)
    requires Sorted(depth, list, p) && p < |list|
    ensures list[p] in depth
    ensures Sorted(Deepen(g, excluded, depth, list, p), Push(g, excluded, list, p), p + 1)
  {
    hide Fresh, Succ, Deepen, Push;
    PushElems(g, excluded, list, p);
    DeepenValues(g, excluded, depth, list, p);
    var longer, deeper := Push(g, excluded, list, p), Deepen(g, excluded, depth, list, p);
    forall i, j | 0 <= i < |longer| && 0 <= j < |longer|
      ensures longer[i] in deeper && longer[j] in deeper
      ensures i <= j ==> deeper[longer[i]] <= deeper[longer[j]]
      ensures i == p + 1 <= j ==> deeper[longer[j]] <= deeper[longer[i]] + 1
    {
      PairInOrder(g, excluded, depth, list, p, i, j);
    }
  }

  lemma WitnessedPush(g: Graph, from: set<Oid>, excluded: set<Oid>, depth: map<Oid, nat>, list: seq<Oid>, p: nat)
    requires Sorted(depth, list, p) && p < |list|
    requires Witnessed(g, from, excluded, depth)
    ensures list[p] in depth
    ensures Witnessed(g, from, excluded, Deepen(g, excluded, depth, list, p))
  {
    hide Sorted, Deepen, Fresh;
    DeepenValues(g, excluded, depth, list, p);
    var deeper := Deepen(g, excluded, depth, list, p);
    forall y | y in deeper ensures y !in excluded && Steps(g, from, y, deeper[y]) {
      if y !in depth { assert y in Succ(g, list[p]) && Steps(g, from, list[p], depth[list[p]]); }
    }
  }

  lemma ExploredPush(g: Graph, from: set<Oid>, excluded: set<Oid>, depth: map<Oid, nat>, expanded: set<Oid>,
                     list: seq<Oid>, p: nat)
    requires Sorted(depth, list, p) && p < |list|
    requires Explored(g, from, excluded, depth, expanded)
    ensures list[p] in depth
    ensures Explored(g, from, excluded, Deepen(g, excluded, depth, list, p), expanded + {list[p]})
  {
    var x := list[p];
    DeepenValues(g, excluded, depth, list, p);
    var deeper := Deepen(g, excluded, depth, list, p);
    forall y | y in Succ(g, x) ensures y in excluded || (y in deeper && deeper[y] <= deeper[x] + 1) {
      if y in depth {
        var i :| 0 <= i < |list| && list[i] == y;
        DepthBound(depth, list, p, i);
      } else {
        assert y in Elems(Succ(g, x));
      }
    }
  }

  lemma PushPrefix(g: Graph, excluded: set<Oid>, list: seq<Oid>, p: nat)
    requires p < |list|
    ensures p + 1 <= |Push(g, excluded, list, p)|
    ensures Elems(Push(g, excluded, list, p)[..p + 1]) == Elems(list[..p]) + {list[p]}
  {
    assert Push(g, excluded, list, p)[..p + 1] == list[..p] + [list[p]];
  }

  lemma {:induction false} OrderExplored(g: Graph, from: set<Oid>, excluded: set<Oid>, bound: set<Oid>,
                                         list: seq<Oid>, p: nat, depth: map<Oid, nat>)
    returns (final: map<Oid, nat>)
    requires p <= |list| && WalkState(g, bound, list, p)
    requires Sorted(depth, list, p) && Witnessed(g, from, excluded, depth)
    requires Explored(g, from, excluded, depth, Elems(list[..p]))
    ensures Sorted(final, Order(g, excluded, bound, list, p), |Order(g, excluded, bound, list, p)|)
    ensures Witnessed(g, from, excluded, final)
    ensures Explored(g, from, excluded, final, Elems(Order(g, excluded, bound, list, p)))
    decreases |bound| - p
  {
    hide Sorted, Witnessed, Explored, Deepen, Distinct, Push, WalkState;
    if p == |list| {
      assert list[..p] == list;
      final := depth;
    } else {
      WalkStep(g, excluded, bound, list, p);
      SortedPush(g, excluded, depth, list, p);
      WitnessedPush(g, from, excluded, depth, list, p);
      ExploredPush(g, from, excluded, depth, Elems(list[..p]), list, p);
      PushPrefix(g, excluded, list, p);
      var longer, deeper := Push(g, excluded, list, p), Deepen(g, excluded, depth, list, p);
      final := OrderExplored(g, from, excluded, bound, longer, p + 1, deeper);
    }
  }

  /** Once everything nearer than `limit` is expanded, depths are lower bounds on walk lengths. */
  lemma {:induction false} DepthIsShortest(g: Graph, from: set<Oid>, excluded: set<Oid>, depth: map<Oid, nat>,
                                           expanded: set<Oid>, limit: nat, x: Oid, n: nat)
    requires Explored(g, from, excluded, depth, expanded)
    requires Closed(g, excluded)
    requires forall y :: y in depth && depth[y] < limit && Succ(g, y) != [] ==> y in expanded
    requires Steps(g, from, x, n) && n <= limit && x !in excluded
    ensures x in depth && depth[x] <= n
    decreases n
  {
    if n > 0 {
      var y :| Steps(g, from, y, n - 1) && x in Succ(g, y);
      DepthIsShortest(g, from, excluded, depth, expanded, limit, y, n - 1);
    }
  }

  /** The fewest edges on a walk from `from` to `x`. */
  ghost predicate IsDistance(g: Graph, from: set<Oid>, x: Oid, d: nat) {
    && Steps(g, from, x, d)
    && forall k: nat :: k < d ==> !Steps(g, from, x, k)
  }

  lemma DepthsAreDistances(g: Graph, from: set<Oid>, excluded: set<Oid>, depth: map<Oid, nat>, expanded: set<Oid>)
    requires Explored(g, from, excluded, depth, expanded) && Witnessed(g, from, excluded, depth)
    requires Closed(g, excluded) && expanded == depth.Keys
    ensures depth.Keys >= ReachSet(g, from) - excluded
    ensures forall x, d: nat :: x in depth && x !in excluded && IsDistance(g, from, x, d) ==> d == depth[x]
  {
    forall x, n: nat | Steps(g, from, x, n) && x !in excluded ensures x in depth && depth[x] <= n {
      DepthIsShortest(g, from, excluded, depth, expanded, n, x, n);
    }
  }

  ghost predicate NearestFirst(g: Graph, from: set<Oid>, list: seq<Oid>) {
    forall i, j, d: nat, e: nat ::
      (0 <= i <= j < |list| && IsDistance(g, from, list[i], d) && IsDistance(g, from, list[j], e)) ==> d <= e
  }

  lemma NearestFirstByDepth(g: Graph, from: set<Oid>, excluded: set<Oid>, depth: map<Oid, nat>, list: seq<Oid>)
    requires Sorted(depth, list, |list|)
    requires Explored(g, from, excluded, depth, Elems(list)) && Witnessed(g, from, excluded, depth)
    requires Closed(g, excluded)
    ensures Distinct(list) && Elems(list) == ReachSet(g, from) - excluded
    ensures NearestFirst(g, from, list)
  {
    DepthsAreDistances(g, from, excluded, depth, Elems(list));
    assert depth.Keys <= ReachSet(g, from);
    hide Explored, Witnessed, Closed, Steps, IsDistance;
    forall i, j, d: nat, e: nat |
      0 <= i <= j < |list| && IsDistance(g, from, list[i], d) && IsDistance(g, from, list[j], e)
      ensures d <= e
    {
      assert list[i] in Elems(list) && list[j] in Elems(list);
    }
  }

  lemma StartExplored(g: Graph, excluded: set<Oid>, from: seq<Oid>) returns (zero: map<Oid, nat>)
    ensures Sorted(zero, Fresh(from, excluded), 0)
    ensures Witnessed(g, Elems(from), excluded, zero)
    ensures Explored(g, Elems(from), excluded, zero, {})
    ensures Elems(Fresh(from, excluded)[..0]) == {} && forall x :: x in zero ==> zero[x] == 0
  {
    FreshElems(from, excluded);
    var start := Fresh(from, excluded);
    zero := map x | x in Elems(start) :: 0;
    assert forall i :: 0 <= i < |start| ==> start[i] in Elems(start);
  }

  /**
    The list a pruned breadth-first walk returns: the reachable ids outside the excluded
    set, each once, nearest first.
   */
  lemma OrderIsExact(g: Graph, excluded: set<Oid>, from: seq<Oid>)
    requires Closed(g, excluded)
    ensures Distinct(OrderFrom(g, excluded, from))
    ensures Elems(OrderFrom(g, excluded, from)) == ReachSet(g, Elems(from)) - excluded
    ensures NearestFirst(g, Elems(from), OrderFrom(g, excluded, from))
  {
    hide Sorted, Witnessed, Explored, NearestFirst, WalkState, Order, Fresh;
    var order, start, tips := OrderFrom(g, excluded, from), Fresh(from, excluded), Elems(from);
    StartState(g, excluded, from);
    var zero := StartExplored(g, excluded, from);
    var depth := OrderExplored(g, tips, excluded, Targets(g) + tips, start, 0, zero);
    NearestFirstByDepth(g, tips, excluded, depth, order);
  }
}
