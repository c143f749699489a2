/**
  Commit-parent walks of the KV and SQL backends: ancestor test, ancestor collection and the
  two-pass "reachable from these, not from those" walk with its cap.

  A `Graph` maps a commit to its parents in order; a commit the backend has never seen has
  none, which is what an empty range scan and an empty query result give.
 */
module CommitWalks {
  import opened ObjectIds
  import opened Sequences
  import opened Graphs
  import opened BreadthFirst

  datatype Reachable = Listed(oids: seq<Oid>) | CapExceeded(limit: nat)

  /** Push the ids of `xs` that are neither excluded nor visited, marking them visited. */
  method PushUnseen(xs: seq<Oid>, excluded: set<Oid>, seen: set<Oid>, pending: seq<Oid>)
    returns (visited: set<Oid>, queue: seq<Oid>)
    ensures queue == pending + Fresh(xs, excluded + seen)
    ensures visited == seen + Elems(Fresh(xs, excluded + seen))
    ensures visited == seen + (Elems(xs) - excluded)
    ensures Elems(queue) == Elems(pending) + (visited - seen)
    ensures visited == seen <==> queue == pending
  {
    hide Fresh, Elems;
    visited, queue := seen, pending;
    FreshStart(xs, excluded + seen);
    for i := 0 to |xs|
      invariant queue == pending + Fresh(xs[..i], excluded + seen)
      invariant visited == seen + (Elems(xs[..i]) - excluded)
    {
      ElemsTake(xs, i);
      FreshTake(xs, i, excluded + seen);
      if xs[i] !in excluded && xs[i] !in visited {
        visited, queue := visited + {xs[i]}, queue + [xs[i]];
      }
    }
    assert xs[..|xs|] == xs;
    FreshElems(xs, excluded + seen);
    ElemsAppend(pending, Fresh(xs, excluded + seen));
    if Elems(xs) <= excluded + seen { NothingFresh(xs, excluded + seen); }
    FreshStart([], {}); // no ids, no elements
  }

  /** What every worklist walk keeps: it met only reachable ids, and all but its queue is expanded. */
  ghost predicate Walking(g: Graph, tips: set<Oid>, base: set<Oid>, seen: set<Oid>, pending: seq<Oid>) {
    && base <= seen && tips <= seen
    && seen <= base + ReachSet(g, tips)
    && Elems(pending) <= ReachSet(g, tips)
    && ClosedExcept(g, seen, Elems(pending))
  }

  lemma WalkingStart(g: Graph, tip: Oid, base: set<Oid>)
    requires Closed(g, base)
    ensures Walking(g, {tip}, base, base + {tip}, [tip])
    ensures tip in base ==> Walking(g, {tip}, base, base, [])
  {
    ReachSetClosed(g, {tip});
    assert Elems([tip]) == {tip};
  }

  /** Expanding the head of the worklist keeps `Walking`. */
  lemma WalkingStep(g: Graph, tips: set<Oid>, base: set<Oid>, seen: set<Oid>, pending: seq<Oid>,
                    seen': set<Oid>, pending': seq<Oid>)
    requires pending != [] && Walking(g, tips, base, seen, pending)
    requires seen' == seen + Elems(Succ(g, pending[0]))
    requires Elems(pending') == Elems(pending[1..]) + (seen' - seen)
    ensures Walking(g, tips, base, seen', pending')
    ensures Elems(Succ(g, pending[0])) <= ReachSet(g, tips) && seen' <= base + ReachSet(g, tips)
  {
    hide ReachSet, Reach;
    ReachSetClosed(g, tips);
    assert Elems(pending) == {pending[0]} + Elems(pending[1..]);
    forall x, y | x in seen' && x !in Elems(pending') && y in Succ(g, x) ensures y in seen' {
      if x != pending[0] { assert x !in Elems(pending); } else { assert y in Elems(Succ(g, x)); }
    }
  }

  /** A worklist walk that has run dry has collected exactly the closure. */
  lemma WalkingDone(g: Graph, tips: set<Oid>, base: set<Oid>, seen: set<Oid>)
    requires Walking(g, tips, base, seen, []) && Closed(g, base)
    ensures seen == base + ReachSet(g, tips)
  {
    ReachInClosed(g, tips, seen);
  }

  /** The KV ancestor test: stops at the first sight of `ancestor`. */
  method IsAncestor(g: Graph, ancestor: Oid, descendant: Oid) returns (found: bool)
    ensures found <==> Reach(g, {descendant}, ancestor)
  {
    hide ReachSet, Reach, Walking, Succ, Fresh, Elems;
    ghost var tips := {descendant};
    ReachStart(g, tips, descendant);
    if ancestor == descendant {
      return true;
    }
    WalkingStart(g, descendant, {});
    assert {} + {descendant} == {descendant};
    var visited, frontier := {descendant}, [descendant];
    while frontier != []
      invariant ancestor !in visited && visited <= ReachSet(g, tips)
      invariant Walking(g, tips, {}, visited, frontier)
      decreases ReachSet(g, tips) - visited, |frontier|
    {
      var parents := Succ(g, frontier[0]);
      ghost var seen, pending := visited, frontier;
      FreshElems(parents, seen);
      ElemsAppend(pending[1..], Fresh(parents, seen));
      WalkingStep(g, tips, {}, seen, pending, seen + Elems(parents), pending[1..] + Fresh(parents, seen));
      frontier := frontier[1..];
      FreshStart(parents, seen);
      for i := 0 to |parents|
        invariant ancestor !in visited
        invariant visited == seen + Elems(parents[..i])
        invariant frontier == pending[1..] + Fresh(parents[..i], seen)
      {
        ElemsTake(parents, i);
        FreshTake(parents, i, seen);
        if parents[i] == ancestor {
          return true;
        }
        if parents[i] !in visited {
          visited, frontier := visited + {parents[i]}, frontier + [parents[i]];
        }
      }
      assert parents[..|parents|] == parents;
      if Elems(parents) <= seen { NothingFresh(parents, seen); }
    }
    WalkingDone(g, tips, {}, visited);
    found := false;
  }

  /** KV: add every ancestor of `oid` to `known`, giving up once the set outgrows `cap`. */
  method CollectAncestors(g: Graph, oid: Oid, known: set<Oid>, cap: nat) returns (ok: bool, collected: set<Oid>)
    requires Closed(g, known) && |known| <= cap
    ensures ok <==> |known + ReachSet(g, {oid})| <= cap
    ensures ok ==> collected == known + ReachSet(g, {oid})
  {
    hide ReachSet, Reach, Walking, Closed, Succ, Fresh, Elems;
    ghost var tips := {oid};
    WalkingStart(g, oid, known);
    ReachSetClosed(g, tips);
    var frontier := [];
    collected := known;
    if oid !in collected {
      collected, frontier := collected + {oid}, [oid];
    }
    while frontier != []
      invariant Walking(g, tips, known, collected, frontier)
      invariant collected <= known + ReachSet(g, tips)
      invariant frontier == [] ==> |collected| <= cap
      decreases known + ReachSet(g, tips) - collected, |frontier|
    {
      if |collected| > cap {
        SubsetSize(collected, known + ReachSet(g, tips));
        return false, collected;
      }
      var seen, pending := PushUnseen(Succ(g, frontier[0]), {}, collected, frontier[1..]);
      WalkingStep(g, tips, known, collected, frontier, seen, pending);
      collected, frontier := seen, pending;
    }
    WalkingDone(g, tips, known, collected);
    ok := true;
  }

  /**
    The second pass, word for word the same in both backends: breadth-first from the tips,
    never entering `excluded`, failing when one more id than `cap` would be listed.
   */
  method WalkFrom(g: Graph, from: seq<Oid>, excluded: set<Oid>, cap: nat) returns (r: Reachable)
    ensures r == if |OrderFrom(g, excluded, from)| > cap then CapExceeded(cap) else Listed(OrderFrom(g, excluded, from))
  {
    hide Order, OrderFrom, WalkState, Fresh, Elems, Succ, Targets;
    ghost var bound := Targets(g) + Elems(from);
    var visited, queue := PushUnseen(from, excluded, {}, []);
    var result: seq<Oid> := [];
    WalkStart(g, excluded, from);
    while queue != []
      invariant visited == Elems(result + queue) && |result| <= cap
      invariant WalkState(g, bound, result + queue, |result|)
      invariant Order(g, excluded, bound, result + queue, |result|) == OrderFrom(g, excluded, from)
      decreases |bound| - |result|
    {
      WalkPop(g, excluded, bound, result, queue);
      if |result| >= cap {
        return CapExceeded(cap);
      }
      var oid := queue[0];
      result := result + [oid];
      visited, queue := PushUnseen(Succ(g, oid), excluded, visited, queue[1..]);
    }
    assert result + [] == result;
    OrderEnd(g, excluded, bound, result);
    r := Listed(result);
  }

  lemma WalkStart(g: Graph, excluded: set<Oid>, from: seq<Oid>)
    ensures excluded + {} == excluded && [] + Fresh(from, excluded) == Fresh(from, excluded)
    ensures [] + ([] + Fresh(from, excluded)) == Fresh(from, excluded)
    ensures WalkState(g, Targets(g) + Elems(from), Fresh(from, excluded), 0)
    ensures Order(g, excluded, Targets(g) + Elems(from), Fresh(from, excluded), 0) == OrderFrom(g, excluded, from)
  {
    StartState(g, excluded, from);
  }

  /** One turn of the walk's loop, seen on the list of everything met. */
  lemma WalkPop(g: Graph, excluded: set<Oid>, bound: set<Oid>, result: seq<Oid>, queue: seq<Oid>)
    requires queue != [] && WalkState(g, bound, result + queue, |result|)
    ensures var unseen := Fresh(Succ(g, queue[0]), excluded + Elems(result + queue));
      var longer := (result + [queue[0]]) + (queue[1..] + unseen);
      && WalkState(g, bound, longer, |result| + 1)
      && Order(g, excluded, bound, result + queue, |result|) == Order(g, excluded, bound, longer, |result| + 1)
      && Elems(longer) == Elems(result + queue) + Elems(unseen)
    ensures |result| < |bound|
    ensures |Order(g, excluded, bound, result + queue, |result|)| > |result|
  {
    hide Order, WalkState, Fresh, Succ, Elems;
    var list, unseen := result + queue, Fresh(Succ(g, queue[0]), excluded + Elems(result + queue));
    OrderStep(g, excluded, bound, list, |result|);
    OrderGrows(g, excluded, bound, list, |result|);
    assert (result + [queue[0]]) + (queue[1..] + unseen) == list + unseen;
    ElemsAppend(list, unseen);
  }

  lemma OrderEnd(g: Graph, excluded: set<Oid>, bound: set<Oid>, result: seq<Oid>)
    requires WalkState(g, bound, result, |result|)
    ensures Order(g, excluded, bound, result, |result|) == result
  {
  }

  /** What the KV backend answers: the cap also bounds the excluded side. */
  ghost function KvReachable(g: Graph, from: seq<Oid>, excluding: seq<Oid>, cap: nat): Reachable {
    if from == [] then Listed([])
    else if |ReachSet(g, Elems(excluding))| > cap then CapExceeded(cap)
    else SqlReachable(g, from, excluding, cap)
  }

  /** What the SQL backend answers. */
  ghost function SqlReachable(g: Graph, from: seq<Oid>, excluding: seq<Oid>, cap: nat): Reachable {
    if from == [] then Listed([])
    else if |ReachSet(g, Elems(from)) - ReachSet(g, Elems(excluding))| > cap then CapExceeded(cap)
    else Listed(OrderFrom(g, ReachSet(g, Elems(excluding)), from))
  }

  ghost predicate ExactDifference(g: Graph, from: seq<Oid>, excluding: seq<Oid>, oids: seq<Oid>) {
    && Distinct(oids)
    && Elems(oids) == ReachSet(g, Elems(from)) - ReachSet(g, Elems(excluding))
    && NearestFirst(g, Elems(from), oids)
  }

  /** A successful walk lists exactly the difference of the two closures, once each, nearest first. */
  lemma ListedIsExact(g: Graph, from: seq<Oid>, excluding: seq<Oid>)
    ensures ExactDifference(g, from, excluding, OrderFrom(g, ReachSet(g, Elems(excluding)), from))
    ensures ExactDifference(g, [], excluding, [])
    ensures |OrderFrom(g, ReachSet(g, Elems(excluding)), from)|
         == |ReachSet(g, Elems(from)) - ReachSet(g, Elems(excluding))|
  {
    hide OrderFrom, NearestFirst;
    ReachSetClosed(g, Elems(excluding));
    OrderIsExact(g, ReachSet(g, Elems(excluding)), from);
    DistinctLength(OrderFrom(g, ReachSet(g, Elems(excluding)), from));
    ReachNothing(g);
    NearestFirstEmpty(g);
  }

  lemma ReachNothing(g: Graph)
    ensures Elems<Oid>([]) == {} && ReachSet(g, {}) == {}
  {
    ReachInClosed(g, {}, {});
  }

  lemma NearestFirstEmpty(g: Graph)
    ensures NearestFirst(g, {}, [])
  {
  }

  /** Every listed parent stands before its child, as the storage contract words it. */
  ghost predicate ParentFirst(g: Graph, list: seq<Oid>) {
    forall i, j :: 0 <= i < |list| && 0 <= j < |list| && list[j] in Succ(g, list[i]) ==> j < i
  }

  /** Every parent of each listed id is cut off or stands earlier in the list. */
  ghost predicate ParentsEarlier(g: Graph, cut: set<Oid>, list: seq<Oid>) {
    forall i, y :: 0 <= i < |list| && y in Succ(g, list[i]) ==> y in cut || y in list[..i]
  }

  /** The walk lists its tips first, and after them every parent that is not cut off. */
  lemma WalkedOrder(g: Graph, cut: set<Oid>, from: seq<Oid>)
    requires Closed(g, cut)
    ensures var tips, list := Fresh(from, cut), OrderFrom(g, cut, from);
      && tips <= list && Distinct(list) && Elems(tips) !! cut
      && (forall i, y :: 0 <= i < |list| && y in Succ(g, list[i]) && y !in cut ==> y in list)
      && (ParentsEarlier(g, cut, tips) ==> list == tips)
  {
    hide Reach, Fresh, NearestFirst, Order;
    var tips, bound := Fresh(from, cut), Targets(g) + Elems(from);
    StartState(g, cut, from);
    OrderPrefix(g, cut, bound, tips, 0);
    OrderIsExact(g, cut, from);
    FreshElems(from, cut);
    ReachSetClosed(g, Elems(from));
    var list := OrderFrom(g, cut, from);
    forall i, y | 0 <= i < |list| && y in Succ(g, list[i]) && y !in cut ensures y in list {
      assert list[i] in Elems(list) && y in Elems(list);
    }
    if ParentsEarlier(g, cut, tips) {
      forall k | 0 <= k < |tips| ensures Elems(Succ(g, tips[k])) <= cut + Elems(tips) {
        assert forall y :: y in Succ(g, tips[k]) ==> y in cut || y in tips[..k];
      }
      OrderStays(g, cut, bound, tips, 0);
    }
  }

  /**
    The walk is parent-first exactly when there is nothing to walk: every parent of each tip
    that is listed is excluded, or is itself a tip that comes earlier.
   */
  lemma ParentFirstIff(g: Graph, from: seq<Oid>, excluding: seq<Oid>)
    ensures var cut := ReachSet(g, Elems(excluding));
      ParentFirst(g, OrderFrom(g, cut, from)) <==> ParentsEarlier(g, cut, Fresh(from, cut))
  {
    hide Reach, Fresh, OrderFrom;
    var cut := ReachSet(g, Elems(excluding));
    ReachSetClosed(g, Elems(excluding));
    WalkedOrder(g, cut, from);
    var tips, list := Fresh(from, cut), OrderFrom(g, cut, from);
    hide ReachSet;
    if ParentsEarlier(g, cut, tips) {
      forall i, j | 0 <= i < |list| && 0 <= j < |list| && list[j] in Succ(g, list[i]) ensures j < i {
        assert list[j] in Elems(tips);
        var k :| 0 <= k < i && tips[k] == list[j];
      }
    }
    if ParentFirst(g, list) {
      forall i, y | 0 <= i < |tips| && y in Succ(g, tips[i]) && y !in cut ensures y in tips[..i] {
        assert list[i] == tips[i];
        var j :| 0 <= j < |list| && list[j] == y;
        assert tips[..i][j] == y;
      }
    }
  }

  /** From one tip, as a comparison asks: parent-first exactly when all parents of the tip are excluded. */
  lemma OneTipParentFirstIff(g: Graph, tip: Oid, excluding: seq<Oid>)
    requires tip !in ReachSet(g, Elems(excluding))
    ensures var cut := ReachSet(g, Elems(excluding));
      ParentFirst(g, OrderFrom(g, cut, [tip])) <==> Elems(Succ(g, tip)) <= cut
  {
    var cut := ReachSet(g, Elems(excluding));
    ParentFirstIff(g, [tip], excluding);
    assert [tip][..0] == [];
    assert Fresh([tip], cut) == [tip];
    hide ReachSet, OrderFrom, ParentFirst;
    assert forall y :: y in Elems(Succ(g, tip)) <==> y in Succ(g, tip);
    if Elems(Succ(g, tip)) <= cut {
      assert ParentsEarlier(g, cut, [tip]);
    } else {
      var y :| y in Succ(g, tip) && y !in cut;
      assert y in Succ(g, [tip][0]) && y !in [tip][..0];
    }
  }

  /** A commit and its parent, walked from the commit, come child first. */
  lemma ChildComesFirst(child: Oid, parent: Oid)
    requires child != parent
    ensures var g: Graph := map[child := [parent], parent := []];
      !ParentFirst(g, OrderFrom(g, ReachSet(g, Elems<Oid>([])), [child]))
  {
    var g: Graph := map[child := [parent], parent := []];
    ReachNothing(g);
    hide ReachSet, OrderFrom, ParentFirst;
    assert parent in Elems(Succ(g, child));
    OneTipParentFirstIff(g, child, []);
  }

  /** The KV walk: exclude-side closure under the cap, then the pruned walk under the cap. */
  method ReachableExcluding(g: Graph, from: seq<Oid>, excluding: seq<Oid>, cap: nat) returns (r: Reachable)
    ensures r == KvReachable(g, from, excluding, cap)
    ensures r.Listed? ==> ExactDifference(g, from, excluding, r.oids)
    ensures from == [] ==> r == Listed([])
    ensures from != [] ==> (r.CapExceeded? <==>
      || |ReachSet(g, Elems(excluding))| > cap
      || |ReachSet(g, Elems(from)) - ReachSet(g, Elems(excluding))| > cap)
  {
    hide OrderFrom, ExactDifference, ReachSet, Reach, Elems, Closed;
    ListedIsExact(g, from, excluding);
    if from == [] {
      return Listed([]);
    }
    var excludeSet: set<Oid> := {};
    ReachNothing(g);
    for i := 0 to |excluding|
      invariant excludeSet == ReachSet(g, Elems(excluding[..i])) && |excludeSet| <= cap
    {
      ReachSetClosed(g, Elems(excluding[..i]));
      ReachUnion(g, Elems(excluding[..i]), {excluding[i]});
      ElemsTake(excluding, i);
      var ok: bool;
      ok, excludeSet := CollectAncestors(g, excluding[i], excludeSet, cap);
      if !ok {
        ReachMonotone(g, Elems(excluding[..i + 1]), Elems(excluding));
        SubsetSize(ReachSet(g, Elems(excluding[..i + 1])), ReachSet(g, Elems(excluding)));
        return CapExceeded(cap);
      }
    }
    assert excluding[..|excluding|] == excluding;
    r := WalkFrom(g, from, excludeSet, cap);
  }

  /** Parents rank below their children, as content addressing forces. */
  ghost predicate Acyclic(g: Graph, rank: Oid -> nat) {
    forall x, y :: y in Succ(g, x) ==> rank(y) < rank(x)
  }

  /**
    The rows of the recursive query: the start row, and for each row one row per parent.
    `UNION ALL` keeps a row for every walk, so only an acyclic history gives finitely many.
   */
  function CteRows(g: Graph, rank: Oid -> nat, oid: Oid): seq<Oid>
    requires Acyclic(g, rank)
    decreases rank(oid), 1, 0
  {
    [oid] + CteParents(g, rank, oid, Succ(g, oid))
  }

  function CteParents(g: Graph, rank: Oid -> nat, child: Oid, parents: seq<Oid>): seq<Oid>
    requires Acyclic(g, rank) && Elems(parents) <= Elems(Succ(g, child))
    decreases rank(child), 0, |parents|
  {
    if parents == [] then []
    else
      assert parents[0] in Elems(parents);
      CteRows(g, rank, parents[0]) + CteParents(g, rank, child, parents[1..])
  }

  lemma {:induction false} CteRowsClosed(g: Graph, rank: Oid -> nat, oid: Oid)
    requires Acyclic(g, rank)
    ensures oid in CteRows(g, rank, oid)
    ensures Closed(g, Elems(CteRows(g, rank, oid)))
    ensures Elems(CteRows(g, rank, oid)) <= ReachSet(g, {oid})
    decreases rank(oid), 1, 0
  {
    hide ReachSet, Reach, Acyclic;
    CteParentsClosed(g, rank, oid, Succ(g, oid));
    ElemsAppend([oid], CteParents(g, rank, oid, Succ(g, oid)));
    ReachSetClosed(g, {oid});
    ReachInClosed(g, Elems(Succ(g, oid)), ReachSet(g, {oid}));
    assert Elems([oid]) == {oid};
  }

  lemma {:induction false} CteParentsClosed(g: Graph, rank: Oid -> nat, child: Oid, parents: seq<Oid>)
    requires Acyclic(g, rank) && Elems(parents) <= Elems(Succ(g, child))
    ensures Elems(parents) <= Elems(CteParents(g, rank, child, parents))
    ensures Closed(g, Elems(CteParents(g, rank, child, parents)))
    ensures Elems(CteParents(g, rank, child, parents)) <= ReachSet(g, Elems(parents))
    decreases rank(child), 0, |parents|
  {
    hide ReachSet, Reach;
    if parents != [] {
      assert parents[0] in Elems(parents);
      ElemsAppend(CteRows(g, rank, parents[0]), CteParents(g, rank, child, parents[1..]));
      ElemsAppend([parents[0]], parents[1..]);
      CteRowsClosed(g, rank, parents[0]);
      CteParentsClosed(g, rank, child, parents[1..]);
      assert parents == [parents[0]] + parents[1..];
      ReachMonotone(g, {parents[0]}, Elems(parents));
      ReachMonotone(g, Elems(parents[1..]), Elems(parents));
    }
  }

  /** The recursive query returns the ancestors, as a set. */
  lemma CteIsAncestors(g: Graph, rank: Oid -> nat, oid: Oid)
    requires Acyclic(g, rank)
    ensures Elems(CteRows(g, rank, oid)) == ReachSet(g, {oid})
  {
    CteRowsClosed(g, rank, oid);
    ReachInClosed(g, {oid}, Elems(CteRows(g, rank, oid)));
  }

  /** SQL: is `ancestor` among the rows of the query? */
  method SqlIsAncestor(g: Graph, rank: Oid -> nat, ancestor: Oid, descendant: Oid) returns (found: bool)
    requires Acyclic(g, rank)
    ensures found <==> Reach(g, {descendant}, ancestor)
  {
    CteIsAncestors(g, rank, descendant);
    found := ancestor in CteRows(g, rank, descendant);
  }

  /** The SQL walk: the exclude side comes from the recursive query and is not capped. */
  method SqlReachableExcluding(g: Graph, rank: Oid -> nat, from: seq<Oid>, excluding: seq<Oid>, cap: nat)
    returns (r: Reachable)
    requires Acyclic(g, rank)
    ensures r == SqlReachable(g, from, excluding, cap)
    ensures r.Listed? ==> ExactDifference(g, from, excluding, r.oids)
    ensures KvReachable(g, from, excluding, cap).Listed? ==> r == KvReachable(g, from, excluding, cap)
    ensures r.CapExceeded? <==> |ReachSet(g, Elems(from)) - ReachSet(g, Elems(excluding))| > cap
  {
    hide OrderFrom, ExactDifference, Acyclic, ReachSet, Reach, Elems, CteRows;
    ListedIsExact(g, from, excluding);
    ReachNothing(g);
    if from == [] {
      assert ReachSet(g, Elems(from)) - ReachSet(g, Elems(excluding)) == {};
      return Listed([]);
    }
    var excludeSet: set<Oid> := {};
    for i := 0 to |excluding|
      invariant excludeSet == ReachSet(g, Elems(excluding[..i]))
    {
      ReachUnion(g, Elems(excluding[..i]), {excluding[i]});
      ElemsTake(excluding, i);
      CteIsAncestors(g, rank, excluding[i]);
      excludeSet := excludeSet + Elems(CteRows(g, rank, excluding[i]));
    }
    assert excluding[..|excluding|] == excluding;
    r := WalkFrom(g, from, excludeSet, cap);
  }
}
