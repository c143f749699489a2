/**
  The filesystem backend's choice between shipping a pack as it is, reading the have-set off a
  bitmap, and walking: all three send the same objects.
 */
module FsBuildPack {
  import opened ObjectIds
  import opened Wrappers
  import opened Sequences
  import opened Graphs
  import opened ObjectStore
  import opened Selection
  import opened DepthLimited
  import opened PackSelection
  import opened DenseBitmaps
  import opened PackBitmaps

  /** The objects of a pack, by its position table. */
  function OidsOf(table: seq<Option<Oid>>): set<Oid> {
    set p | 0 <= p < |table| && table[p].Some? :: table[p].value
  }

  ghost function PackOids(v: View): set<Oid> {
    OidsOf(v.table)
  }

  /**
    A bitmap that tells the truth about the store: every position names an object, and each
    indexed commit's bitmap is its closure, all of which is in the pack.  Bits past the last
    object are unconstrained.
   */
  ghost predicate Truthful(s: Store, v: View) {
    && WellFormed(v)
    && (forall p :: 0 <= p < v.count ==> v.table[p].Some?)
    && (forall o :: o in v.oidToEntry ==> IsCommit(s, o) && Closure(s, {o}) <= PackOids(v))
    && (forall o, p :: o in v.oidToEntry && 0 <= p < v.count ==>
         (TrueBit(v, v.oidToEntry[o], p) <==> v.table[p].value in Closure(s, {o})))
  }

  /** Positions of the union are the objects of the closure. */
  lemma UnionIsClosure(s: Store, v: View, oids: seq<Oid>, p: nat)
    requires Truthful(s, v) && AllIndexed(v, oids) && p < v.count
    ensures UnionBit(v, oids, p) <==> v.table[p].value in Closure(s, Elems(oids))
  {
    hide Closure, TrueBit;
    assert forall o :: o in oids <==> o in Elems(oids);
    ClosureOfOne(s, Elems(oids), v.table[p].value);
  }

  lemma ClosureOfOne(s: Store, tips: set<Oid>, x: Oid)
    ensures x in Closure(s, tips) <==> exists o :: o in tips && x in Closure(s, {o})
  {
    ReachFromOne(ObjectGraph(s), tips, x);
  }

  lemma ClosureInPack(s: Store, v: View, oids: seq<Oid>)
    requires Truthful(s, v) && AllIndexed(v, oids)
    ensures Closure(s, Elems(oids)) <= PackOids(v)
    ensures CommitsOnly(s, Elems(oids)) && Elems(oids) <= s.Keys
  {
    hide Closure, TrueBit, PackOids;
    forall x | x in Closure(s, Elems(oids)) ensures x in PackOids(v) { ClosureOfOne(s, Elems(oids), x); }
  }

  /** The bitmap gives exactly the have-set the walk gives. */
  lemma BitmapMatchesWalker(s: Store, v: View, haves: seq<Oid>, x: Oid)
    requires Truthful(s, v) && AllIndexed(v, haves)
    ensures ReadBack(v, haves, x) <==> x in Closure(s, Elems(haves))
  {
    hide UnionBit, TrueBit, Closure;
    if ReadBack(v, haves, x) {
      var p: nat :| UnionBit(v, haves, p) && Resolved(v, p) && v.table[p].value == x;
      UnionIsClosure(s, v, haves, p);
    }
    if x in Closure(s, Elems(haves)) {
      ClosureInPack(s, v, haves);
      var p :| 0 <= p < |v.table| && v.table[p].Some? && v.table[p].value == x;
      UnionIsClosure(s, v, haves, p);
      assert ResolvedUpTo(v, haves, p);
    }
  }

  /** A pack is found exactly reusable if and only if it is the requested difference. */
  lemma ReuseIsExact(s: Store, v: View, want: seq<Oid>, have: seq<Oid>)
    requires Truthful(s, v) && AllIndexed(v, want) && AllIndexed(v, have)
    ensures Covers(v, want, have) <==> PackOids(v) == Closure(s, Elems(want)) - Closure(s, Elems(have))
  {
    hide UnionBit, Closure, TrueBit;
    ClosureInPack(s, v, want);
    forall p: nat | p < v.count
      ensures UnionBit(v, want, p) <==> v.table[p].value in Closure(s, Elems(want))
      ensures UnionBit(v, have, p) <==> v.table[p].value in Closure(s, Elems(have))
      ensures v.table[p].value in PackOids(v)
    {
      UnionIsClosure(s, v, want, p);
      UnionIsClosure(s, v, have, p);
    }
  }

  ghost predicate Reusable(v: View, want: seq<Oid>, have: seq<Oid>) {
    WellFormed(v) && AllIndexed(v, want) && AllIndexed(v, have) && Covers(v, want, have)
  }

  /** The first pack whose bitmap proves it to be the request. */
  method FindReusablePack(packs: seq<PackBitmap>, want: seq<Oid>, have: seq<Oid>) returns (r: Option<nat>)
    requires forall b :: b in packs ==> b.Valid()
    ensures r.Some? ==> want != [] && r.value < |packs| && Reusable(packs[r.value].V(), want, have)
    ensures r.None? && want != [] ==> forall i :: 0 <= i < |packs| ==> !Reusable(packs[i].V(), want, have)
  {
    if want == [] {
      return None;
    }
    for i := 0 to |packs|
      invariant forall k :: 0 <= k < i ==> !Reusable(packs[k].V(), want, have)
    {
      var covers := packs[i].CoversExactly(want, have);
      if covers == Some(true) {
        return Some(i);
      }
    }
    r := None;
  }

  /** The have-set from the first bitmap that has an entry for every have; trivially empty without haves. */
  method TryBitmapHaveSet(s: Store, packs: seq<PackBitmap>, have: seq<Oid>) returns (r: Option<set<Oid>>)
    requires forall b :: b in packs ==> b.Valid() && Truthful(s, b.V())
    ensures r.Some? ==> r.value == Closure(s, Elems(have)) && CommitsOnly(s, Elems(have)) && Elems(have) <= s.Keys
  {
    hide Closure, Truthful;
    if have == [] {
      NoHaves(s);
      return Some({});
    }
    for i := 0 to |packs| {
      r := packs[i].HaveReachable(have);
      if r.Some? {
        forall x ensures x in r.value <==> x in Closure(s, Elems(have)) {
          BitmapMatchesWalker(s, packs[i].V(), have, x);
        }
        ClosureInPack(s, packs[i].V(), have);
        return;
      }
    }
    r := None;
  }

  lemma NoHaves(s: Store)
    ensures Elems<Oid>([]) == {} && Closure(s, {}) == {}
  {
    ReachInClosed(ObjectGraph(s), {}, {});
  }

  /**
    The whole choice.  Whatever path is taken, a plain request for commits gets the difference
    of the closures, and any other request gets what the walk with the walked have-set selects.
   */
  method BuildPack(s: Store, want: seq<Oid>, have: seq<Oid>, deepen: Option<nat>, filter: Filter, thinPack: bool,
                   packs: seq<PackBitmap>, haveWalk: Traversal, wantWalk: Traversal)
    returns (r: Fetch)
    requires Typed(s) && forall b :: b in packs ==> b.Valid() && Truthful(s, b.V())
    requires IsTraversal(CommitGraph(s), Elems(have), {}, haveWalk)
    requires IsTraversal(CommitGraph(s), Elems(CommitWants(s, want)), Elems(have), wantWalk)
    ensures r.Fetched? ==>
      r.objects == Filtered(s, CommitsFor(s, want, have, deepen), DirectWants(s, want), Closure(s, Elems(have)), filter)
    ensures r.Fetched? ==> forall x :: x in want && x in s && !s[x].Commit? ==> x in r.objects
    ensures r.Fetched? && deepen.None? && filter.NoFilter? && CommitsOnly(s, Elems(want)) ==>
      r.objects == Closure(s, Elems(want)) - Closure(s, Elems(have))
    ensures r.Fetched? ==> Distinct(r.shallow) && forall x :: x in r.shallow <==>
      deepen.Some? && AtBoundary(CommitGraph(s), Elems(CommitWants(s, want)), Elems(have), Levels(deepen.value), x)
    ensures Complete(s) && Elems(want) <= s.Keys && Elems(have) <= CommitGraph(s).Keys ==> r.Fetched?
  {
    hide Typed, Complete, Closure, Truthful, Selected, IsTraversal, CommitWants, DirectWants, Reusable, Elems;
    hide CommitGraph, AtBoundary, Distinct;
    DirectAreSent(s, want, CommitsFor(s, want, have, deepen), Closure(s, Elems(have)), filter);
    if deepen.None? && filter.NoFilter? && !thinPack {
      var pack := FindReusablePack(packs, want, have);
      if pack.Some? {
        ShippedPack(s, packs[pack.value].V(), want, have);
        NothingListed();
        return Fetched(OidsOf(packs[pack.value].offsetPosToOid), []);
      }
    }
    var haveSet := TryBitmapHaveSet(s, packs, have);
    if haveSet.None? {
      haveSet := BuildHaveSet(s, have, haveWalk);
      if haveSet.None? {
        return Failed;
      }
      HavesAreCommits(s, have);
    }
    r := ObjectsForFetchWithHaveSet(s, want, have, deepen, filter, haveSet.value, wantWalk);
    if r.Fetched? && deepen.None? && filter.NoFilter? && CommitsOnly(s, Elems(want)) {
      PlainRequest(s, want, have);
    }
  }

  lemma NothingListed()
    ensures Distinct<Oid>([])
  {
  }

  lemma PlainRequest(s: Store, want: seq<Oid>, have: seq<Oid>)
    requires Typed(s) && CommitsOnly(s, Elems(want)) && CommitsOnly(s, Elems(have))
    requires Elems(have) == {} || CommitsFor(s, want, have, None) <= s.Keys
    ensures Filtered(s, CommitsFor(s, want, have, None), DirectWants(s, want), Closure(s, Elems(have)), NoFilter)
         == Closure(s, Elems(want)) - Closure(s, Elems(have))
  {
    hide ReachSet, Reach, Selected, CommitWants, DirectWants;
    WantsSplit(s, want);
    NoDirectWants(s, want);
    assert Elems(want) - {} == Elems(want);
    NoHaves(s);
    CommitRequestIsExact(s, Elems(want), Elems(have));
  }

  lemma ShippedPack(s: Store, v: View, want: seq<Oid>, have: seq<Oid>)
    requires Typed(s) && Truthful(s, v) && Reusable(v, want, have)
    ensures CommitsOnly(s, Elems(want))
    ensures PackOids(v) == Closure(s, Elems(want)) - Closure(s, Elems(have))
    ensures PackOids(v)
         == Filtered(s, CommitsFor(s, want, have, None), DirectWants(s, want), Closure(s, Elems(have)), NoFilter)
  {
    hide ReachSet, Reach, UnionBit, TrueBit, Covers, Filtered, CommitsFor, OidsOf;
    ClosureInPack(s, v, want);
    ClosureInPack(s, v, have);
    ReuseIsExact(s, v, want, have);
    ReachSetClosed(ObjectGraph(s), Elems(have));
    assert Elems(have) <= PackOids(v) && Elems(have) == {};
    PlainRequest(s, want, have);
  }

  /** The bitmap of a pack that holds one commit and its empty tree. */
  function OneCommitView(commit: Oid, tree: Oid): View {
    View([PackBitmaps.Entry(0, 0, Ewah(2, [0, 1]))], 2, map[commit := 0], [Some(commit), Some(tree)])
  }

  /** There are such bitmaps, and packs that are shipped as they are. */
  lemma OneCommitPack(commit: Oid, tree: Oid)
    requires commit != tree
    ensures var s: Store, v := map[commit := Commit(tree, []), tree := Tree([])], OneCommitView(commit, tree);
      && Typed(s) && Complete(s) && Truthful(s, v) && Reusable(v, [commit], [])
      && PackOids(v) == {commit, tree} == Closure(s, {commit}) - Closure(s, {})
  {
    var s: Store, v := map[commit := Commit(tree, []), tree := Tree([])], OneCommitView(commit, tree);
    OneCommitClosure(commit, tree);
    NoHaves(s);
    hide Closure;
    assert v.table[0].value == commit && v.table[1].value == tree;
    assert PackOids(v) == {commit, tree};
    assert TrueBit(v, 0, 0) && TrueBit(v, 0, 1);
    assert forall p: nat :: p < 2 ==> UnionBit(v, [commit], p) && !UnionBit(v, [], p);
  }

  lemma OneCommitClosure(commit: Oid, tree: Oid)
    requires commit != tree
    ensures Closure(map[commit := Commit(tree, []), tree := Tree([])], {commit}) == {commit, tree}
  {
    var s: Store := map[commit := Commit(tree, []), tree := Tree([])];
    assert References(s[commit]) == [tree] && References(s[tree]) == [];
    hide Reach, ReachSet;
    ReachSetClosed(ObjectGraph(s), {commit});
    assert tree in Succ(ObjectGraph(s), commit);
    ReachInClosed(ObjectGraph(s), {commit}, {commit, tree});
  }
}
