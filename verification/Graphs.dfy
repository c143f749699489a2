/**
  Object ids, and reachability over finite directed graphs whose nodes are object ids.

  Every walk of the server (commit history, trees, whole object closure) is a walk over
  some `Graph`; what it must compute is stated with `Reach`, which knows nothing of queues
  or visited sets.
 */
module ObjectIds {

  newtype byte = x: int | 0 <= x < 256

  /** A SHA-1 object id, as the 160-bit number its twenty bytes spell. */
  newtype Oid = n: int | 0 <= n < 0x1_0000000000_0000000000_0000000000_0000000000

  /** The all-zero id, which stands for "no object" in ref updates. */
  const NULL_OID: Oid := 0
}

/** The bytes that structure git's text formats. */
module Ascii {
  import opened ObjectIds

  const NUL: byte := 0
  const NEWLINE: byte := 10
  const RETURN: byte := 13
  const SPACE: byte := 32
  const PLUS: byte := 43
}

module Wrappers {

  datatype Option<+T> = None | Some(value: T)
}

module Sequences {

  function Elems<T>(s: seq<T>): set<T> {
    set x | x in s
  }

  ghost predicate Distinct<T>(s: seq<T>) {
    forall i, j :: 0 <= i < j < |s| ==> s[i] != s[j]
  }

  lemma ElemsAppend<T>(a: seq<T>, b: seq<T>)
    ensures Elems(a + b) == Elems(a) + Elems(b)
  {
  }

  lemma ElemsTake<T>(s: seq<T>, i: nat)
    requires i < |s|
    ensures s[..i + 1][..i] == s[..i]
    ensures Elems(s[..i + 1]) == Elems(s[..i]) + {s[i]}
    ensures Elems(s[..i + 1]) <= Elems(s)
  {
  }

  lemma SnocDistinct<T>(s: seq<T>, x: T)
    requires Distinct(s) && x !in Elems(s)
    ensures Distinct(s + [x]) && Elems(s + [x]) == Elems(s) + {x}
  {
    assert forall i :: 0 <= i < |s| ==> s[i] in Elems(s);
  }

  lemma {:induction false} DistinctLength<T>(s: seq<T>)
    requires Distinct(s)
    ensures |Elems(s)| == |s|
  {
    if s == [] {
    } else {
      var last := |s| - 1;
      DistinctLength(s[..last]);
      assert Elems(s) == Elems(s[..last]) + {s[last]};
    }
  }

  lemma {:induction false} SubsetSize<T>(a: set<T>, b: set<T>)
    requires a <= b
    ensures |a| <= |b|
  {
    if x :| x in a {
      SubsetSize(a - {x}, b - {x});
    }
  }

  /** A finite set can be listed. */
  lemma {:induction false} Listing<T>(s: set<T>) returns (list: seq<T>)
    ensures Elems(list) == s
    decreases |s|
  {
    list := [];
    if s != {} {
      var x :| x in s;
      var rest := Listing(s - {x});
      list := rest + [x];
      ElemsAppend(rest, [x]);
      assert Elems([x]) == {x};
    }
  }

  /** Position of the first `x`, or the length. */
  function Find<T(==)>(s: seq<T>, x: T): (i: nat)
    ensures i <= |s| && (forall k :: 0 <= k < i ==> s[k] != x) && (i < |s| ==> s[i] == x)
  {
    if s == [] || s[0] == x then 0 else 1 + Find(s[1..], x)
  }

  /** The contract of `Find` leaves it no choice. */
  lemma FindAt<T>(before: seq<T>, x: T, s: seq<T>)
    requires x !in before && before <= s
    requires |s| == |before| || s[|before|] == x
    ensures Find(s, x) == |before|
  {
    assert forall k :: 0 <= k < |before| ==> s[k] == before[k] != x;
  }
}

module Graphs {
  import opened ObjectIds

  /** Out-edges of every node that has an entry; a node without an entry has none. */
  type Graph = map<Oid, seq<Oid>>

  function Succ(g: Graph, x: Oid): seq<Oid> {
    if x in g then g[x] else []
  }

  /** `x` is the end of a walk of exactly `n` edges that starts in `from`. */
  ghost predicate Steps(g: Graph, from: set<Oid>, x: Oid, n: nat)
    decreases n
  {
    if n == 0 then x in from
    else exists y: Oid :: Steps(g, from, y, n - 1) && x in Succ(g, y)
  }

  ghost predicate Reach(g: Graph, from: set<Oid>, x: Oid) {
    exists n: nat :: Steps(g, from, x, n)
  }

  /** Every node some edge points to. */
  ghost function Targets(g: Graph): set<Oid> {
    set k, i | k in g && 0 <= i < |g[k]| :: g[k][i]
  }

  ghost function ReachSet(g: Graph, from: set<Oid>): (r: set<Oid>)
    ensures forall x :: x in r <==> Reach(g, from, x)
  {
    assert forall x, n: nat :: Steps(g, from, x, n) ==> x in from + Targets(g);
    set x | x in from + Targets(g) && Reach(g, from, x)
  }

  ghost predicate Closed(g: Graph, s: set<Oid>) {
    forall x, y :: x in s && y in Succ(g, x) ==> y in s
  }

  /** `s` is closed, except that the nodes of `pending` have not been expanded yet. */
  ghost predicate ClosedExcept(g: Graph, s: set<Oid>, pending: set<Oid>) {
    forall x, y :: x in s && x !in pending && y in Succ(g, x) ==> y in s
  }

  lemma ReachStart(g: Graph, from: set<Oid>, x: Oid)
    requires x in from
    ensures Reach(g, from, x)
  {
    assert Steps(g, from, x, 0);
  }

  lemma ReachStep(g: Graph, from: set<Oid>, x: Oid, y: Oid)
    requires Reach(g, from, x) && y in Succ(g, x)
    ensures Reach(g, from, y)
  {
    var n: nat :| Steps(g, from, x, n);
    assert Steps(g, from, y, n + 1);
  }

  lemma ReachSetClosed(g: Graph, from: set<Oid>)
    ensures from <= ReachSet(g, from)
    ensures Closed(g, ReachSet(g, from))
  {
    forall x | x in from ensures x in ReachSet(g, from) { ReachStart(g, from, x); }
    forall x, y | x in ReachSet(g, from) && y in Succ(g, x) ensures y in ReachSet(g, from) {
      ReachStep(g, from, x, y);
    }
  }

  lemma {:induction false} StepsInClosed(g: Graph, from: set<Oid>, s: set<Oid>, x: Oid, n: nat)
    requires from <= s && Closed(g, s)
    requires Steps(g, from, x, n)
    ensures x in s
    decreases n
  {
    if n > 0 {
      var y :| Steps(g, from, y, n - 1) && x in Succ(g, y);
      StepsInClosed(g, from, s, y, n - 1);
    }
  }

  /** `Reach` is the least closed set around `from`: the fact every walk's completeness rests on. */
  lemma ReachInClosed(g: Graph, from: set<Oid>, s: set<Oid>)
    requires from <= s && Closed(g, s)
    ensures ReachSet(g, from) <= s
  {
    forall x | Reach(g, from, x) ensures x in s {
      var n: nat :| Steps(g, from, x, n);
      StepsInClosed(g, from, s, x, n);
    }
  }

  lemma ReachMonotone(g: Graph, a: set<Oid>, b: set<Oid>)
    requires a <= b
    ensures ReachSet(g, a) <= ReachSet(g, b)
  {
    ReachSetClosed(g, b);
    ReachInClosed(g, a, ReachSet(g, b));
  }

  lemma ReachUnion(g: Graph, a: set<Oid>, b: set<Oid>)
    ensures ReachSet(g, a + b) == ReachSet(g, a) + ReachSet(g, b)
  {
    ReachSetClosed(g, a);
    ReachSetClosed(g, b);
    ReachInClosed(g, a + b, ReachSet(g, a) + ReachSet(g, b));
    ReachMonotone(g, a, a + b);
    ReachMonotone(g, b, a + b);
  }

  /** Not walking on from a closed set loses nothing outside it. */
  lemma PruningLosesNothing(g: Graph, from: set<Oid>, pruned: set<Oid>)
    requires Closed(g, pruned)
    ensures ReachSet(g - pruned, from) - pruned == ReachSet(g, from) - pruned
  {
    hide ReachSet, Reach;
    ReachSetClosed(g - pruned, from);
    ReachSetClosed(g, from);
    assert forall x :: x !in pruned ==> Succ(g - pruned, x) == Succ(g, x);
    assert forall x :: x in pruned ==> Succ(g - pruned, x) == [];
    ReachInClosed(g, from, ReachSet(g - pruned, from) + pruned);
    ReachInClosed(g - pruned, from, ReachSet(g, from));
  }

  /** What a set of tips reaches, some single tip reaches. */
  lemma ReachFromOne(g: Graph, from: set<Oid>, x: Oid)
    ensures x in ReachSet(g, from) <==> exists tip :: tip in from && x in ReachSet(g, {tip})
  {
    hide ReachSet, Reach;
    ReachSetClosed(g, from);
    forall tip | tip in from
      ensures tip in ReachSet(g, {tip}) && Closed(g, ReachSet(g, {tip})) && ReachSet(g, {tip}) <= ReachSet(g, from)
    {
      ReachSetClosed(g, {tip});
      ReachMonotone(g, {tip}, from);
    }
    var covered := set y | y in ReachSet(g, from) && exists tip :: tip in from && y in ReachSet(g, {tip});
    ReachInClosed(g, from, covered);
  }

  /** Walking a graph that agrees on everything reached reaches the same. */
  lemma ReachAgrees(g: Graph, g': Graph, from: set<Oid>)
    requires forall x :: x in ReachSet(g, from) ==> Succ(g', x) == Succ(g, x)
    ensures ReachSet(g', from) == ReachSet(g, from)
  {
    hide ReachSet, Reach, Succ;
    ReachSetClosed(g, from);
    ReachInClosed(g', from, ReachSet(g, from));
    ReachSetClosed(g', from);
    ReachInClosed(g, from, ReachSet(g, from) * ReachSet(g', from));
  }
}
