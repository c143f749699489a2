/**
  The object database as a finite map, and the three graphs read off it.
 */
module ObjectStore {
  import opened ObjectIds
  import opened Wrappers
  import opened Sequences
  import opened Graphs

  /** A tree entry; an entry that is not a tree is a blob, or a gitlink to another repository. */
  datatype Entry = Entry(oid: Oid, isTree: bool)

  /** A blob's `shape` is the tree its bytes name, if they happen to read as a commit. */
  datatype Object =
    | Commit(tree: Oid, parents: seq<Oid>)
    | Tree(entries: seq<Entry>)
    | Blob(shape: Option<Oid>)
    | Tag(target: Oid)

  type Store = map<Oid, Object>

  predicate IsCommit(s: Store, x: Oid) { x in s && s[x].Commit? }

  predicate IsTree(s: Store, x: Oid) { x in s && s[x].Tree? }

  /** The ids a tree walk visits in one tree, in entry order. */
  function EntryOids(entries: seq<Entry>, skipBlobs: bool): seq<Oid> {
    if entries == [] then []
    else
      var before, e := entries[..|entries| - 1], entries[|entries| - 1];
      EntryOids(before, skipBlobs) + if skipBlobs && !e.isTree then [] else [e.oid]
  }

  lemma {:induction false} EntryOidsElems(entries: seq<Entry>, skipBlobs: bool)
    ensures Elems(EntryOids(entries, skipBlobs)) == set e | e in entries && (e.isTree || !skipBlobs) :: e.oid
  {
    if entries != [] {
      var before, e := entries[..|entries| - 1], entries[|entries| - 1];
      EntryOidsElems(before, skipBlobs);
      assert entries == before + [e];
      ElemsAppend(EntryOids(before, skipBlobs), if skipBlobs && !e.isTree then [] else [e.oid]);
    }
  }

  /** Commit to parents. */
  function CommitGraph(s: Store): Graph {
    map x | x in s && s[x].Commit? :: s[x].parents
  }

  /** Tree to entries; with `skipBlobs`, to its subtrees only. */
  function TreeGraph(s: Store, skipBlobs: bool): Graph {
    map x | x in s && s[x].Tree? :: EntryOids(s[x].entries, skipBlobs)
  }

  function References(o: Object): seq<Oid> {
    match o
    case Commit(tree, parents) => [tree] + parents
    case Tree(entries) => EntryOids(entries, false)
    case Blob(_) => []
    case Tag(target) => [target]
  }

  /** Every reference of every object: what "reachable" means to a client. */
  function ObjectGraph(s: Store): Graph {
    map x | x in s :: References(s[x])
  }

  /** Stored objects have the type their referrers expect, as an id fixes its object's type. */
  ghost predicate Typed(s: Store) {
    forall x :: x in s ==>
      match s[x]
      case Commit(tree, parents) =>
        && (tree in s ==> s[tree].Tree?)
        && (forall p :: p in parents && p in s ==> s[p].Commit?)
      case Tree(entries) =>
        forall e :: e in entries && e.oid in s ==> if e.isTree then s[e.oid].Tree? else s[e.oid].Blob?
      case Blob(_) => true
      case Tag(_) => true
  }

  /** Nothing a walk needs to read is missing; blobs and gitlinks are never read. */
  ghost predicate Complete(s: Store) {
    forall x :: x in s ==>
      match s[x]
      case Commit(tree, parents) => tree in s && forall p :: p in parents ==> p in s
      case Tree(entries) => forall e :: e in entries && e.isTree ==> e.oid in s
      case Blob(_) => true
      case Tag(_) => true
  }

  /** None of the ids is a stored non-commit. */
  ghost predicate CommitsOnly(s: Store, tips: set<Oid>) {
    forall x :: x in tips && x in s ==> s[x].Commit?
  }

  /** Root trees of the stored commits among `commits`. */
  ghost function Roots(s: Store, commits: set<Oid>): set<Oid> {
    set c | c in commits && IsCommit(s, c) :: s[c].tree
  }

  ghost function Ancestors(s: Store, tips: set<Oid>): set<Oid> {
    ReachSet(CommitGraph(s), tips)
  }

  /** Everything a client that has `tips` has. */
  ghost function Closure(s: Store, tips: set<Oid>): set<Oid> {
    ReachSet(ObjectGraph(s), tips)
  }

  /** Ids that a tree walk may meet: never a stored commit or tag. */
  ghost predicate Leafy(s: Store, x: Oid) {
    x in s ==> s[x].Tree? || s[x].Blob?
  }

  lemma TreeSucc(s: Store, x: Oid, y: Oid)
    requires y in Succ(TreeGraph(s, false), x)
    ensures IsTree(s, x) && exists e :: e in s[x].entries && e.oid == y
  {
    EntryOidsElems(s[x].entries, false);
    assert y in Elems(EntryOids(s[x].entries, false));
  }

  lemma TreeSuccLeafy(s: Store, x: Oid, y: Oid)
    requires Typed(s) && y in Succ(TreeGraph(s, false), x)
    ensures Leafy(s, y)
  {
    TreeSucc(s, x, y);
  }

  /** Commits reach only commits through parent edges. */
  lemma AncestorsAreCommits(s: Store, tips: set<Oid>)
    requires Typed(s) && CommitsOnly(s, tips)
    ensures CommitsOnly(s, Ancestors(s, tips))
  {
    hide Typed;
    var g := CommitGraph(s);
    var commits := set x | x in ReachSet(g, tips) && (x in s ==> s[x].Commit?);
    ReachSetClosed(g, tips);
    forall x, y | x in commits && y in Succ(g, x) ensures y in commits { ParentIsCommit(s, x, y); }
    ReachInClosed(g, tips, commits);
  }

  lemma ParentIsCommit(s: Store, x: Oid, y: Oid)
    requires Typed(s) && y in Succ(CommitGraph(s), x)
    ensures y in s ==> s[y].Commit?
  {
  }

  lemma RootsLeafy(s: Store, commits: set<Oid>)
    requires Typed(s)
    ensures forall x :: x in Roots(s, commits) ==> Leafy(s, x)
  {
  }

  /** Tree walks started at root trees meet only trees, blobs and absent ids. */
  lemma TreeWalkLeafy(s: Store, g: Graph, roots: set<Oid>)
    requires Typed(s)
    requires forall x, y :: y in Succ(g, x) ==> y in Succ(TreeGraph(s, false), x)
    requires forall x :: x in roots ==> Leafy(s, x)
    ensures forall x :: x in ReachSet(g, roots) ==> Leafy(s, x)
  {
    hide Typed, Leafy, TreeGraph;
    ReachSetClosed(g, roots);
    var leafy := set x | x in ReachSet(g, roots) && Leafy(s, x);
    forall x, y | x in leafy && y in Succ(g, x) ensures y in leafy { TreeSuccLeafy(s, x, y); }
    ReachInClosed(g, roots, leafy);
  }
}
