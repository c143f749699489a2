/**
  The comparison a forge sees during a push: which commits each ref introduces, which it
  loses, and how the update is classified.
 */
module Comparison {
  import opened ObjectIds
  import opened Wrappers
  import opened Sequences
  import opened Graphs
  import opened CommitWalks
  import opened Keys
  import opened Refs

  datatype PushKind = Create | Delete | FastForward | ForcePush

  /** Classification of one update, with the early-exit ancestor search. */
  method ComputePushKind(g: Graph, oldOid: Oid, newOid: Oid) returns (kind: PushKind)
    ensures kind == KindOf(g, oldOid, newOid)
    ensures oldOid == NULL_OID ==> kind == Create
    ensures oldOid != NULL_OID && newOid == NULL_OID ==> kind == Delete
    ensures oldOid != NULL_OID && newOid != NULL_OID ==>
      kind == if Reach(g, {newOid}, oldOid) then FastForward else ForcePush
  {
    if oldOid == NULL_OID {
      return Create;
    }
    if newOid == NULL_OID {
      return Delete;
    }
    var found := IsAncestor(g, oldOid, newOid);
    kind := if found then FastForward else ForcePush;
  }

  ghost function KindOf(g: Graph, oldOid: Oid, newOid: Oid): PushKind {
    if oldOid == NULL_OID then Create
    else if newOid == NULL_OID then Delete
    else if Reach(g, {newOid}, oldOid) then FastForward
    else ForcePush
  }

  /** New tips of the refs, leaving out deletions. */
  function NewTips(refs: seq<RefUpdate>): seq<Oid> {
    if refs == [] then []
    else
      var last := refs[|refs| - 1];
      NewTips(refs[..|refs| - 1]) + if last.newOid == NULL_OID then [] else [last.newOid]
  }

  lemma {:induction false} NewTipsElems(refs: seq<RefUpdate>)
    ensures forall x :: x in NewTips(refs) <==> x != NULL_OID && exists i :: 0 <= i < |refs| && refs[i].newOid == x
  {
    if refs != [] {
      NewTipsElems(refs[..|refs| - 1]);
    }
  }

  /** The refs of a push and what they are compared with; `readable` are the ids that read as commits. */
  datatype Basis = Basis(graph: Graph, readable: set<Oid>, refs: seq<RefUpdate>, existing: seq<Oid>, cap: nat)

  /** What a forge is told: commits, or why it is told none. */
  datatype Answer = Commits(oids: seq<Oid>) | TooMany(limit: nat) | Unreadable(oid: Oid)

  /** The walk behind `new_commits` for the ref at position `idx`. */
  ghost function NewWalk(b: Basis, idx: nat, tip: Oid): Reachable
    requires idx <= |b.refs|
  {
    if tip == NULL_OID then Listed([])
    else KvReachable(b.graph, [tip], b.existing + NewTips(b.refs[..idx]), b.cap)
  }

  ghost function DroppedWalk(b: Basis, oldOid: Oid, newOid: Oid): Reachable {
    if oldOid == NULL_OID then Listed([])
    else KvReachable(b.graph, [oldOid], if newOid == NULL_OID then [] else [newOid], b.cap)
  }

  /** Position of the first id that does not read as a commit, or the number of ids. */
  function FirstUnreadable(readable: set<Oid>, oids: seq<Oid>): (i: nat)
    ensures i <= |oids| && (i < |oids| ==> oids[i] !in readable)
    ensures forall k :: 0 <= k < i ==> oids[k] in readable
  {
    if oids == [] || oids[0] !in readable then 0 else 1 + FirstUnreadable(readable, oids[1..])
  }

  /** Every listed commit is read; the first that cannot be is the whole answer. */
  function Told(readable: set<Oid>, walk: Reachable): Answer {
    match walk
    case CapExceeded(limit) => TooMany(limit)
    case Listed(oids) =>
      var i := FirstUnreadable(readable, oids);
      if i == |oids| then Commits(oids) else Unreadable(oids[i])
  }

  predicate Named(refs: seq<RefUpdate>, name: Bytes) {
    exists i :: 0 <= i < |refs| && refs[i].refname == name
  }

  /** Position of the first ref of that name, or the number of refs. */
  function FirstNamed(refs: seq<RefUpdate>, name: Bytes): (i: nat)
    ensures i <= |refs| && (i < |refs| ==> refs[i].refname == name)
    ensures forall j :: 0 <= j < i ==> refs[j].refname != name
  {
    if refs == [] || refs[0].refname == name then 0 else 1 + FirstNamed(refs[1..], name)
  }

  /** One cell per ref, filled at most once. */
  type Cells = seq<Option<Answer>>

  /** What a query about a ref of this name answers: the cell of its first ref, or else a new walk. */
  function Reply(refs: seq<RefUpdate>, cells: Cells, name: Bytes, answer: Answer): Answer
    requires |cells| == |refs| && Named(refs, name)
  {
    var cell := cells[FirstNamed(refs, name)];
    if cell.Some? then cell.value else answer
  }

  function Refilled(refs: seq<RefUpdate>, cells: Cells, name: Bytes, answer: Answer): (cells': Cells)
    requires |cells| == |refs| && Named(refs, name)
    ensures |cells'| == |cells|
  {
    cells[FirstNamed(refs, name) := Some(Reply(refs, cells, name, answer))]
  }

  /** Lazily computed, cached answers. */
  class ConcreteComparison {
    const basis: Basis
    var newCells: Cells
    var droppedCells: Cells

    ghost predicate Valid()
      reads this
    {
      |newCells| == |basis.refs| && |droppedCells| == |basis.refs|
    }

    constructor (basis: Basis)
      ensures Valid() && this.basis == basis && newCells == NoCells(basis.refs) && droppedCells == NoCells(basis.refs)
    {
      this.basis := basis;
      newCells, droppedCells := NoCells(basis.refs), NoCells(basis.refs);
    }

    /** The first ref of that name; the source panics if there is none. */
    method RefIndex(r: RefUpdate) returns (idx: nat)
      requires Named(basis.refs, r.refname)
      ensures idx < |basis.refs| && idx == FirstNamed(basis.refs, r.refname)
    {
      idx := 0;
      while basis.refs[idx].refname != r.refname
        invariant idx < |basis.refs| && forall j :: 0 <= j < idx ==> basis.refs[j].refname != r.refname
        decreases |basis.refs| - idx
      {
        idx := idx + 1;
      }
    }

    /** Look up every commit of a walk. */
    method ReadCommits(walk: Reachable) returns (answer: Answer)
      ensures answer == Told(basis.readable, walk)
    {
      if walk.CapExceeded? {
        return TooMany(walk.limit);
      }
      for i := 0 to |walk.oids|
        invariant forall k :: 0 <= k < i ==> walk.oids[k] in basis.readable
      {
        if walk.oids[i] !in basis.readable {
          return Unreadable(walk.oids[i]);
        }
      }
      answer := Commits(walk.oids);
    }

    /** Commits the ref introduces; the cell is filled and no other cell changes. */
    method NewCommits(r: RefUpdate) returns (answer: Answer)
      requires Valid() && Named(basis.refs, r.refname)
      modifies this`newCells
      ensures Valid()
      ensures var told := Told(basis.readable, NewWalk(basis, FirstNamed(basis.refs, r.refname), r.newOid));
        && answer == Reply(basis.refs, old(newCells), r.refname, told)
        && newCells == Refilled(basis.refs, old(newCells), r.refname, told)
    {
      hide KvReachable, Told;
      var i := RefIndex(r);
      if newCells[i].Some? {
        answer := newCells[i].value;
        assert newCells == newCells[i := Some(answer)];
        return;
      }
      var walk := Listed([]);
      if r.newOid != NULL_OID {
        var excluding := basis.existing;
        for j := 0 to i
          invariant excluding == basis.existing + NewTips(basis.refs[..j])
        {
          assert basis.refs[..j + 1][..j] == basis.refs[..j];
          if basis.refs[j].newOid != NULL_OID {
            excluding := excluding + [basis.refs[j].newOid];
          }
        }
        walk := ReachableExcluding(basis.graph, [r.newOid], excluding, basis.cap);
      }
      answer := ReadCommits(walk);
      newCells := newCells[i := Some(answer)];
    }

    /** Commits the ref loses; the cell is filled and no other cell changes. */
    method DroppedCommits(r: RefUpdate) returns (answer: Answer)
      requires Valid() && Named(basis.refs, r.refname)
      modifies this`droppedCells
      ensures Valid()
      ensures var told := Told(basis.readable, DroppedWalk(basis, r.oldOid, r.newOid));
        && answer == Reply(basis.refs, old(droppedCells), r.refname, told)
        && droppedCells == Refilled(basis.refs, old(droppedCells), r.refname, told)
    {
      hide KvReachable, Told;
      var i := RefIndex(r);
      if droppedCells[i].Some? {
        answer := droppedCells[i].value;
        assert droppedCells == droppedCells[i := Some(answer)];
        return;
      }
      var walk := Listed([]);
      if r.oldOid != NULL_OID {
        walk := ReachableExcluding(
          basis.graph, [r.oldOid], if r.newOid == NULL_OID then [] else [r.newOid], basis.cap);
      }
      answer := ReadCommits(walk);
      droppedCells := droppedCells[i := Some(answer)];
    }

    /** A forge that asks about some of the push's refs, in any order and as often as it likes. */
    method Ask(queries: seq<nat>) returns (answers: seq<Answer>)
      requires Valid() && InPush(basis.refs, queries)
      modifies this`newCells
      ensures Valid() && answers == Replies(basis, old(newCells), queries)
    {
      hide NewWalk, Reply, Refilled, Told;
      answers := [];
      for i := 0 to |queries|
        invariant Valid()
        invariant answers + Replies(basis, newCells, queries[i..]) == Replies(basis, old(newCells), queries)
      {
        assert queries[i..][1..] == queries[i + 1..] && queries[i..][0] == queries[i];
        ghost var rest := Replies(basis, newCells, queries[i..]);
        var answer := NewCommits(basis.refs[queries[i]]);
        assert rest == [answer] + rest[1..];
        answers := answers + [answer];
      }
    }
  }

  function NoCells(refs: seq<RefUpdate>): Cells {
    seq(|refs|, _ => None)
  }

  predicate InPush(refs: seq<RefUpdate>, queries: seq<nat>) {
    forall k :: 0 <= k < |queries| ==> queries[k] < |refs|
  }

  /** The answers to queries about the push's own refs, one after the other. */
  ghost function Replies(b: Basis, cells: Cells, queries: seq<nat>): (replies: seq<Answer>)
    requires |cells| == |b.refs| && InPush(b.refs, queries)
    ensures |replies| == |queries|
    decreases |queries|
  {
    if queries == [] then []
    else
      var r := b.refs[queries[0]];
      var told := Told(b.readable, NewWalk(b, FirstNamed(b.refs, r.refname), r.newOid));
      [Reply(b.refs, cells, r.refname, told)]
      + Replies(b, Refilled(b.refs, cells, r.refname, told), queries[1..])
  }

  ghost function AllReplies(b: Basis, queries: seq<nat>): (replies: seq<Answer>)
    requires InPush(b.refs, queries)
    ensures |replies| == |queries|
  {
    Replies(b, NoCells(b.refs), queries)
  }

  /** The history of a ref's new tip; a deletion has none. */
  ghost function History(g: Graph, tip: Oid): set<Oid> {
    if tip == NULL_OID then {} else ReachSet(g, {tip})
  }

  lemma WalkElems(g: Graph, from: seq<Oid>, excluding: seq<Oid>, cap: nat)
    requires from != [] && KvReachable(g, from, excluding, cap).Listed?
    ensures var oids := KvReachable(g, from, excluding, cap).oids;
      Distinct(oids) && Elems(oids) == ReachSet(g, Elems(from)) - ReachSet(g, Elems(excluding))
  {
    ListedIsExact(g, from, excluding);
  }

  /** Reachable from the earlier tips together means in the history of one of them. */
  lemma {:induction false} EarlierHistories(g: Graph, refs: seq<RefUpdate>, i: nat, x: Oid)
    requires i <= |refs|
    ensures x in ReachSet(g, Elems(NewTips(refs[..i]))) <==> exists j :: 0 <= j < i && x in History(g, refs[j].newOid)
  {
    hide ReachSet, Reach;
    if i == 0 {
      assert refs[..0] == [];
      ReachNothing(g);
    } else {
      var last := refs[i - 1].newOid;
      EarlierHistories(g, refs, i - 1, x);
      assert refs[..i][..i - 1] == refs[..i - 1];
      var rest := if last == NULL_OID then [] else [last];
      assert NewTips(refs[..i]) == NewTips(refs[..i - 1]) + rest;
      ElemsAppend(NewTips(refs[..i - 1]), rest);
      ReachNothing(g);
      assert last != NULL_OID ==> Elems(rest) == {last};
      ReachUnion(g, Elems(NewTips(refs[..i - 1])), Elems(rest));
    }
  }

  /** What the ref at a position adds to the commit graph of untouched refs and earlier new tips. */
  ghost function Brought(g: Graph, refs: seq<RefUpdate>, existing: seq<Oid>, i: nat): set<Oid>
    requires i < |refs|
  {
    History(g, refs[i].newOid) - ReachSet(g, Elems(existing) + Elems(NewTips(refs[..i])))
  }

  ghost function Brings(b: Basis, i: nat): set<Oid>
    requires i < |b.refs|
  {
    Brought(b.graph, b.refs, b.existing, i)
  }

  ghost function OwnAnswer(b: Basis, i: nat): Answer
    requires i < |b.refs|
  {
    Told(b.readable, NewWalk(b, i, b.refs[i].newOid))
  }

  lemma ToldIff(readable: set<Oid>, walk: Reachable)
    requires walk.Listed?
    ensures Told(readable, walk).Commits? <==> Elems(walk.oids) <= readable
    ensures Told(readable, walk).Commits? ==> Told(readable, walk).oids == walk.oids
    ensures !Told(readable, walk).TooMany?
    ensures Told(readable, walk).Unreadable? ==> Told(readable, walk).oid in Elems(walk.oids) - readable
  {
    var i := FirstUnreadable(readable, walk.oids);
    if i < |walk.oids| { assert walk.oids[i] in Elems(walk.oids); }
    assert forall x :: x in Elems(walk.oids) ==> exists k :: 0 <= k < |walk.oids| && walk.oids[k] == x;
  }

  /** A ref is answered with what it adds, once each, exactly if all of that reads as commits. */
  lemma AnswerIsBrought(b: Basis, i: nat)
    requires i < |b.refs| && !OwnAnswer(b, i).TooMany?
    ensures OwnAnswer(b, i).Commits? <==> Brings(b, i) <= b.readable
    ensures OwnAnswer(b, i).Commits? ==>
      Distinct(OwnAnswer(b, i).oids) && Elems(OwnAnswer(b, i).oids) == Brings(b, i)
    ensures OwnAnswer(b, i).Unreadable? ==> OwnAnswer(b, i).oid in Brings(b, i) - b.readable
  {
    hide ReachSet, Reach, KvReachable, Told;
    var tip, earlier := b.refs[i].newOid, NewTips(b.refs[..i]);
    var walk := NewWalk(b, i, tip);
    assert walk.Listed? by { CapIsTold(b.readable, walk); }
    ToldIff(b.readable, walk);
    if tip != NULL_OID {
      WalkElems(b.graph, [tip], b.existing + earlier, b.cap);
      ElemsAppend(b.existing, earlier);
      assert Elems([tip]) == {tip};
    }
  }

  /** The answer for a ref is cut short exactly if the cap is too low for what is excluded or for what is added. */
  lemma AnswerIsCutIff(b: Basis, i: nat)
    requires i < |b.refs|
    ensures OwnAnswer(b, i).TooMany? <==>
      b.refs[i].newOid != NULL_OID
      && (|ReachSet(b.graph, Elems(b.existing) + Elems(NewTips(b.refs[..i])))| > b.cap || |Brings(b, i)| > b.cap)
  {
    hide ReachSet, Reach, Told;
    var tip, earlier := b.refs[i].newOid, NewTips(b.refs[..i]);
    CapIsTold(b.readable, NewWalk(b, i, tip));
    ElemsAppend(b.existing, earlier);
    assert Elems([tip]) == {tip};
  }

  lemma CapIsTold(readable: set<Oid>, walk: Reachable)
    ensures walk.CapExceeded? <==> Told(readable, walk).TooMany?
  {
  }

  /** A commit belongs to the first ref of the push that reaches it, if no untouched ref does. */
  lemma FirstToBring(g: Graph, refs: seq<RefUpdate>, existing: seq<Oid>, i: nat, x: Oid)
    requires i < |refs|
    ensures x in Brought(g, refs, existing, i) <==>
      && x in History(g, refs[i].newOid)
      && x !in ReachSet(g, Elems(existing))
      && forall j :: 0 <= j < i ==> x !in History(g, refs[j].newOid)
  {
    hide ReachSet, History;
    ReachUnion(g, Elems(existing), Elems(NewTips(refs[..i])));
    EarlierHistories(g, refs, i, x);
  }

  lemma BroughtIsDisjoint(g: Graph, refs: seq<RefUpdate>, existing: seq<Oid>, i: nat, j: nat)
    requires i < |refs| && j < |refs| && i != j
    ensures Brought(g, refs, existing, i) !! Brought(g, refs, existing, j)
  {
    hide ReachSet, History, Brought;
    forall x ensures x !in Brought(g, refs, existing, i) || x !in Brought(g, refs, existing, j) {
      FirstToBring(g, refs, existing, i, x);
      FirstToBring(g, refs, existing, j, x);
    }
  }

  lemma BroughtIsAll(g: Graph, refs: seq<RefUpdate>, existing: seq<Oid>, x: Oid)
    ensures (exists i :: 0 <= i < |refs| && x in Brought(g, refs, existing, i)) <==>
      x in ReachSet(g, Elems(NewTips(refs))) - ReachSet(g, Elems(existing))
  {
    hide ReachSet, History, Brought;
    EarlierHistories(g, refs, |refs|, x);
    assert refs[..|refs|] == refs;
    if x in ReachSet(g, Elems(NewTips(refs))) - ReachSet(g, Elems(existing)) {
      var i := FirstIn(g, refs, x, 0);
      FirstToBring(g, refs, existing, i, x);
    }
    forall i | 0 <= i < |refs| && x in Brought(g, refs, existing, i)
      ensures x in ReachSet(g, Elems(NewTips(refs))) - ReachSet(g, Elems(existing))
    {
      FirstToBring(g, refs, existing, i, x);
    }
  }

  lemma {:induction false} FirstIn(g: Graph, refs: seq<RefUpdate>, x: Oid, k: nat) returns (i: nat)
    requires k <= |refs| && exists j :: k <= j < |refs| && x in History(g, refs[j].newOid)
    requires forall j :: 0 <= j < k ==> x !in History(g, refs[j].newOid)
    ensures i < |refs| && x in History(g, refs[i].newOid)
    ensures forall j :: 0 <= j < i ==> x !in History(g, refs[j].newOid)
    decreases |refs| - k
  {
    hide History;
    if x in History(g, refs[k].newOid) {
      i := k;
    } else {
      i := FirstIn(g, refs, x, k + 1);
    }
  }

  lemma BringsNothingIff(g: Graph, refs: seq<RefUpdate>, existing: seq<Oid>, i: nat)
    requires i < |refs|
    ensures Brought(g, refs, existing, i) == {} <==>
      refs[i].newOid == NULL_OID || refs[i].newOid in ReachSet(g, Elems(existing) + Elems(NewTips(refs[..i])))
  {
    hide ReachSet, Reach;
    var tip, others := refs[i].newOid, Elems(existing) + Elems(NewTips(refs[..i]));
    ReachSetClosed(g, {tip});
    ReachSetClosed(g, others);
    if tip != NULL_OID {
      if tip in ReachSet(g, others) {
        ReachInClosed(g, {tip}, ReachSet(g, others));
      } else {
        assert tip in Brought(g, refs, existing, i);
      }
    }
  }

  /** The position whose cell answers for the ref at position `q`. */
  function Home(refs: seq<RefUpdate>, q: nat): (f: nat)
    requires q < |refs|
    ensures f <= q && refs[f].refname == refs[q].refname
  {
    FirstNamed(refs, refs[q].refname)
  }

  /** Every filled cell holds the answer for the ref at its position. */
  ghost predicate OwnCells(b: Basis, cells: Cells)
    requires |cells| == |b.refs|
  {
    forall i :: 0 <= i < |b.refs| && cells[i].Some? ==> cells[i].value == OwnAnswer(b, i)
  }

  /** No ref is asked about before the first ref of its name. */
  ghost predicate FirstAsked(refs: seq<RefUpdate>, cells: Cells, queries: seq<nat>)
    requires |cells| == |refs| && InPush(refs, queries)
  {
    forall k :: 0 <= k < |queries| ==> var f := Home(refs, queries[k]);
      f == queries[k] || cells[f].Some? || f in queries[..k]
  }

  lemma AskedStep(refs: seq<RefUpdate>, cells: Cells, queries: seq<nat>, told: Answer)
    requires |cells| == |refs| && InPush(refs, queries) && FirstAsked(refs, cells, queries) && queries != []
    ensures FirstAsked(refs, Refilled(refs, cells, refs[queries[0]].refname, told), queries[1..])
  {
    var rest := queries[1..];
    forall k | 0 <= k < |rest| && Home(refs, rest[k]) != rest[k] && Home(refs, rest[k]) !in rest[..k]
      ensures Refilled(refs, cells, refs[queries[0]].refname, told)[Home(refs, rest[k])].Some?
    {
      var f := Home(refs, queries[k + 1]);
      assert rest[k] == queries[k + 1];
      assert queries[..k + 1] == [queries[0]] + rest[..k];
    }
  }

  /** Asked that way, every query gets the answer of the first ref of the name. */
  lemma {:induction false} RepliesAreOwn(b: Basis, cells: Cells, queries: seq<nat>)
    requires |cells| == |b.refs| && InPush(b.refs, queries)
    requires OwnCells(b, cells) && FirstAsked(b.refs, cells, queries)
    ensures forall k :: 0 <= k < |queries| ==> Replies(b, cells, queries)[k] == OwnAnswer(b, Home(b.refs, queries[k]))
    decreases |queries|
  {
    hide NewWalk, FirstAsked, Told;
    if queries != [] {
      var r := b.refs[queries[0]];
      var told := Told(b.readable, NewWalk(b, FirstNamed(b.refs, r.refname), r.newOid));
      FirstQuery(b.refs, cells, queries);
      AskedStep(b.refs, cells, queries, told);
      RepliesAreOwn(b, Refilled(b.refs, cells, r.refname, told), queries[1..]);
    }
  }

  lemma FirstQuery(refs: seq<RefUpdate>, cells: Cells, queries: seq<nat>)
    requires |cells| == |refs| && InPush(refs, queries) && FirstAsked(refs, cells, queries) && queries != []
    ensures Home(refs, queries[0]) == queries[0] || cells[Home(refs, queries[0])].Some?
  {
    assert queries[..0] == [];
  }

  ghost predicate NoneCapped(replies: seq<Answer>) {
    forall k :: 0 <= k < |replies| ==> !replies[k].TooMany?
  }

  /** Some answer names the commit. */
  ghost predicate Reported(replies: seq<Answer>, x: Oid) {
    exists k :: 0 <= k < |replies| && replies[k].Commits? && x in replies[k].oids
  }

  /** What is reported, if no ref is asked about before the first ref of its name. */
  lemma ReportedIff(b: Basis, queries: seq<nat>, x: Oid)
    requires InPush(b.refs, queries) && FirstAsked(b.refs, NoCells(b.refs), queries)
    requires NoneCapped(AllReplies(b, queries))
    ensures Reported(AllReplies(b, queries), x) <==>
      exists k :: 0 <= k < |queries|
        && var i := Home(b.refs, queries[k]); x in Brings(b, i) && Brings(b, i) <= b.readable
  {
    hide Replies, NewWalk, Told, Brings, FirstAsked;
    var replies := AllReplies(b, queries);
    RepliesAreOwn(b, NoCells(b.refs), queries);
    forall k | 0 <= k < |queries|
      ensures var i := Home(b.refs, queries[k]);
        (replies[k].Commits? && x in replies[k].oids) <==> (x in Brings(b, i) && Brings(b, i) <= b.readable)
    {
      AnswerIsBrought(b, Home(b.refs, queries[k]));
      assert replies[k].Commits? ==> (x in replies[k].oids <==> x in Elems(replies[k].oids));
    }
  }

  /** Every answer, however the queries are put, leaves out what untouched refs reach. */
  ghost predicate Avoids(answer: Answer, old': set<Oid>) {
    answer.Commits? ==> Elems(answer.oids) !! old'
  }

  lemma ToldAvoids(b: Basis, i: nat, tip: Oid)
    requires i <= |b.refs|
    ensures Avoids(Told(b.readable, NewWalk(b, i, tip)), ReachSet(b.graph, Elems(b.existing)))
  {
    hide ReachSet, Reach, KvReachable, Told;
    var walk := NewWalk(b, i, tip);
    CapIsTold(b.readable, walk);
    if walk.Listed? {
      ToldIff(b.readable, walk);
      if tip != NULL_OID {
        WalkElems(b.graph, [tip], b.existing + NewTips(b.refs[..i]), b.cap);
        ElemsAppend(b.existing, NewTips(b.refs[..i]));
        ReachMonotone(b.graph, Elems(b.existing), Elems(b.existing) + Elems(NewTips(b.refs[..i])));
      }
    }
  }

  lemma {:induction false} RepliesAvoid(b: Basis, cells: Cells, queries: seq<nat>)
    requires |cells| == |b.refs| && InPush(b.refs, queries)
    requires forall i :: 0 <= i < |cells| && cells[i].Some? ==>
      Avoids(cells[i].value, ReachSet(b.graph, Elems(b.existing)))
    ensures forall k :: 0 <= k < |queries| ==>
      Avoids(Replies(b, cells, queries)[k], ReachSet(b.graph, Elems(b.existing)))
    decreases |queries|
  {
    hide NewWalk, Told, ReachSet, Avoids;
    if queries != [] {
      var r := b.refs[queries[0]];
      ToldAvoids(b, FirstNamed(b.refs, r.refname), r.newOid);
      var told := Told(b.readable, NewWalk(b, FirstNamed(b.refs, r.refname), r.newOid));
      RepliesAvoid(b, Refilled(b.refs, cells, r.refname, told), queries[1..]);
    }
  }

  ghost predicate DistinctNames(refs: seq<RefUpdate>) {
    forall i, j :: 0 <= i < j < |refs| ==> refs[i].refname != refs[j].refname
  }

  lemma DistinctHomes(refs: seq<RefUpdate>, queries: seq<nat>)
    requires DistinctNames(refs) && InPush(refs, queries)
    ensures FirstAsked(refs, NoCells(refs), queries) && forall q :: 0 <= q < |refs| ==> Home(refs, q) == q
  {
  }

  /** The positions in the order of the push. */
  function PushOrder(refs: seq<RefUpdate>): seq<nat> {
    seq(|refs|, i => i)
  }

  /** An earlier ref of the push has the same name. */
  predicate Repeated(refs: seq<RefUpdate>, i: nat)
    requires i < |refs|
  {
    exists j :: 0 <= j < i && refs[j].refname == refs[i].refname
  }

  lemma OrderedHomes(refs: seq<RefUpdate>)
    ensures FirstAsked(refs, NoCells(refs), PushOrder(refs))
    ensures forall q :: 0 <= q < |refs| ==>
      !Repeated(refs, Home(refs, q)) && (!Repeated(refs, q) ==> Home(refs, q) == q)
  {
    var order := PushOrder(refs);
    forall k | 0 <= k < |order| ensures Home(refs, k) == k || Home(refs, k) in order[..k] {
      if Home(refs, k) < k { assert order[..k][Home(refs, k)] == Home(refs, k); }
    }
  }

  lemma FirstWalkIsListed(b: Basis, tip: Oid)
    requires b.refs != [] && b.existing == [] && tip != NULL_OID && |ReachSet(b.graph, {tip})| <= b.cap
    ensures NewWalk(b, 0, tip).Listed?
  {
    hide ReachSet, Reach;
    ReachNothing(b.graph);
    assert b.refs[..0] == [];
    assert [] + NewTips(b.refs[..0]) == [] && Elems([tip]) == {tip};
    assert ReachSet(b.graph, {tip}) - {} == ReachSet(b.graph, {tip});
  }

  lemma TwoTips(refs: seq<RefUpdate>)
    requires |refs| == 2 && refs[0].newOid != NULL_OID && refs[1].newOid != NULL_OID
    ensures Elems(NewTips(refs)) == {refs[0].newOid, refs[1].newOid} && NewTips(refs[..0]) == []
  {
    assert refs[..1] == [refs[0]] && [refs[0]][..0] == [];
    assert NewTips([refs[0]]) == [refs[0].newOid];
    assert NewTips(refs) == [refs[0].newOid, refs[1].newOid];
  }

  lemma OneReply(b: Basis)
    requires |b.refs| == 1
    ensures AllReplies(b, [0]) == [OwnAnswer(b, 0)]
  {
    hide NewWalk, Told;
    assert [0][1..] == [] && FirstNamed(b.refs, b.refs[0].refname) == 0;
  }

  lemma TwoReplies(b: Basis)
    requires |b.refs| == 2 && b.refs[0].refname == b.refs[1].refname
    ensures AllReplies(b, PushOrder(b.refs)) == [OwnAnswer(b, 0), OwnAnswer(b, 0)]
  {
    hide NewWalk, Told;
    var told := OwnAnswer(b, 0);
    assert PushOrder(b.refs) == [0, 1] && [0, 1][1..] == [1] && [1][1..] == [];
    var cells := Refilled(b.refs, NoCells(b.refs), b.refs[0].refname, told);
    assert FirstNamed(b.refs, b.refs[0].refname) == 0 && cells[0] == Some(told);
    assert Replies(b, cells, [1]) == [told];
  }

  /**
    A push that names one ref twice, first at `a` and then at `c`: both queries get the first
    answer, and a commit that only `c` reaches is in neither.
   */
  lemma RepeatedNameHidesCommits(g: Graph, readable: set<Oid>, name: Bytes, a: Oid, c: Oid, cap: nat)
    requires a != NULL_OID && c != NULL_OID && c !in ReachSet(g, {a}) && |ReachSet(g, {a})| <= cap
    requires ReachSet(g, {a}) <= readable
    ensures var refs := [RefUpdate(NULL_OID, a, name), RefUpdate(a, c, name)];
      var replies := AllReplies(Basis(g, readable, refs, [], cap), PushOrder(refs));
      && replies[0].Commits? && replies[1] == replies[0]
      && c in ReachSet(g, Elems(NewTips(refs))) && !Reported(replies, c)
  {
    hide ReachSet, Reach, Replies, NewWalk, NewTips, Told;
    var refs := [RefUpdate(NULL_OID, a, name), RefUpdate(a, c, name)];
    var b := Basis(g, readable, refs, [], cap);
    TwoTips(refs);
    ReachNothing(g);
    FirstWalkIsListed(b, a);
    CapIsTold(readable, NewWalk(b, 0, a));
    TwoReplies(b);
    AnswerIsBrought(b, 0);
    assert c !in Elems(OwnAnswer(b, 0).oids);
    ReachSetClosed(g, {a, c});
  }

  /**
    A query about lost commits.  A creation loses none, a deletion the whole history, another
    update what the new tip does not reach.  These are listed, once each, exactly if all of them
    read as commits; the answer is cut short exactly if there are more of them than the cap
    allows, or the new tip's history has more.
   */
  lemma AnswerIsLost(b: Basis, oldOid: Oid, newOid: Oid)
    ensures var answer := Told(b.readable, DroppedWalk(b, oldOid, newOid));
      var lost: set<Oid> :=
        if oldOid == NULL_OID then {}
        else if newOid == NULL_OID then ReachSet(b.graph, {oldOid})
        else ReachSet(b.graph, {oldOid}) - ReachSet(b.graph, {newOid});
      var past := oldOid != NULL_OID && newOid != NULL_OID && |ReachSet(b.graph, {newOid})| > b.cap;
      && (answer.TooMany? <==> |lost| > b.cap || past)
      && (!answer.TooMany? ==> (answer.Commits? <==> lost <= b.readable))
      && (answer.Commits? ==> Distinct(answer.oids) && Elems(answer.oids) == lost)
      && (answer.Unreadable? ==> answer.oid in lost - b.readable)
  {
    hide ReachSet, Reach, Told;
    var walk := DroppedWalk(b, oldOid, newOid);
    CapIsTold(b.readable, walk);
    ReachNothing(b.graph);
    if walk.Listed? { ToldIff(b.readable, walk); }
    if oldOid != NULL_OID {
      var excluding := if newOid == NULL_OID then [] else [newOid];
      assert Elems([oldOid]) == {oldOid} && Elems([newOid]) == {newOid};
      assert ReachSet(b.graph, {oldOid}) - {} == ReachSet(b.graph, {oldOid});
      if walk.Listed? { WalkElems(b.graph, [oldOid], excluding, b.cap); }
    }
  }

  /** An update is a fast-forward exactly when the forge is told that it loses no commit. */
  lemma FastForwardLosesNothing(b: Basis, oldOid: Oid, newOid: Oid)
    requires oldOid != NULL_OID && newOid != NULL_OID && DroppedWalk(b, oldOid, newOid).Listed?
    ensures KindOf(b.graph, oldOid, newOid) == FastForward <==>
      Told(b.readable, DroppedWalk(b, oldOid, newOid)) == Commits([])
  {
    hide ReachSet, KvReachable, Told;
    var g := b.graph;
    WalkElems(g, [oldOid], [newOid], b.cap);
    assert Elems([oldOid]) == {oldOid} && Elems([newOid]) == {newOid};
    var walk := DroppedWalk(b, oldOid, newOid);
    ToldIff(b.readable, walk);
    ReachSetClosed(g, {oldOid});
    ReachSetClosed(g, {newOid});
    if oldOid in ReachSet(g, {newOid}) {
      ReachInClosed(g, {oldOid}, ReachSet(g, {newOid}));
      DistinctLength(walk.oids);
      assert walk.oids == [] && Elems(walk.oids) == {};
    } else {
      assert oldOid in Elems(walk.oids);
    }
  }

  /**
    A fast-forward's own old history is reported as new, unless the old tip is also reachable
    from an untouched ref or an earlier new tip: the ref's old tip is not excluded.
   */
  lemma OldHistoryReappears(g: Graph, refs: seq<RefUpdate>, existing: seq<Oid>, i: nat)
    requires i < |refs| && KindOf(g, refs[i].oldOid, refs[i].newOid) == FastForward
    ensures Brought(g, refs, existing, i) !! ReachSet(g, {refs[i].oldOid}) <==>
      refs[i].oldOid in ReachSet(g, Elems(existing) + Elems(NewTips(refs[..i])))
  {
    hide ReachSet, KvReachable;
    var old', new', others := refs[i].oldOid, refs[i].newOid, Elems(existing) + Elems(NewTips(refs[..i]));
    ReachSetClosed(g, {old'});
    ReachSetClosed(g, others);
    if old' in ReachSet(g, others) {
      ReachInClosed(g, {old'}, ReachSet(g, others));
    } else {
      assert old' in Brought(g, refs, existing, i);
    }
  }

  lemma ChainReach(older: Oid, newer: Oid)
    requires older != newer
    ensures ReachSet(map[newer := [older], older := []], {newer}) == {newer, older}
  {
    hide Reach, ReachSet;
    var g: Graph := map[newer := [older], older := []];
    ReachSetClosed(g, {newer});
    ReachInClosed(g, {newer}, {newer, older});
    assert older in Succ(g, newer);
  }

  lemma NoTips(refs: seq<RefUpdate>)
    ensures NewTips(refs[..0]) == []
  {
  }

  lemma LoneRefBringsAll(g: Graph, ref: RefUpdate)
    requires ref.newOid != NULL_OID
    ensures Brought(g, [ref], [], 0) == ReachSet(g, {ref.newOid})
  {
    hide ReachSet, Reach;
    ReachNothing(g);
    NoTips([ref]);
    var none: set<Oid> := {};
    assert none == Elems<Oid>([]) + Elems(NewTips([ref][..0]));
  }

  /** A fast-forward of the only ref there is: all of its old history is reported as new. */
  lemma LoneFastForward(g: Graph, readable: set<Oid>, ref: RefUpdate, cap: nat)
    requires KindOf(g, ref.oldOid, ref.newOid) == FastForward && |ReachSet(g, {ref.newOid})| <= cap
    requires ReachSet(g, {ref.newOid}) <= readable
    ensures forall x :: x in ReachSet(g, {ref.oldOid}) ==>
      Reported(AllReplies(Basis(g, readable, [ref], [], cap), [0]), x)
  {
    hide ReachSet, Replies, NewWalk, NewTips, Told;
    var b := Basis(g, readable, [ref], [], cap);
    LoneRefBringsAll(g, ref);
    hide Brought;
    FirstWalkIsListed(b, ref.newOid);
    CapIsTold(readable, NewWalk(b, 0, ref.newOid));
    OneReply(b);
    AnswerIsBrought(b, 0);
    ReachSetClosed(g, {ref.newOid});
    ReachInClosed(g, {ref.oldOid}, ReachSet(g, {ref.newOid}));
    var told := OwnAnswer(b, 0);
    forall x | x in ReachSet(g, {ref.oldOid}) ensures Reported([told], x) {
      assert x in Elems(told.oids) && x in [told][0].oids;
    }
  }

  /** For example: one ref moved forward by one commit; the forge is told of both commits. */
  lemma OldCommitComesBack(name: Bytes, older: Oid, newer: Oid, cap: nat)
    requires older != newer && older != NULL_OID && newer != NULL_OID && cap >= 2
    ensures var g, ref := map[newer := [older], older := []], RefUpdate(older, newer, name);
      && KindOf(g, older, newer) == FastForward
      && Reported(AllReplies(Basis(g, {older, newer}, [ref], [], cap), [0]), older)
  {
    hide ReachSet, Replies, Reported;
    var g: Graph, ref := map[newer := [older], older := []], RefUpdate(older, newer, name);
    ChainReach(older, newer);
    LoneFastForward(g, {older, newer}, ref, cap);
    ReachSetClosed(g, {older});
  }

  datatype RefInfo = RefInfo(name: Bytes, oid: Oid, peeled: Option<Oid>)

  /** The push does not name the ref, and the ref or its peeled target is `x`. */
  predicate Untouched(refs: seq<RefUpdate>, info: RefInfo, x: Oid) {
    !Named(refs, info.name) && (x == info.oid || info.peeled == Some(x))
  }

  /** The tips that are excluded: those of every ref the push does not touch, and their peeled targets. */
  method ExistingRefTips(snapshot: seq<RefInfo>, refs: seq<RefUpdate>) returns (tips: seq<Oid>)
    ensures forall x :: x in tips <==> exists k :: 0 <= k < |snapshot| && Untouched(refs, snapshot[k], x)
    ensures forall k :: 0 <= k < |snapshot| && (forall u :: u in refs ==> u.refname != snapshot[k].name) ==>
      snapshot[k].oid in tips && (snapshot[k].peeled.Some? ==> snapshot[k].peeled.value in tips)
    ensures forall x :: x in tips ==> exists info ::
      info in snapshot && (x == info.oid || info.peeled == Some(x)) && forall u :: u in refs ==> u.refname != info.name
  {
    tips := [];
    for i := 0 to |snapshot|
      invariant forall x :: x in tips <==> exists k :: 0 <= k < i && Untouched(refs, snapshot[k], x)
    {
      if !Named(refs, snapshot[i].name) {
        tips := tips + [snapshot[i].oid];
        if snapshot[i].peeled.Some? {
          tips := tips + [snapshot[i].peeled.value];
        }
      }
    }
  }
}
