/**
  The push pipeline of the two transports: preliminary check, ingest, inspection, full check,
  ref update, notification, with a rollback where a written pack must go again.

  Decisions of the forge, of the storage layer and of the connection are inputs.
 */
module PushPipeline {
  import opened ObjectIds
  import opened Wrappers
  import opened Graphs
  import opened Keys
  import opened Refs
  import opened Comparison

  datatype Ingest = IngestFailed | NothingToIngest | Written(commits: Graph)

  /**
    One push: its updates, and how everything outside the pipeline behaves.  `later` is what
    other pushes add to the object store between the full check and the notification, and
    `reported` whether the client could be told of the success.  The full check may look at the
    push kinds, the object store and the refs; names and ids are fixed for a given push.
   */
  datatype Push = Push(
    updates: seq<RefUpdate>,
    preliminary: seq<PushKind> -> bool,
    available: bool,
    ingest: Ingest,
    inspected: bool,
    authorize: (seq<PushKind>, Graph, RefMap) -> bool,
    later: Graph,
    reported: bool)

  datatype Event = PackWritten | RolledBack | RefsMoved | PostReceive(kinds: seq<PushKind>)

  /**
    A repository: refs, commits in the object store, the test its backend makes of a ref update,
    and whether rolling back removes a pack's objects.
   */
  datatype Repo = Repo(refs: RefMap, graph: Graph, rule: Rule, removes: bool)

  datatype Outcome = Outcome(repo: Repo, events: seq<Event>)

  function PreliminaryKind(u: RefUpdate): PushKind {
    if u.oldOid == NULL_OID then Create else if u.newOid == NULL_OID then Delete else FastForward
  }

  function PreliminaryKinds(us: seq<RefUpdate>): seq<PushKind> {
    seq(|us|, i requires 0 <= i < |us| => PreliminaryKind(us[i]))
  }

  ghost function Kinds(g: Graph, us: seq<RefUpdate>): seq<PushKind> {
    seq(|us|, i requires 0 <= i < |us| => KindOf(g, us[i].oldOid, us[i].newOid))
  }

  /**
    A null old id makes a creation, and otherwise a null new id a deletion, in both
    classifications; the cheap one errs only by taking a force push for a fast-forward.
   */
  lemma PreliminaryIsOptimistic(g: Graph, u: RefUpdate)
    ensures u.oldOid == NULL_OID ==> PreliminaryKind(u) == Create == KindOf(g, u.oldOid, u.newOid)
    ensures u.oldOid != NULL_OID && u.newOid == NULL_OID ==>
      PreliminaryKind(u) == Delete == KindOf(g, u.oldOid, u.newOid)
    ensures u.oldOid != NULL_OID && u.newOid != NULL_OID ==> PreliminaryKind(u) == FastForward
    ensures u.oldOid != NULL_OID && u.newOid != NULL_OID ==>
      KindOf(g, u.oldOid, u.newOid) == if Reach(g, {u.newOid}, u.oldOid) then FastForward else ForcePush
  {
  }

  function IngestedGraph(p: Push, r: Repo): Graph {
    if p.ingest.Written? then r.graph + p.ingest.commits else r.graph
  }

  function AfterIngest(p: Push, r: Repo): Repo {
    r.(graph := IngestedGraph(p, r))
  }

  function WrittenEvents(p: Push): seq<Event> {
    if p.ingest.Written? then [PackWritten] else []
  }

  function RollbackEvents(p: Push): seq<Event> {
    if p.ingest.Written? then [RolledBack] else []
  }

  /** The repository after a rollback, if there was a pack to roll back. */
  function AfterRollback(p: Push, r: Repo): Repo {
    if p.ingest.Written? && !r.removes then AfterIngest(p, r) else r
  }

  /** Update the refs; tell the client; notify only if both worked. */
  ghost function Finish(p: Push, r: Repo, events: seq<Event>, kinds: seq<PushKind>): Outcome {
    var moved := Fold(r.rule, r.refs, p.updates);
    if moved.None? then Outcome(r, events)
    else Outcome(r.(refs := moved.value), events + [RefsMoved] + if p.reported then [PostReceive(kinds)] else [])
  }

  /** What the HTTP handler does. */
  ghost function Http(p: Push, r: Repo): Outcome {
    if !p.preliminary(PreliminaryKinds(p.updates)) || !p.available || p.ingest.IngestFailed? then Outcome(r, [])
    else if p.ingest.Written? && !p.inspected then Outcome(AfterRollback(p, r), [PackWritten, RolledBack])
    else
      var kinds := Kinds(IngestedGraph(p, r), p.updates);
      if p.authorize(kinds, IngestedGraph(p, r), r.refs) then Finish(p, AfterIngest(p, r), WrittenEvents(p), kinds)
      else if p.updates != [] then Outcome(AfterRollback(p, r), WrittenEvents(p) + RollbackEvents(p))
      else Finish(p, AfterRollback(p, r), WrittenEvents(p) + RollbackEvents(p), kinds)
  }

  /** What the SSH session does: it classifies again, after the update, for the notification. */
  ghost function Ssh(p: Push, r: Repo): Outcome {
    if !p.preliminary(PreliminaryKinds(p.updates)) || !p.available || p.ingest.IngestFailed? then Outcome(r, [])
    else if p.ingest.Written? && !p.inspected then Outcome(AfterRollback(p, r), [PackWritten, RolledBack])
    else if !p.authorize(Kinds(IngestedGraph(p, r), p.updates), IngestedGraph(p, r), r.refs) then
      Outcome(AfterRollback(p, r), WrittenEvents(p) + RollbackEvents(p))
    else Finish(p, AfterIngest(p, r), WrittenEvents(p), Kinds(IngestedGraph(p, r) + p.later, p.updates))
  }

  /** The checks up to the full one pass. */
  ghost predicate Arrives(p: Push) {
    && p.preliminary(PreliminaryKinds(p.updates)) && p.available && !p.ingest.IngestFailed?
    && (p.ingest.Written? ==> p.inspected)
  }

  /** The forge's verdict in the full check. */
  ghost predicate Approved(p: Push, r: Repo) {
    p.authorize(Kinds(IngestedGraph(p, r), p.updates), IngestedGraph(p, r), r.refs)
  }

  ghost predicate Stored(p: Push) {
    p.preliminary(PreliminaryKinds(p.updates)) && p.available && p.ingest.Written?
  }

  /** Every check passes and the comparison of every ref holds. */
  ghost predicate AllPassed(p: Push, r: Repo) {
    Arrives(p) && Approved(p, r) && Fold(r.rule, r.refs, p.updates).Some?
  }

  /** A pack was written and then turned down. */
  ghost predicate TurnedDown(p: Push, r: Repo) {
    Stored(p) && (!p.inspected || !Approved(p, r))
  }

  function Tally(e: Event, what: Event -> bool): nat {
    if what(e) then 1 else 0
  }

  function Count(events: seq<Event>, what: Event -> bool): nat {
    if events == [] then 0 else Tally(events[0], what) + Count(events[1..], what)
  }

  predicate IsRollback(e: Event) { e.RolledBack? }

  predicate IsMove(e: Event) { e.RefsMoved? }

  predicate IsPost(e: Event) { e.PostReceive? }

  /** What must hold of any outcome of a push. */
  ghost predicate Safe(p: Push, r: Repo, o: Outcome) {
    && (Count(o.events, IsMove) == if AllPassed(p, r) then 1 else 0)
    && (if AllPassed(p, r) then Some(o.repo.refs) == Fold(r.rule, r.refs, p.updates) else o.repo.refs == r.refs)
    && (Count(o.events, IsRollback) == if TurnedDown(p, r) then 1 else 0)
    && (Count(o.events, IsPost) == if AllPassed(p, r) && p.reported then 1 else 0)
    && (forall i :: 0 <= i < |o.events| && o.events[i].PostReceive? ==> 0 < i && o.events[i - 1].RefsMoved?)
    && (TurnedDown(p, r) && r.removes ==> o.repo == r)
  }

  lemma CountAppend(a: seq<Event>, b: seq<Event>, what: Event -> bool)
    ensures Count(a + b, what) == Count(a, what) + Count(b, what)
  {
    if a == [] {
      assert a + b == b;
    } else {
      assert (a + b)[1..] == a[1..] + b;
      CountAppend(a[1..], b, what);
    }
  }

  function Perhaps(happens: bool, e: Event): seq<Event> {
    if happens then [e] else []
  }

  /** The events of a push, in the only order they come in. */
  function Trace(written: bool, down: bool, moved: bool, posted: bool, kinds: seq<PushKind>): seq<Event> {
    Perhaps(written, PackWritten) + Perhaps(down, RolledBack) + Perhaps(moved, RefsMoved)
    + Perhaps(posted, PostReceive(kinds))
  }

  lemma PerhapsCount(happens: bool, e: Event, what: Event -> bool)
    ensures Count(Perhaps(happens, e), what) == if happens then Tally(e, what) else 0
  {
    if happens {
      assert [e][1..] == [];
    }
  }

  lemma TraceCount(written: bool, down: bool, moved: bool, posted: bool, kinds: seq<PushKind>, what: Event -> bool)
    ensures Count(Trace(written, down, moved, posted, kinds), what) ==
      (if written then Tally(PackWritten, what) else 0) + (if down then Tally(RolledBack, what) else 0)
      + (if moved then Tally(RefsMoved, what) else 0) + (if posted then Tally(PostReceive(kinds), what) else 0)
  {
    hide Count, Tally, Perhaps;
    var a, b := Perhaps(written, PackWritten), Perhaps(down, RolledBack);
    var c, d := Perhaps(moved, RefsMoved), Perhaps(posted, PostReceive(kinds));
    CountAppend(a + b + c, d, what);
    CountAppend(a + b, c, what);
    CountAppend(a, b, what);
    PerhapsCount(written, PackWritten, what);
    PerhapsCount(down, RolledBack, what);
    PerhapsCount(moved, RefsMoved, what);
    PerhapsCount(posted, PostReceive(kinds), what);
  }

  lemma TraceCounts(written: bool, down: bool, moved: bool, posted: bool, kinds: seq<PushKind>)
    ensures var t := Trace(written, down, moved, posted, kinds);
      && (Count(t, IsMove) == if moved then 1 else 0)
      && (Count(t, IsRollback) == if down then 1 else 0)
      && (Count(t, IsPost) == if posted then 1 else 0)
  {
    hide Count, Trace;
    TraceCount(written, down, moved, posted, kinds, IsMove);
    TraceCount(written, down, moved, posted, kinds, IsRollback);
    TraceCount(written, down, moved, posted, kinds, IsPost);
  }

  lemma SshShape(p: Push, r: Repo)
    ensures Ssh(p, r).events ==
      Trace(Stored(p), TurnedDown(p, r), AllPassed(p, r), AllPassed(p, r) && p.reported,
            Kinds(IngestedGraph(p, r) + p.later, p.updates))
  {
    hide Kinds, Fold;
  }

  /**
    Refs move only after every check, exactly once and exactly as the batch says; a written
    pack is rolled back exactly when it is turned down; the notification comes at most once,
    right after the refs moved.
   */
  lemma SshIsSafe(p: Push, r: Repo)
    ensures Safe(p, r, Ssh(p, r))
  {
    hide Count, Kinds, Fold;
    SshShape(p, r);
    TraceCounts(Stored(p), TurnedDown(p, r), AllPassed(p, r), AllPassed(p, r) && p.reported,
                Kinds(IngestedGraph(p, r) + p.later, p.updates));
  }

  /** A push without updates that reaches the full check and is refused there. */
  ghost predicate UnheardRefusal(p: Push, r: Repo) {
    p.updates == [] && Arrives(p) && !Approved(p, r)
  }

  lemma HttpShape(p: Push, r: Repo)
    ensures Http(p, r).events ==
      Trace(Stored(p), TurnedDown(p, r), AllPassed(p, r) || UnheardRefusal(p, r),
            (AllPassed(p, r) || UnheardRefusal(p, r)) && p.reported, Kinds(IngestedGraph(p, r), p.updates))
  {
    hide Kinds, Fold;
    EmptyFold(r.rule, r.refs);
  }

  /** The HTTP handler is safe exactly when the push has an update or the full check lets it pass. */
  lemma HttpIsSafeIff(p: Push, r: Repo)
    ensures Safe(p, r, Http(p, r)) <==> !UnheardRefusal(p, r)
  {
    hide Count, Kinds, Fold;
    HttpShape(p, r);
    TraceCounts(Stored(p), TurnedDown(p, r), AllPassed(p, r) || UnheardRefusal(p, r),
                (AllPassed(p, r) || UnheardRefusal(p, r)) && p.reported, Kinds(IngestedGraph(p, r), p.updates));
  }

  /** For example: a pack without any update, refused by the forge, is rolled back and then announced by HTTP. */
  lemma RefusedPushIsAnnounced(r: Repo)
    ensures var p := Push([], _ => true, true, Written(map[]), true, (_, _, _) => false, map[], true);
      && Http(p, r).events == [PackWritten, RolledBack, RefsMoved, PostReceive([])]
      && Ssh(p, r).events == [PackWritten, RolledBack]
  {
    EmptyFold(r.rule, r.refs);
    assert Kinds(r.graph + map[], []) == [];
  }

  /** Whatever is pushed, both transports leave the same repository. */
  lemma SameRepository(p: Push, r: Repo)
    ensures Http(p, r).repo == Ssh(p, r).repo
  {
    hide Kinds, Fold;
    EmptyFold(r.rule, r.refs);
  }

  /**
    `g` is the store with the commits of the pack; `cheap` and `kinds` are the classifications of
    the updates without the store and on `g`.
   */
  ghost predicate Judged(p: Push, r: Repo, g: Graph, cheap: seq<PushKind>, kinds: seq<PushKind>) {
    && (p.ingest.Written? ==> g == r.graph + p.ingest.commits)
    && (!p.ingest.Written? ==> g == r.graph)
    && |cheap| == |p.updates| == |kinds|
    && forall i :: 0 <= i < |p.updates| ==> (
      var u := p.updates[i];
      && cheap[i] == (if u.oldOid == NULL_OID then Create else if u.newOid == NULL_OID then Delete else FastForward)
      && kinds[i] == KindOf(g, u.oldOid, u.newOid))
  }

  /** Both checks are given these classifications, and the second also the store with the pack. */
  lemma ChecksSeePack(p: Push, r: Repo, g: Graph, cheap: seq<PushKind>, kinds: seq<PushKind>)
    requires Judged(p, r, g, cheap, kinds)
    ensures g == IngestedGraph(p, r) && kinds == Kinds(g, p.updates) && cheap == PreliminaryKinds(p.updates)
    ensures Approved(p, r) <==> p.authorize(kinds, g, r.refs)
    ensures Stored(p) <==> p.preliminary(cheap) && p.available && p.ingest.Written?
    ensures Arrives(p) <==>
      p.preliminary(cheap) && p.available && !p.ingest.IngestFailed? && (p.ingest.Written? ==> p.inspected)
  {
    hide KindOf;
    assert kinds == Kinds(g, p.updates) && cheap == PreliminaryKinds(p.updates);
  }

  /**
    The repository after a push, over either transport.  An approved push leaves the store with
    its pack, whether or not its refs move; one that is turned down leaves it only if a rollback
    removes nothing; any other leaves everything as it was.
   */
  lemma PushOutcome(p: Push, r: Repo, g: Graph, cheap: seq<PushKind>, kinds: seq<PushKind>)
    requires Judged(p, r, g, cheap, kinds)
    ensures var arrived := p.preliminary(cheap) && p.available && !p.ingest.IngestFailed?;
      var approved := arrived && (p.ingest.Written? ==> p.inspected) && p.authorize(kinds, g, r.refs);
      var moved := Fold(r.rule, r.refs, p.updates);
      var after :=
        if approved && moved.Some? then Repo(moved.value, g, r.rule, r.removes)
        else if approved || (arrived && p.ingest.Written? && !r.removes) then r.(graph := g)
        else r;
      Http(p, r).repo == after && Ssh(p, r).repo == after
  {
    ChecksSeePack(p, r, g, cheap, kinds);
    hide Kinds, PreliminaryKinds, Fold, Judged;
    SameRepository(p, r);
  }

  lemma TraceHas(written: bool, down: bool, moved: bool, posted: bool, kinds: seq<PushKind>)
    ensures RefsMoved in Trace(written, down, moved, posted, kinds) <==> moved
    ensures forall ks :: PostReceive(ks) in Trace(written, down, moved, posted, kinds) <==> posted && ks == kinds
  {
  }

  /**
    What is announced: HTTP, the classification that the forge was given; SSH, the one on what the
    store holds by then.  Only HTTP goes on after a refusal, if there is no update to refuse.
   */
  lemma PushIsAnnounced(p: Push, r: Repo, g: Graph, cheap: seq<PushKind>, kinds: seq<PushKind>)
    requires Judged(p, r, g, cheap, kinds)
    ensures var judged :=
        p.preliminary(cheap) && p.available && !p.ingest.IngestFailed? && (p.ingest.Written? ==> p.inspected);
      var approved := judged && p.authorize(kinds, g, r.refs);
      var moves := approved && Fold(r.rule, r.refs, p.updates).Some?;
      && (RefsMoved in Ssh(p, r).events <==> moves)
      && (RefsMoved in Http(p, r).events <==> moves || (judged && !approved && p.updates == []))
      && (forall ks :: PostReceive(ks) in Http(p, r).events <==>
            RefsMoved in Http(p, r).events && p.reported && ks == kinds)
      && (forall ks :: PostReceive(ks) in Ssh(p, r).events <==>
            moves && p.reported && ks == Kinds(g + p.later, p.updates))
  {
    ChecksSeePack(p, r, g, cheap, kinds);
    hide Kinds, PreliminaryKinds, Fold, Judged, Trace, Http, Ssh;
    HttpShape(p, r);
    SshShape(p, r);
    var http := AllPassed(p, r) || UnheardRefusal(p, r);
    TraceHas(Stored(p), TurnedDown(p, r), http, http && p.reported, kinds);
    TraceHas(Stored(p), TurnedDown(p, r), AllPassed(p, r), AllPassed(p, r) && p.reported,
             Kinds(g + p.later, p.updates));
  }

  /** Additions that change no stored commit. */
  ghost predicate Agrees(g: Graph, later: Graph) {
    forall x :: x in g && x in later ==> later[x] == g[x]
  }

  /** A force push whose new tip's history is all there, or no force push. */
  ghost predicate Settled(g: Graph, oldOid: Oid, newOid: Oid) {
    KindOf(g, oldOid, newOid) == ForcePush ==> ReachSet(g, {newOid}) <= g.Keys
  }

  /** Additions cannot undo a walk. */
  lemma ReachGrows(g: Graph, later: Graph, from: set<Oid>)
    requires Agrees(g, later)
    ensures ReachSet(g, from) <= ReachSet(g + later, from)
  {
    hide Reach, ReachSet;
    ReachSetClosed(g + later, from);
    assert forall x :: x in g ==> Succ(g + later, x) == Succ(g, x);
    ReachInClosed(g, from, ReachSet(g + later, from));
  }

  lemma SettledIsStable(g: Graph, later: Graph, oldOid: Oid, newOid: Oid)
    requires Agrees(g, later) && Settled(g, oldOid, newOid)
    ensures KindOf(g + later, oldOid, newOid) == KindOf(g, oldOid, newOid)
  {
    hide Reach;
    ReachGrows(g, later, {newOid});
    if KindOf(g, oldOid, newOid) == ForcePush {
      ReachAgrees(g, g + later, {newOid});
    }
    assert oldOid in ReachSet(g, {newOid}) <==> Reach(g, {newOid}, oldOid);
    assert oldOid in ReachSet(g + later, {newOid}) <==> Reach(g + later, {newOid}, oldOid);
  }

  /** A missing commit of the history may turn out to be a child of the old tip. */
  lemma MissingChild(g: Graph, oldOid: Oid, newOid: Oid) returns (later: Graph)
    requires !Settled(g, oldOid, newOid)
    ensures Agrees(g, later) && KindOf(g + later, oldOid, newOid) == FastForward
  {
    hide Reach, ReachSet;
    var m :| m in ReachSet(g, {newOid}) && m !in g;
    later := map[m := [oldOid]];
    ReachGrows(g, later, {newOid});
    ReachSetClosed(g + later, {newOid});
    assert oldOid in Succ(g + later, m);
    assert oldOid in ReachSet(g + later, {newOid});
  }

  /**
    When the classification of an update cannot change, whatever others add to the store:
    exactly if it is no force push, or one whose new tip's history is all stored.
   */
  lemma KindIsStableIff(g: Graph, oldOid: Oid, newOid: Oid)
    ensures (forall later :: Agrees(g, later) ==> KindOf(g + later, oldOid, newOid) == KindOf(g, oldOid, newOid))
      <==> Settled(g, oldOid, newOid)
  {
    hide KindOf, ReachSet;
    if Settled(g, oldOid, newOid) {
      forall later | Agrees(g, later) ensures KindOf(g + later, oldOid, newOid) == KindOf(g, oldOid, newOid) {
        SettledIsStable(g, later, oldOid, newOid);
      }
    } else {
      var later := MissingChild(g, oldOid, newOid);
    }
  }

  /** The transports announce the same, given what others add to the store in between. */
  lemma TransportsAgreeOn(p: Push, r: Repo)
    ensures Http(p, r) == Ssh(p, r) <==>
      && !UnheardRefusal(p, r)
      && (AllPassed(p, r) && p.reported ==>
            Kinds(IngestedGraph(p, r) + p.later, p.updates) == Kinds(IngestedGraph(p, r), p.updates))
  {
    hide Kinds, Fold, Http, Ssh, Trace;
    SameRepository(p, r);
    HttpShape(p, r);
    SshShape(p, r);
    var moved, moved' := AllPassed(p, r) || UnheardRefusal(p, r), AllPassed(p, r);
    SameTrace(Stored(p), TurnedDown(p, r), moved, moved && p.reported, Kinds(IngestedGraph(p, r), p.updates),
              moved', moved' && p.reported, Kinds(IngestedGraph(p, r) + p.later, p.updates));
  }

  lemma SameTrace(
      written: bool, down: bool, moved: bool, posted: bool, kinds: seq<PushKind>,
      moved': bool, posted': bool, kinds': seq<PushKind>)
    requires (posted ==> moved) && (posted' ==> moved')
    ensures Trace(written, down, moved, posted, kinds) == Trace(written, down, moved', posted', kinds') <==>
      moved == moved' && posted == posted' && (posted ==> kinds == kinds')
  {
    TraceHas(written, down, moved, posted, kinds);
    TraceHas(written, down, moved', posted', kinds');
    if moved == moved' && posted == posted' && (posted ==> kinds == kinds') {
      assert Perhaps(posted, PostReceive(kinds)) == Perhaps(posted', PostReceive(kinds'));
    } else {
      hide Trace;
    }
  }

  ghost predicate AllSettled(g: Graph, us: seq<RefUpdate>) {
    forall i :: 0 <= i < |us| ==> Settled(g, us[i].oldOid, us[i].newOid)
  }

  lemma KindsAreStableIff(g: Graph, us: seq<RefUpdate>)
    ensures (forall later :: Agrees(g, later) ==> Kinds(g + later, us) == Kinds(g, us)) <==> AllSettled(g, us)
  {
    hide KindOf, Settled;
    if AllSettled(g, us) {
      forall later | Agrees(g, later) ensures Kinds(g + later, us) == Kinds(g, us) {
        forall i | 0 <= i < |us| ensures Kinds(g + later, us)[i] == Kinds(g, us)[i] {
          SettledIsStable(g, later, us[i].oldOid, us[i].newOid);
        }
      }
    } else {
      var i :| 0 <= i < |us| && !Settled(g, us[i].oldOid, us[i].newOid);
      KindIsStableIff(g, us[i].oldOid, us[i].newOid);
      var later :| Agrees(g, later)
        && KindOf(g + later, us[i].oldOid, us[i].newOid) != KindOf(g, us[i].oldOid, us[i].newOid);
      assert Kinds(g + later, us)[i] != Kinds(g, us)[i];
    }
  }

  /**
    When both transports do and announce the same, whatever others add in the meantime: exactly
    unless the push has no updates and is refused, or is accepted and announced with a force
    push whose history is not all stored.
   */
  lemma TransportsAgreeIff(p: Push, r: Repo)
    ensures (forall later :: Agrees(IngestedGraph(p, r), later) ==>
               Http(p.(later := later), r) == Ssh(p.(later := later), r))
      <==> !UnheardRefusal(p, r) && (AllPassed(p, r) && p.reported ==> AllSettled(IngestedGraph(p, r), p.updates))
  {
    var g := IngestedGraph(p, r);
    forall later
      ensures Http(p.(later := later), r) == Ssh(p.(later := later), r) <==>
        !UnheardRefusal(p, r) && (AllPassed(p, r) && p.reported ==> Kinds(g + later, p.updates) == Kinds(g, p.updates))
    {
      TransportsAgreeOn(p.(later := later), r);
    }
    hide Http, Ssh, UnheardRefusal, AllPassed, Kinds, AllSettled;
    KindsAreStableIff(g, p.updates);
    assert Agrees(g, map[]);
  }

  /**
    For example: a new tip whose parent `m` is missing is approved as a force push; `m` arrives
    and is a child of the old tip; SSH announces a fast-forward and HTTP a force push.
   */
  lemma ForcePushAnnouncedAsFastForward(name: Bytes, older: Oid, newer: Oid, m: Oid)
    requires older != NULL_OID && newer != NULL_OID && older != newer && m != older && m != newer
    ensures var r := Repo(map[name := older], map[newer := [m]], Contract, false);
      var p := Push([RefUpdate(older, newer, name)], _ => true, true, NothingToIngest, true,
                    (_, _, _) => true, map[m := [older]], true);
      && Http(p, r).events == [RefsMoved, PostReceive([ForcePush])]
      && Ssh(p, r).events == [RefsMoved, PostReceive([FastForward])]
  {
    var u, g, later := RefUpdate(older, newer, name), map[newer := [m]], map[m := [older]];
    var r := Repo(map[name := older], g, Contract, false);
    var p := Push([u], _ => true, true, NothingToIngest, true, (_, _, _) => true, later, true);
    TwoKinds(older, newer, m);
    assert Kinds(g, [u]) == [ForcePush] && Kinds(g + later, [u]) == [FastForward];
    assert [u][1..] == [];
    assert Fold(Contract, r.refs, [u]) == Some(r.refs[name := newer]);
    hide Kinds, KindOf, Fold;
    assert AllPassed(p, r);
    HttpShape(p, r);
    SshShape(p, r);
  }

  lemma TwoKinds(older: Oid, newer: Oid, m: Oid)
    requires older != NULL_OID && newer != NULL_OID && older != newer && m != older && m != newer
    ensures KindOf(map[newer := [m]], older, newer) == ForcePush
    ensures KindOf(map[newer := [m]] + map[m := [older]], older, newer) == FastForward
  {
    hide Reach, ReachSet;
    var g: Graph, later: Graph := map[newer := [m]], map[m := [older]];
    ReachInClosed(g, {newer}, {newer, m});
    ReachSetClosed(g + later, {newer});
    assert m in Succ(g + later, newer) && older in Succ(g + later, m);
    assert older !in ReachSet(g, {newer}) && older in ReachSet(g + later, {newer});
  }

  /** The backend's test decides: an update from null to null of an absent ref moves nothing, and KV announces it. */
  lemma NullUpdateIsAnnounced(r: Repo, name: Bytes)
    requires name !in r.refs
    ensures var p := Push([RefUpdate(NULL_OID, NULL_OID, name)], _ => true, true, NothingToIngest, true,
                          (_, _, _) => true, map[], true);
      Ssh(p, r).events == if r.rule.KeyValue? then [RefsMoved, PostReceive([Create])] else []
  {
    var u := RefUpdate(NULL_OID, NULL_OID, name);
    var p := Push([u], _ => true, true, NothingToIngest, true, (_, _, _) => true, map[], true);
    assert [u][1..] == [] && Kinds(r.graph + map[], [u]) == [Create];
    assert Fold(r.rule, r.refs, [u]).Some? <==> r.rule.KeyValue?;
    hide Kinds, Fold;
    SshShape(p, r);
  }

  /** The repository as the handlers change it, and what the push at hand did to it. */
  class Server {
    const rule: Rule
    const removes: bool
    var refs: RefMap
    var graph: Graph
    var events: seq<Event>

    constructor (r: Repo)
      ensures State() == r && events == []
    {
      rule, removes, refs, graph, events := r.rule, r.removes, r.refs, r.graph, [];
    }

    function State(): Repo
      reads this
    {
      Repo(refs, graph, rule, removes)
    }

    /** Classify every update against the object store. */
    static method BuildPushRefs(store: Graph, updates: seq<RefUpdate>) returns (kinds: seq<PushKind>)
      ensures kinds == Kinds(store, updates)
    {
      hide KindOf;
      kinds := [];
      for i := 0 to |updates|
        invariant kinds == Kinds(store, updates)[..i]
      {
        var kind := ComputePushKind(store, updates[i].oldOid, updates[i].newOid);
        kinds := kinds + [kind];
      }
    }

    /** Store the commits of a pack; report the state before, for a rollback. */
    method IngestPack(ingest: Ingest) returns (ok: bool, before: Graph)
      modifies this`graph, this`events
      ensures ok == !ingest.IngestFailed? && before == old(graph)
      ensures graph == if ingest.Written? then old(graph) + ingest.commits else old(graph)
      ensures events == old(events) + if ingest.Written? then [PackWritten] else []
    {
      ok, before := !ingest.IngestFailed?, graph;
      if ingest.Written? {
        graph := graph + ingest.commits;
        events := events + [PackWritten];
      }
    }

    method RollbackIngest(before: Graph)
      modifies this`graph, this`events
      ensures graph == if removes then before else old(graph)
      ensures events == old(events) + [RolledBack]
    {
      if removes {
        graph := before;
      }
      events := events + [RolledBack];
    }

    method UpdateRefsAndReport(updates: seq<RefUpdate>, reported: bool) returns (ok: bool)
      modifies this`refs, this`events
      ensures ok <==> Fold(rule, old(refs), updates).Some? && reported
      ensures Fold(rule, old(refs), updates).None? ==> refs == old(refs) && events == old(events)
      ensures Fold(rule, old(refs), updates).Some? ==>
                refs == Fold(rule, old(refs), updates).value && events == old(events) + [RefsMoved]
    {
      var moved := Fold(rule, refs, updates);
      if moved.None? {
        return false;
      }
      refs, events := moved.value, events + [RefsMoved];
      ok := reported;
    }

    /** The HTTP handler, once the request has been read. */
    method RecvPackPost(p: Push)
      modifies this
      ensures Outcome(State(), events) == Http(p, old(State()))
    {
      hide Kinds, Fold;
      events := [];
      if !p.preliminary(PreliminaryKinds(p.updates)) || !p.available {
        return;
      }
      var ok, before := IngestPack(p.ingest);
      if !ok {
        return;
      }
      if p.ingest.Written? && !p.inspected {
        RollbackIngest(before);
        return;
      }
      var kinds := BuildPushRefs(graph, p.updates);
      var rejected := [];
      if !p.authorize(kinds, graph, refs) {
        if p.ingest.Written? {
          RollbackIngest(before);
        }
        rejected := p.updates;
      }
      if rejected == [] {
        var done := UpdateRefsAndReport(p.updates, p.reported);
        if done {
          events := events + [PostReceive(kinds)];
        }
      }
    }

    /** The SSH session, once the request has been read. */
    method ServeReceivePack(p: Push)
      modifies this
      ensures Outcome(State(), events) == Ssh(p, old(State()))
    {
      hide Kinds, Fold;
      events := [];
      if !p.preliminary(PreliminaryKinds(p.updates)) || !p.available {
        return;
      }
      var ok, before := IngestPack(p.ingest);
      if !ok {
        return;
      }
      if p.ingest.Written? && !p.inspected {
        RollbackIngest(before);
        return;
      }
      var kinds := BuildPushRefs(graph, p.updates);
      if !p.authorize(kinds, graph, refs) {
        if p.ingest.Written? {
          RollbackIngest(before);
        }
        return;
      }
      var done := UpdateRefsAndReport(p.updates, p.reported);
      if done {
        kinds := BuildPushRefs(graph + p.later, p.updates);
        events := events + [PostReceive(kinds)];
      }
    }
  }
}
