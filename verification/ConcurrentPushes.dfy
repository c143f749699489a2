/**
  Any number of pushes, over either transport, at work on one repository at the same time.

  Each push goes through the pipeline one step at a time and the steps of different pushes
  interleave freely.  Ingests, rollbacks and clean-ups change the object store under the other
  pushes; a push therefore finds some arbitrary store whenever it looks.
 */
module ConcurrentPushes {
  import opened ObjectIds
  import opened Wrappers
  import opened Sequences
  import opened Graphs
  import opened Keys
  import opened Comparison
  import opened Refs
  import opened PushPipeline
  import opened RefTransactions

  datatype Transport = HttpPost | SshSession

  datatype Phase =
    | Received
    | Cleared
    | Ingested
    | Inspected
    | Ruled(kinds: seq<PushKind>)
    | Moved(kinds: seq<PushKind>)
    | Ended

  /** What a push finds at one moment. */
  datatype Sight = Sight(graph: Graph, refs: RefMap)

  /** A push under way: `approvedOn` is what it had found when the forge let it pass, if it did. */
  datatype Job = Job(push: Push, via: Transport, phase: Phase, approvedOn: Option<Sight>,
                     rollbacks: nat, moves: nat, posted: seq<seq<PushKind>>)

  /** `order` lists the jobs that moved refs, in the order in which they did. */
  datatype World = World(rule: Rule, refs: RefMap, graph: Graph, jobs: seq<Job>, order: seq<nat>)

  datatype Action = Arrive(push: Push, via: Transport) | Store(graph: Graph) | Advance(job: nat)

  ghost predicate Enabled(w: World, a: Action) {
    a.Advance? ==> a.job < |w.jobs| && !w.jobs[a.job].phase.Ended?
  }

  function WithRollback(j: Job): Job {
    if j.push.ingest.Written? then j.(rollbacks := j.rollbacks + 1) else j
  }

  /** A step in which the job touches nothing but itself. */
  ghost function Worked(j: Job, now: Sight): Job
    requires !j.phase.Ended? && !j.phase.Ruled?
  {
    var p := j.push;
    match j.phase
    case Received => j.(phase := if p.preliminary(PreliminaryKinds(p.updates)) then Cleared else Ended)
    case Cleared => j.(phase := if p.available && !p.ingest.IngestFailed? then Ingested else Ended)
    case Ingested =>
      if p.ingest.Written? && !p.inspected then WithRollback(j).(phase := Ended) else j.(phase := Inspected)
    case Inspected =>
      var kinds := Kinds(now.graph, p.updates);
      if p.authorize(kinds, now.graph, now.refs) then j.(phase := Ruled(kinds), approvedOn := Some(now))
      else WithRollback(j).(phase := if j.via.HttpPost? && p.updates == [] then Ruled(kinds) else Ended)
    case Moved(kinds) =>
      var announced := if j.via.HttpPost? then kinds else Kinds(now.graph, p.updates);
      j.(phase := Ended, posted := j.posted + if p.reported then [announced] else [])
  }

  ghost function Next(w: World, a: Action): World
    requires Enabled(w, a)
  {
    match a
    case Arrive(push, via) => w.(jobs := w.jobs + [Job(push, via, Received, None, 0, 0, [])])
    case Store(graph) => w.(graph := graph)
    case Advance(i) =>
      var j := w.jobs[i];
      if j.phase.Ruled? then
        var moved := Fold(w.rule, w.refs, j.push.updates);
        if moved.None? then w.(jobs := w.jobs[i := j.(phase := Ended)])
        else w.(refs := moved.value, order := w.order + [i],
                jobs := w.jobs[i := j.(phase := Moved(j.phase.kinds), moves := j.moves + 1)])
      else w.(jobs := w.jobs[i := Worked(j, Sight(w.graph, w.refs))])
  }

  ghost predicate CanRun(w: World, run: seq<Action>)
    decreases |run|
  {
    run != [] ==> Enabled(w, run[0]) && CanRun(Next(w, run[0]), run[1..])
  }

  ghost function After(w: World, run: seq<Action>): World
    requires CanRun(w, run)
    decreases |run|
  {
    if run == [] then w else After(Next(w, run[0]), run[1..])
  }

  /** The push kinds in what a job found. */
  ghost function KindsIn(s: Sight, p: Push): seq<PushKind> {
    Kinds(s.graph, p.updates)
  }

  /** The forge let the push pass, on the store and the refs the push found. */
  ghost predicate Consented(j: Job) {
    j.approvedOn.Some? && var s := j.approvedOn.value; j.push.authorize(KindsIn(s, j.push), s.graph, s.refs)
  }

  /** How often the pack of a job in its final phases has been rolled back. */
  ghost function Rollbacks(j: Job): nat {
    if PushPipeline.Stored(j.push) && (!j.push.inspected || j.approvedOn.None?) then 1 else 0
  }

  /** What the phase of a job says about its past. */
  ghost predicate PhaseHolds(j: Job) {
    var p := j.push;
    && (!j.phase.Received? && !j.phase.Ended? ==> p.preliminary(PreliminaryKinds(p.updates)))
    && (j.phase.Ingested? ==> p.available && !p.ingest.IngestFailed?)
    && (j.phase.Inspected? || j.phase.Ruled? || j.phase.Moved? ==> Arrives(p))
    && (j.phase.Ruled? && p.updates != [] ==> Consented(j))
    && (j.phase.Received? || j.phase.Cleared? || j.phase.Ingested? || j.phase.Inspected? ==>
          j.approvedOn.None? && j.rollbacks == 0 && j.moves == 0)
    && (j.phase.Ruled? ==> j.moves == 0)
    && (j.phase.Moved? ==> j.moves == 1)
    && (j.phase.Ruled? || j.phase.Moved? || j.phase.Ended? ==> j.rollbacks == Rollbacks(j))
    && (!j.phase.Ended? ==> j.posted == [])
    && (j.phase.Ended? ==> |j.posted| == if j.moves == 1 && p.reported then 1 else 0)
    && ((j.phase.Ruled? || j.phase.Moved?) && Consented(j) ==> j.phase.kinds == KindsIn(j.approvedOn.value, p))
  }

  /** What holds of every job at every moment. */
  ghost predicate JobHolds(j: Job) {
    && PhaseHolds(j)
    && (j.approvedOn.Some? ==> Consented(j))
    && j.moves <= 1
    && (j.moves == 1 ==> Arrives(j.push) && (j.push.updates != [] ==> Consented(j)))
    && (j.via.HttpPost? && j.approvedOn.Some? && j.posted != [] ==> j.posted[0] == KindsIn(j.approvedOn.value, j.push))
  }

  /** The updates of the listed jobs, one batch after the other. */
  function Batches(jobs: seq<Job>, order: seq<nat>): seq<RefUpdate>
    requires forall k :: 0 <= k < |order| ==> order[k] < |jobs|
  {
    if order == [] then [] else Batches(jobs, order[..|order| - 1]) + jobs[order[|order| - 1]].push.updates
  }

  ghost predicate OrderHolds(jobs: seq<Job>, order: seq<nat>) {
    && Distinct(order)
    && (forall k :: 0 <= k < |order| ==> order[k] < |jobs|)
    && (forall i :: 0 <= i < |jobs| ==> (i in order <==> jobs[i].moves == 1))
  }

  ghost predicate Inv(initial: RefMap, w: World) {
    && (forall i :: 0 <= i < |w.jobs| ==> JobHolds(w.jobs[i]))
    && OrderHolds(w.jobs, w.order)
    && Fold(w.rule, initial, Batches(w.jobs, w.order)) == Some(w.refs)
  }

  /** Batches look at requests only. */
  lemma {:induction false} SameRequests(jobs: seq<Job>, jobs': seq<Job>, order: seq<nat>)
    requires |jobs| <= |jobs'| && forall i :: 0 <= i < |jobs| ==> jobs'[i].push == jobs[i].push
    requires forall k :: 0 <= k < |order| ==> order[k] < |jobs|
    ensures Batches(jobs', order) == Batches(jobs, order)
    decreases |order|
  {
    if order != [] {
      SameRequests(jobs, jobs', order[..|order| - 1]);
    }
  }

  lemma WorkedHolds(j: Job, now: Sight)
    requires JobHolds(j) && !j.phase.Ended? && !j.phase.Ruled?
    ensures JobHolds(Worked(j, now)) && Worked(j, now).moves == j.moves && Worked(j, now).push == j.push
  {
    hide Kinds, PreliminaryKinds;
  }

  lemma RuledHolds(j: Job)
    requires JobHolds(j) && j.phase.Ruled?
    ensures JobHolds(j.(phase := Ended))
    ensures JobHolds(j.(phase := Moved(j.phase.kinds), moves := j.moves + 1))
  {
    hide Kinds, PreliminaryKinds;
  }

  /** Changing one job without moving refs keeps the invariant. */
  lemma JobChanged(initial: RefMap, w: World, i: nat, j: Job)
    requires Inv(initial, w) && i < |w.jobs|
    requires JobHolds(j) && j.moves == w.jobs[i].moves && j.push == w.jobs[i].push
    ensures Inv(initial, w.(jobs := w.jobs[i := j]))
  {
    hide JobHolds, Fold, Batches;
    SameRequests(w.jobs, w.jobs[i := j], w.order);
  }

  lemma OrderSnoc(jobs: seq<Job>, order: seq<nat>, i: nat, j: Job)
    requires OrderHolds(jobs, order) && i < |jobs| && jobs[i].moves == 0 && j.moves == 1
    ensures OrderHolds(jobs[i := j], order + [i])
  {
    SnocDistinct(order, i);
  }

  lemma JobMoved(initial: RefMap, w: World, i: nat)
    requires Inv(initial, w) && i < |w.jobs| && w.jobs[i].phase.Ruled?
    requires Fold(w.rule, w.refs, w.jobs[i].push.updates).Some?
    ensures Inv(initial, Next(w, Advance(i)))
  {
    hide Fold, Batches, Kinds;
    var j := w.jobs[i];
    var w' := Next(w, Advance(i));
    RuledHolds(j);
    OrderSnoc(w.jobs, w.order, i, w'.jobs[i]);
    SameRequests(w.jobs, w'.jobs, w.order);
    BatchesSnoc(w'.jobs, w.order, i);
    FoldAppend(w.rule, initial, Batches(w.jobs, w.order), j.push.updates);
  }

  lemma BatchesSnoc(jobs: seq<Job>, order: seq<nat>, i: nat)
    requires i < |jobs| && forall k :: 0 <= k < |order| ==> order[k] < |jobs|
    ensures Batches(jobs, order + [i]) == Batches(jobs, order) + jobs[i].push.updates
  {
    assert (order + [i])[..|order|] == order;
  }

  lemma StepKeepsInv(initial: RefMap, w: World, a: Action)
    requires Inv(initial, w) && Enabled(w, a)
    ensures Inv(initial, Next(w, a))
  {
    hide JobHolds, Fold, Batches, Worked;
    match a
    case Arrive(push, via) =>
      JobArrives(push, via);
      SameRequests(w.jobs, Next(w, a).jobs, w.order);
      assert |w.jobs| !in w.order;
    case Store(_) =>
    case Advance(i) =>
      var j := w.jobs[i];
      if !j.phase.Ruled? {
        WorkedHolds(j, Sight(w.graph, w.refs));
        JobChanged(initial, w, i, Worked(j, Sight(w.graph, w.refs)));
      } else if Fold(w.rule, w.refs, j.push.updates).Some? {
        JobMoved(initial, w, i);
      } else {
        RuledHolds(j);
        JobChanged(initial, w, i, j.(phase := Ended));
      }
  }

  lemma JobArrives(push: Push, via: Transport)
    ensures JobHolds(Job(push, via, Received, None, 0, 0, []))
  {
  }

  lemma {:induction false} RunKeepsInv(initial: RefMap, w: World, run: seq<Action>)
    requires Inv(initial, w) && CanRun(w, run)
    ensures Inv(initial, After(w, run))
    decreases |run|
  {
    hide Inv;
    if run != [] {
      StepKeepsInv(initial, w, run[0]);
      RunKeepsInv(initial, Next(w, run[0]), run[1..]);
    }
  }

  ghost function Start(rule: Rule, initial: RefMap, graph: Graph): World {
    World(rule, initial, graph, [], [])
  }

  ghost predicate Reachable(initial: RefMap, w: World) {
    exists graph, run ::
      CanRun(Start(w.rule, initial, graph), run) && After(Start(w.rule, initial, graph), run) == w
  }

  /**
    Whatever the interleaving, and whichever test the backend makes: the refs are the outcome of
    the batches of the jobs that moved them, one after the other; every job keeps the rules of
    the pipeline.
   */
  lemma EveryRunIsSafe(initial: RefMap, w: World)
    requires Reachable(initial, w)
    ensures Inv(initial, w)
  {
    hide Fold;
    var graph, run :| CanRun(Start(w.rule, initial, graph), run) && After(Start(w.rule, initial, graph), run) == w;
    hide After, CanRun;
    EmptyFold(w.rule, initial);
    RunKeepsInv(initial, Start(w.rule, initial, graph), run);
  }

  lemma {:induction false} BatchMember(jobs: seq<Job>, order: seq<nat>, u: RefUpdate) returns (i: nat)
    requires forall k :: 0 <= k < |order| ==> order[k] < |jobs|
    requires u in Batches(jobs, order)
    ensures i in order && i < |jobs| && u in jobs[i].push.updates
    decreases |order|
  {
    i := order[|order| - 1];
    if u !in jobs[i].push.updates {
      i := BatchMember(jobs, order[..|order| - 1], u);
    }
  }

  /** The job passed every check, kept its pack, and its batch gives the ref this value. */
  ghost predicate Author(j: Job, name: Bytes, value: Oid) {
    && Consented(j) && Arrives(j.push) && j.moves == 1 && j.rollbacks == 0
    && exists u :: u in j.push.updates && u.refname == name && u.newOid == value
  }

  /**
    No value without consent: whatever a ref holds that it did not hold at first was put there
    by a push that passed the preliminary check, inspection and the full check, whose batch
    names the ref and the value, and whose pack was not rolled back.
   */
  lemma NoValueWithoutConsent(initial: RefMap, w: World, name: Bytes)
    requires NonNull(initial) && Reachable(initial, w) && Held(w.refs, name) != Held(initial, name)
    ensures exists i :: 0 <= i < |w.jobs| && Author(w.jobs[i], name, Held(w.refs, name))
  {
    hide Fold, Reachable, Consented, Arrives, Batches;
    EveryRunIsSafe(initial, w);
    var us := Batches(w.jobs, w.order);
    if w.rule.Contract? { KvKeepsContractIff(initial, us); }
    ValueNeedsWriter(initial, us, name);
    var u :| u in us && u.refname == name && u.newOid == Held(w.refs, name);
    var i := BatchMember(w.jobs, w.order, u);
    var j := w.jobs[i];
    assert JobHolds(j) && j.push.updates != [] && Consented(j) && Arrives(j.push);
    assert j.rollbacks == 0 by { ApprovedKeepsPack(j); }
  }

  lemma ApprovedKeepsPack(j: Job)
    requires JobHolds(j) && j.moves == 1 && j.push.updates != []
    ensures j.rollbacks == 0
  {
    hide Kinds, PreliminaryKinds;
  }

  /** The first job takes its next step, if it has one. */
  ghost function Driven(w: World): (w': World)
    requires |w.jobs| == 1
    ensures |w'.jobs| == 1
  {
    if w.jobs[0].phase.Ended? then w else Next(w, Advance(0))
  }

  ghost function Arrived(p: Push, via: Transport, r: Repo): (w: World)
    ensures |w.jobs| == 1
  {
    Next(Start(r.rule, r.refs, r.graph), Arrive(p, via))
  }

  /** A push that runs alone: its pack is stored before it is inspected, `later` before it is announced. */
  ghost function LoneRun(p: Push, via: Transport, r: Repo): (w: World)
    ensures |w.jobs| == 1
  {
    var stored := Driven(Driven(Arrived(p, via, r))).(graph := IngestedGraph(p, r));
    var finished := Driven(Driven(Driven(stored)));
    Driven(finished.(graph := IngestedGraph(p, r) + p.later))
  }

  lemma {:induction false} RunSnoc(w: World, run: seq<Action>, a: Action)
    requires CanRun(w, run) && Enabled(After(w, run), a)
    ensures CanRun(w, run + [a]) && After(w, run + [a]) == Next(After(w, run), a)
    decreases |run|
  {
    hide Next, Enabled;
    if run == [] {
      assert run + [a] == [a] && [a][1..] == [];
    } else {
      assert (run + [a])[1..] == run[1..] + [a];
      RunSnoc(Next(w, run[0]), run[1..], a);
    }
  }

  lemma ReachableStep(initial: RefMap, w: World, a: Action)
    requires Reachable(initial, w) && Enabled(w, a)
    ensures Reachable(initial, Next(w, a))
  {
    var graph, run :| CanRun(Start(w.rule, initial, graph), run) && After(Start(w.rule, initial, graph), run) == w;
    hide After, CanRun, Next, Enabled;
    RunSnoc(Start(w.rule, initial, graph), run, a);
    assert Next(w, a).rule == w.rule by { SameRule(w, a); }
    assert CanRun(Start(w.rule, initial, graph), run + [a]);
  }

  lemma SameRule(w: World, a: Action)
    requires Enabled(w, a)
    ensures Next(w, a).rule == w.rule
  {
    hide Worked, Fold;
  }

  lemma DrivenIsReachable(initial: RefMap, w: World, graph: Graph)
    requires |w.jobs| == 1 && Reachable(initial, w)
    ensures Reachable(initial, Driven(w)) && Reachable(initial, w.(graph := graph))
  {
    hide Reachable, Worked, Fold;
    if !w.jobs[0].phase.Ended? { ReachableStep(initial, w, Advance(0)); }
    ReachableStep(initial, w, Store(graph));
  }

  /** It is a run like any other. */
  lemma LoneRunIsReachable(p: Push, via: Transport, r: Repo)
    ensures Reachable(r.refs, LoneRun(p, via, r))
  {
    var w0, g := Arrived(p, via, r), IngestedGraph(p, r);
    assert Reachable(r.refs, w0) by {
      var start := Start(r.rule, r.refs, r.graph);
      assert CanRun(start, []) && After(start, []) == start;
      assert Reachable(r.refs, start);
      ReachableStep(r.refs, start, Arrive(p, via));
    }
    hide Reachable, Driven, Arrived;
    DrivenIsReachable(r.refs, w0, g);
    DrivenIsReachable(r.refs, Driven(w0), g);
    DrivenIsReachable(r.refs, Driven(Driven(w0)), g);
    var w := Driven(Driven(w0)).(graph := g);
    DrivenIsReachable(r.refs, w, g);
    DrivenIsReachable(r.refs, Driven(w), g);
    DrivenIsReachable(r.refs, Driven(Driven(w)), g);
    var w' := Driven(Driven(Driven(w)));
    DrivenIsReachable(r.refs, w', g + p.later);
    DrivenIsReachable(r.refs, w'.(graph := g + p.later), g);
  }

  lemma LoneStart(p: Push, via: Transport, r: Repo)
    ensures var g := IngestedGraph(p, r);
      var open := p.preliminary(PreliminaryKinds(p.updates)) && p.available && !p.ingest.IngestFailed?;
      Driven(Driven(Arrived(p, via, r))).(graph := g)
      == World(r.rule, r.refs, g, [Job(p, via, if open then Ingested else Ended, None, 0, 0, [])], [])
  {
    hide PreliminaryKinds;
  }

  /** What a lone push is judged by, once its pack is stored. */
  lemma LoneVerdict(p: Push, via: Transport, r: Repo)
    requires p.preliminary(PreliminaryKinds(p.updates)) && p.available && !p.ingest.IngestFailed?
    ensures var g, kinds := IngestedGraph(p, r), Kinds(IngestedGraph(p, r), p.updates);
      var j := Job(p, via, Ingested, None, 0, 0, []);
      var down := if p.ingest.Written? then 1 else 0;
      Driven(Driven(World(r.rule, r.refs, g, [j], []))) == World(r.rule, r.refs, g, [
        if p.ingest.Written? && !p.inspected then j.(phase := Ended, rollbacks := down)
        else if Approved(p, r) then j.(phase := Ruled(kinds), approvedOn := Some(Sight(g, r.refs)))
        else j.(phase := if via.HttpPost? && p.updates == [] then Ruled(kinds) else Ended, rollbacks := down)], [])
  {
    hide Kinds, PreliminaryKinds;
  }

  /** The last steps of a job that may move its refs. */
  lemma LoneFinish(r: Repo, g: Graph, later: Graph, j: Job)
    requires j.phase.Ruled? && j.moves == 0 && j.posted == []
    ensures var moved := Fold(r.rule, r.refs, j.push.updates);
      var w := Driven(World(r.rule, r.refs, g, [j], []));
      var w' := Driven(w.(graph := later));
      && w'.jobs[0].phase.Ended? && w'.jobs[0].rollbacks == j.rollbacks
      && w'.refs == (if moved.Some? then moved.value else r.refs)
      && w'.jobs[0].moves == (if moved.Some? then 1 else 0)
      && w'.jobs[0].posted == if moved.None? || !j.push.reported then []
                              else [if j.via.HttpPost? then j.phase.kinds else Kinds(later, j.push.updates)]
  {
    hide Kinds, Fold;
    assert [] + [j.phase.kinds] == [j.phase.kinds];
  }

  /**
    A push that runs alone does what the handler of its transport does: the same refs, moves,
    rollbacks and announcements.
   */
  lemma LonePushIsPipeline(p: Push, via: Transport, r: Repo)
    ensures Reachable(r.refs, LoneRun(p, via, r))
    ensures var w, o := LoneRun(p, via, r), if via.HttpPost? then Http(p, r) else Ssh(p, r);
      var j := w.jobs[0];
      && j.phase.Ended? && w.refs == o.repo.refs
      && j.moves == Count(o.events, IsMove) && j.rollbacks == Count(o.events, IsRollback)
      && |j.posted| == Count(o.events, IsPost)
      && (j.posted != [] ==> PostReceive(j.posted[0]) in o.events)
  {
    hide Kinds, PreliminaryKinds, Fold, Driven, Arrived, Count, Trace, Http, Ssh, Reachable;
    LoneRunIsReachable(p, via, r);
    var g, kinds := IngestedGraph(p, r), Kinds(IngestedGraph(p, r), p.updates);
    LoneStart(p, via, r);
    LonePipeline(p, r);
    EmptyFold(r.rule, r.refs);
    var j0 := Job(p, via, Ingested, None, 0, 0, []);
    if p.preliminary(PreliminaryKinds(p.updates)) && p.available && !p.ingest.IngestFailed? {
      LoneVerdict(p, via, r);
      var w := Driven(Driven(World(r.rule, r.refs, g, [j0], [])));
      if w.jobs[0].phase.Ruled? {
        LoneFinish(r, g, g + p.later, w.jobs[0]);
      } else {
        LoneEnd(w, g + p.later);
      }
    } else {
      LoneEnd(World(r.rule, r.refs, g, [j0.(phase := Ended)], []), g + p.later);
    }
  }

  lemma LoneEnd(w: World, later: Graph)
    requires |w.jobs| == 1 && w.jobs[0].phase.Ended?
    ensures Driven(w) == w && Driven(w.(graph := later)) == w.(graph := later)
  {
  }

  /** What the two handlers do, counted. */
  lemma LonePipeline(p: Push, r: Repo)
    ensures var passed, down := AllPassed(p, r), TurnedDown(p, r);
      var http, moved := passed || UnheardRefusal(p, r), Fold(r.rule, r.refs, p.updates);
      && (Http(p, r).repo.refs == if passed then moved.value else r.refs)
      && (Ssh(p, r).repo.refs == if passed then moved.value else r.refs)
      && (Count(Http(p, r).events, IsMove) == if http then 1 else 0)
      && (Count(Http(p, r).events, IsRollback) == if down then 1 else 0)
      && (Count(Http(p, r).events, IsPost) == if http && p.reported then 1 else 0)
      && (Count(Ssh(p, r).events, IsMove) == if passed then 1 else 0)
      && (Count(Ssh(p, r).events, IsRollback) == if down then 1 else 0)
      && (Count(Ssh(p, r).events, IsPost) == if passed && p.reported then 1 else 0)
      && (http && p.reported ==> PostReceive(Kinds(IngestedGraph(p, r), p.updates)) in Http(p, r).events)
      && (passed && p.reported ==> PostReceive(Kinds(IngestedGraph(p, r) + p.later, p.updates)) in Ssh(p, r).events)
  {
    hide Kinds, Fold, Count, Trace, Tally;
    var passed, down := AllPassed(p, r), TurnedDown(p, r);
    var http, g := passed || UnheardRefusal(p, r), IngestedGraph(p, r);
    HttpShape(p, r);
    SshShape(p, r);
    TraceCounts(Stored(p), down, http, http && p.reported, Kinds(g, p.updates));
    TraceCounts(Stored(p), down, passed, passed && p.reported, Kinds(g + p.later, p.updates));
    TraceHas(Stored(p), down, http, http && p.reported, Kinds(g, p.updates));
    TraceHas(Stored(p), down, passed, passed && p.reported, Kinds(g + p.later, p.updates));
    SshIsSafe(p, r);
    SameRepository(p, r);
  }
}
