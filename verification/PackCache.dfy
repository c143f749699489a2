/**
  The on-disk pack cache: why a hit is as good as a fresh build while the store grows, and when
  it is not.
 */
module PackCache {
  import opened ObjectIds
  import opened Wrappers
  import opened Sequences
  import opened Graphs
  import opened ObjectStore
  import opened Keys
  import opened KvBuildPack
  import opened CacheKeys

  /** Every reference of every stored object is stored. */
  ghost predicate RefClosed(s: Store) {
    forall x, y :: x in s && y in References(s[x]) ==> y in s
  }

  /** Objects are only ever added; an id keeps its object. */
  ghost predicate Grows(s: Store, s': Store) {
    forall x :: x in s ==> x in s' && s'[x] == s[x]
  }

  lemma StoredEdges(s: Store, s': Store, cut: set<Oid>, x: Oid)
    requires Grows(s, s') && x in s
    ensures Succ(CommitGraph(s'), x) == Succ(CommitGraph(s), x)
    ensures Succ(TreeGraph(s', false) - cut, x) == Succ(TreeGraph(s, false) - cut, x)
    ensures RefClosed(s) ==>
      forall y :: y in Succ(CommitGraph(s), x) || y in Succ(TreeGraph(s, false) - cut, x) ==> y in s
  {
  }

  /** In a closed store, walks from stored tips stay in the store, so later additions do not change them. */
  lemma WalksAreStable(s: Store, s': Store, tips: set<Oid>, cut: set<Oid>)
    requires RefClosed(s) && Grows(s, s') && tips <= s.Keys
    ensures Ancestors(s, tips) <= s.Keys && Ancestors(s', tips) == Ancestors(s, tips)
    ensures ReachSet(TreeGraph(s', false) - cut, tips) == ReachSet(TreeGraph(s, false) - cut, tips) <= s.Keys
  {
    hide ReachSet, Reach, CommitGraph, TreeGraph, RefClosed, Grows;
    var cg, tg := CommitGraph(s), TreeGraph(s, false) - cut;
    forall x | x in s
      ensures Succ(CommitGraph(s'), x) == Succ(cg, x) && Succ(TreeGraph(s', false) - cut, x) == Succ(tg, x)
      ensures forall y :: y in Succ(cg, x) || y in Succ(tg, x) ==> y in s
    {
      StoredEdges(s, s', cut, x);
    }
    ReachInClosed(cg, tips, s.Keys);
    ReachInClosed(tg, tips, s.Keys);
    ReachAgrees(cg, CommitGraph(s'), tips);
    ReachAgrees(tg, TreeGraph(s', false) - cut, tips);
  }

  lemma NamesAreStable(s: Store, s': Store, ids: set<Oid>)
    requires Grows(s, s') && ids <= s.Keys
    ensures NamedTrees(s', ids) == NamedTrees(s, ids)
  {
    assert forall x :: x in ids ==> ReadCommitTree(s', x) == ReadCommitTree(s, x);
  }

  lemma CollectedIsStable(s: Store, s': Store, commits: set<Oid>, known: set<Oid>)
    requires RefClosed(s) && Grows(s, s') && commits <= s.Keys && known <= s.Keys && NamedTrees(s, commits) <= s.Keys
    ensures Collected(s', commits, known) == Collected(s, commits, known) <= s.Keys
  {
    hide ReachSet, Reach, TreeGraph, RefClosed, Grows, NamedTrees;
    NamesAreStable(s, s', commits);
    WalksAreStable(s, s', NamedTrees(s, commits), known);
  }

  /** The haves are stored, and so are the trees they name; for commits in a closed store the second is no matter. */
  ghost predicate HavesStored(s: Store, have: set<Oid>) {
    have <= s.Keys && NamedTrees(s, Ancestors(s, have)) <= s.Keys
  }

  /** The wants are stored, and so are the trees that what they list names. */
  ghost predicate WantsStored(s: Store, want: set<Oid>, have: set<Oid>) {
    want <= s.Keys && NamedTrees(s, Ancestors(s, want) - Ancestors(s, have)) <= s.Keys
  }

  /** Requests for commits meet both when their ids are stored. */
  lemma CommitsNameStored(s: Store, want: set<Oid>, have: set<Oid>)
    requires Typed(s) && RefClosed(s) && CommitsOnly(s, want) && CommitsOnly(s, have)
    ensures HavesStored(s, have) <==> have <= s.Keys
    ensures WantsStored(s, want, have) <==> want <= s.Keys
  {
    hide ReachSet, Reach, NamedTrees;
    AncestorsAreCommits(s, want);
    AncestorsAreCommits(s, have);
    CommitsNameRoots(s, Ancestors(s, have));
    CommitsNameRoots(s, Ancestors(s, want) - Ancestors(s, have));
    assert forall c :: IsCommit(s, c) ==> References(s[c])[0] == s[c].tree;
  }

  /** A request whose ids are stored selects the same objects however the store grows. */
  lemma NeededIsStable(s: Store, s': Store, want: set<Oid>, have: set<Oid>)
    requires RefClosed(s) && Grows(s, s') && HavesStored(s, have) && WantsStored(s, want, have)
    ensures KvNeeded(s', want, have) == KvNeeded(s, want, have) <= s.Keys
  {
    hide ReachSet, Reach, RefClosed, Grows, Ancestors, Collected, NamedTrees;
    WalksAreStable(s, s', want, {});
    WalksAreStable(s, s', have, {});
    var commits := Ancestors(s, want) - Ancestors(s, have);
    CollectedIsStable(s, s', commits, commits + want);
    CollectedIsStable(s, s', Ancestors(s, have), Ancestors(s, have));
  }

  /** Stored ids stay stored, and go on naming stored trees. */
  lemma StoredStays(s: Store, s': Store, want: set<Oid>, have: set<Oid>)
    requires RefClosed(s) && Grows(s, s') && HavesStored(s, have) && WantsStored(s, want, have)
    ensures HavesStored(s', have) && WantsStored(s', want, have)
  {
    hide ReachSet, Reach, RefClosed, Ancestors, NamedTrees;
    WalksAreStable(s, s', want, {});
    WalksAreStable(s, s', have, {});
    NamesAreStable(s, s', Ancestors(s, have));
    NamesAreStable(s, s', Ancestors(s, want) - Ancestors(s, have));
  }

  /** What a build without the cache packs: the needed objects that can be read. */
  ghost function FreshBuild(s: Store, r: Request): set<Oid> {
    KvNeeded(s, Elems(r.want), Elems(r.have)) * s.Keys
  }

  lemma FreshIsStable(s: Store, s': Store, r: Request)
    requires RefClosed(s) && Grows(s, s')
    requires HavesStored(s, Elems(r.have)) && WantsStored(s, Elems(r.want), Elems(r.have))
    ensures FreshBuild(s', r) == FreshBuild(s, r)
  {
    hide KvNeeded, RefClosed, NamedTrees, Ancestors;
    NeededIsStable(s, s', Elems(r.want), Elems(r.have));
  }

  lemma Arrival(s: Store, w: Oid)
    requires RefClosed(s) && w !in s
    ensures Grows(s, s[w := Blob(None)]) && RefClosed(s[w := Blob(None)])
  {
    assert References(Blob(None)) == [];
  }

  /** What is subtracted stays as it is. */
  lemma HaveSideIsStable(s: Store, s': Store, have: set<Oid>)
    requires RefClosed(s) && Grows(s, s') && HavesStored(s, have)
    ensures Ancestors(s', have) == Ancestors(s, have) <= s.Keys
    ensures Collected(s', Ancestors(s', have), Ancestors(s', have)) <= s.Keys
  {
    hide ReachSet, Reach, RefClosed, Grows, Ancestors, Collected, NamedTrees;
    WalksAreStable(s, s', have, {});
    CollectedIsStable(s, s', Ancestors(s, have), Ancestors(s, have));
  }

  /** A missing want that arrives is packed. */
  lemma ArrivedWantIsPacked(s: Store, r: Request, w: Oid)
    requires RefClosed(s) && HavesStored(s, Elems(r.have)) && w in r.want && w !in s
    ensures var s' := s[w := Blob(None)];
      Grows(s, s') && RefClosed(s') && w in FreshBuild(s', r) && w !in FreshBuild(s, r)
  {
    hide ReachSet, Reach, NamedTrees, RefClosed, Grows;
    Arrival(s, w);
    HaveSideIsStable(s, s[w := Blob(None)], Elems(r.have));
    assert w in Elems(r.want);
  }

  /** So is a missing tree that a wanted blob names. */
  lemma ArrivedTreeIsPacked(s: Store, r: Request, t: Oid)
    requires RefClosed(s) && HavesStored(s, Elems(r.have)) && Elems(r.want) <= s.Keys && t !in s
    requires t in NamedTrees(s, Ancestors(s, Elems(r.want)) - Ancestors(s, Elems(r.have)))
    ensures var s' := s[t := Blob(None)];
      Grows(s, s') && RefClosed(s') && t in FreshBuild(s', r) && t !in FreshBuild(s, r)
  {
    hide ReachSet, Reach, NamedTrees, RefClosed, Grows, Ancestors;
    var s', want, have := s[t := Blob(None)], Elems(r.want), Elems(r.have);
    Arrival(s, t);
    HaveSideIsStable(s, s', have);
    WalksAreStable(s, s', want, {});
    var commits := Ancestors(s, want) - Ancestors(s, have);
    NamesAreStable(s, s', commits);
    ReachSetClosed(TreeGraph(s', false) - (commits + want), NamedTrees(s', commits));
  }

  /**
    When a pack stays right, however the store grows: exactly if every want was stored when it
    was built, and every tree that a wanted blob names.
   */
  lemma FreshIsStableIff(s: Store, r: Request)
    requires RefClosed(s) && HavesStored(s, Elems(r.have))
    ensures (forall s' :: Grows(s, s') && RefClosed(s') ==> FreshBuild(s', r) == FreshBuild(s, r))
      <==> WantsStored(s, Elems(r.want), Elems(r.have))
  {
    hide FreshBuild, RefClosed, Grows, NamedTrees, Ancestors, HavesStored;
    if WantsStored(s, Elems(r.want), Elems(r.have)) {
      forall s' | Grows(s, s') && RefClosed(s') ensures FreshBuild(s', r) == FreshBuild(s, r) {
        FreshIsStable(s, s', r);
      }
    } else if !(Elems(r.want) <= s.Keys) {
      var w :| w in Elems(r.want) && w !in s.Keys;
      ArrivedWantIsPacked(s, r, w);
    } else {
      var t :| t in NamedTrees(s, Ancestors(s, Elems(r.want)) - Ancestors(s, Elems(r.have))) && t !in s.Keys;
      ArrivedTreeIsPacked(s, r, t);
    }
  }

  /** A cached file: a whole pack, or one whose writing broke off. */
  datatype File = Whole(objects: set<Oid>) | Cut

  /** How writing a file ends; nothing is written if it cannot be created. */
  datatype Writing = Completed | NotBegun | BrokenOff

  /** Every repository's store, the cached files, and for each the request it was last written for. */
  datatype State = State(stores: map<RepoId, Store>, cache: map<Bytes, File>, origin: map<Bytes, Request>)

  function Content(st: State, repo: RepoId): Store {
    if repo in st.stores then st.stores[repo] else map[]
  }

  /** A build may find its cache file unreadable, and its own writing may fail. */
  datatype Event = Ingested(repo: RepoId, extra: Store) | Built(request: Request, readable: bool, writing: Writing)

  ghost predicate Hit(st: State, e: Event)
    requires e.Built?
  {
    e.readable && Key(e.request) in st.cache
  }

  ghost function FreshAnswer(st: State, r: Request): set<Oid> {
    FreshBuild(Content(st, r.repo), r)
  }

  /** A hit serves the file as it is; a miss serves what was built, however the writing ends. */
  ghost function Answer(st: State, e: Event): File
    requires e.Built?
  {
    if Hit(st, e) then st.cache[Key(e.request)] else Whole(FreshAnswer(st, e.request))
  }

  ghost function Step(st: State, e: Event): State {
    match e
    case Ingested(repo, extra) => st.(stores := st.stores[repo := Content(st, repo) + extra])
    case Built(r, _, writing) =>
      if Hit(st, e) || writing.NotBegun? then st
      else
        var file := if writing.Completed? then Whole(FreshAnswer(st, r)) else Cut;
        st.(cache := st.cache[Key(r) := file], origin := st.origin[Key(r) := r])
  }

  ghost predicate IdsStored(st: State, r: Request) {
    var s := Content(st, r.repo);
    HavesStored(s, Elems(r.have)) && WantsStored(s, Elems(r.want), Elems(r.have))
  }

  /** Ingest adds objects without changing any and keeps references stored; builds ask for stored ids. */
  ghost predicate Sensible(st: State, e: Event) {
    match e
    case Ingested(repo, extra) =>
      var s := Content(st, repo); Grows(s, s + extra) && RefClosed(s + extra)
    case Built(r, _, _) => IdsStored(st, r)
  }

  ghost predicate SensibleRun(st: State, run: seq<Event>)
    decreases |run|
  {
    run != [] ==> Sensible(st, run[0]) && SensibleRun(Step(st, run[0]), run[1..])
  }

  ghost function After(st: State, run: seq<Event>): State
    decreases |run|
  {
    if run == [] then st else After(Step(st, run[0]), run[1..])
  }

  /** Every build of the run, hit or miss, answers what a fresh build would at that moment. */
  ghost predicate Coherent(st: State, run: seq<Event>)
    decreases |run|
  {
    run != [] ==>
      && (run[0].Built? ==> Answer(st, run[0]) == Whole(FreshAnswer(st, run[0].request)))
      && Coherent(Step(st, run[0]), run[1..])
  }

  /** Requests with equal keys have equally many wants. */
  ghost predicate CountsSeparate(requests: set<Request>) {
    forall a, b :: a in requests && b in requests && Key(a) == Key(b) ==> |a.want| == |b.want|
  }

  ghost predicate CacheInv(st: State, requests: set<Request>) {
    && (forall repo :: repo in st.stores ==> RefClosed(st.stores[repo]))
    && st.cache.Keys == st.origin.Keys
    && forall k :: k in st.cache ==> EntryHolds(st, k, requests)
  }

  /** A cached file, if it is whole, is what a fresh build of its request would give now. */
  ghost predicate EntryHolds(st: State, k: Bytes, requests: set<Request>)
    requires k in st.cache && k in st.origin
  {
    && st.origin[k] in requests && Key(st.origin[k]) == k && IdsStored(st, st.origin[k])
    && (st.cache[k].Whole? ==> st.cache[k].objects == FreshAnswer(st, st.origin[k]))
  }

  ghost predicate NoneCut(st: State) {
    forall k :: k in st.cache ==> st.cache[k].Whole?
  }

  /** No writing of the run breaks off. */
  ghost predicate Calm(run: seq<Event>) {
    forall e :: e in run && e.Built? ==> !e.writing.BrokenOff?
  }

  lemma SameRequest(a: Request, b: Request, s: Store)
    requires |a.want| == |b.want| && Key(a) == Key(b)
    ensures a.repo == b.repo && FreshBuild(s, a) == FreshBuild(s, b)
  {
    hide Key, KvNeeded;
    KeyIff(a, b);
    SameElements(a.want, b.want);
    SameElements(a.have, b.have);
  }

  lemma SameElements(a: seq<Oid>, b: seq<Oid>)
    requires multiset(a) == multiset(b)
    ensures Elems(a) == Elems(b)
  {
    assert forall x :: x in a <==> x in multiset(a);
    assert forall x :: x in b <==> x in multiset(b);
  }

  lemma IngestKeepsCache(st: State, repo: RepoId, extra: Store, requests: set<Request>)
    requires CacheInv(st, requests) && Sensible(st, Ingested(repo, extra))
    ensures CacheInv(Step(st, Ingested(repo, extra)), requests)
  {
    hide Key, FreshBuild, Grows, HavesStored, WantsStored;
    var s, st' := Content(st, repo), Step(st, Ingested(repo, extra));
    assert RefClosed(s);
    hide RefClosed;
    forall k | k in st.cache ensures EntryHolds(st', k, requests) {
      assert EntryHolds(st, k, requests);
      var r := st.origin[k];
      if r.repo == repo {
        FreshIsStable(s, s + extra, r);
        StoredStays(s, s + extra, Elems(r.want), Elems(r.have));
      }
    }
  }

  lemma SameStores(st: State, st': State, r: Request)
    requires st'.stores == st.stores
    ensures FreshAnswer(st', r) == FreshAnswer(st, r) && (IdsStored(st', r) <==> IdsStored(st, r))
  {
    hide FreshBuild, HavesStored, WantsStored;
  }

  lemma HitIsFresh(st: State, e: Event, requests: set<Request>)
    requires e.Built? && CacheInv(st, requests) && CountsSeparate(requests) && e.request in requests
    ensures Answer(st, e) == Cut || Answer(st, e) == Whole(FreshAnswer(st, e.request))
  {
    hide Key, FreshBuild, RefClosed, IdsStored;
    var k := Key(e.request);
    if Hit(st, e) {
      assert EntryHolds(st, k, requests);
      SameRequest(st.origin[k], e.request, Content(st, e.request.repo));
    }
  }

  lemma BuildKeepsCache(st: State, e: Event, requests: set<Request>)
    requires e.Built? && CacheInv(st, requests) && Sensible(st, e) && e.request in requests
    ensures CacheInv(Step(st, e), requests)
  {
    hide Key, FreshBuild, RefClosed, HavesStored, WantsStored;
    var r, st' := e.request, Step(st, e);
    forall k | k in st'.cache ensures EntryHolds(st', k, requests) {
      SameStores(st, st', st'.origin[k]);
      if k in st.cache { assert EntryHolds(st, k, requests); }
    }
  }

  lemma StepKeepsCache(st: State, e: Event, requests: set<Request>)
    requires CacheInv(st, requests) && Sensible(st, e)
    requires e.Built? ==> e.request in requests
    ensures CacheInv(Step(st, e), requests)
  {
    hide CacheInv, Sensible, Step;
    match e
    case Ingested(repo, extra) => IngestKeepsCache(st, repo, extra, requests);
    case Built(_, _, _) => BuildKeepsCache(st, e, requests);
  }

  lemma {:induction false} RunKeepsCache(st: State, run: seq<Event>, requests: set<Request>)
    requires CacheInv(st, requests) && SensibleRun(st, run)
    requires forall e :: e in run && e.Built? ==> e.request in requests
    ensures CacheInv(After(st, run), requests)
    decreases |run|
  {
    hide CacheInv, Sensible, Step;
    if run != [] {
      StepKeepsCache(st, run[0], requests);
      RunKeepsCache(Step(st, run[0]), run[1..], requests);
    }
  }

  lemma CalmStep(st: State, e: Event)
    requires NoneCut(st) && (e.Built? ==> !e.writing.BrokenOff?)
    ensures NoneCut(Step(st, e)) && (e.Built? ==> Answer(st, e).Whole?)
  {
    hide Key, FreshBuild;
  }

  lemma {:induction false} RunIsCoherent(st: State, run: seq<Event>, requests: set<Request>)
    requires CacheInv(st, requests) && NoneCut(st) && SensibleRun(st, run) && Calm(run) && CountsSeparate(requests)
    requires forall e :: e in run && e.Built? ==> e.request in requests
    ensures Coherent(st, run)
    decreases |run|
  {
    hide CacheInv, CountsSeparate, Sensible, Step, Answer, NoneCut;
    if run != [] {
      CalmStep(st, run[0]);
      StepKeepsCache(st, run[0], requests);
      if run[0].Built? { HitIsFresh(st, run[0], requests); }
      RunIsCoherent(Step(st, run[0]), run[1..], requests);
    }
  }

  /** No built request wants an id that starts with a zero byte. */
  ghost predicate NoZeroWants(run: seq<Event>) {
    forall e, w :: e in run && e.Built? && w in e.request.want ==> !LeadsWithZero(w)
  }

  ghost function Requests(run: seq<Event>): set<Request> {
    set e | e in run && e.Built? :: e.request
  }

  lemma ZeroFreeSeparate(requests: set<Request>)
    requires forall r, w :: r in requests && w in r.want ==> !LeadsWithZero(w)
    ensures CountsSeparate(requests)
  {
    hide Key, LeadsWithZero;
    forall a, b | a in requests && b in requests && Key(a) == Key(b) ensures |a.want| == |b.want| {
      if |a.want| < |b.want| {
        KeysSeparate(a, b);
      } else if |b.want| < |a.want| {
        KeysSeparate(b, a);
      }
    }
  }

  ghost predicate AllClosed(stores: map<RepoId, Store>) {
    forall repo :: repo in stores ==> RefClosed(stores[repo])
  }

  /** Requests of the past and of what is to come never share a key across want counts. */
  ghost predicate SeparateRuns(past: seq<Event>, run: seq<Event>) {
    CountsSeparate(Requests(past) + Requests(run))
  }

  lemma ZeroFreeRuns(past: seq<Event>, run: seq<Event>)
    requires NoZeroWants(past) && NoZeroWants(run)
    ensures SeparateRuns(past, run)
  {
    hide LeadsWithZero;
    ZeroFreeSeparate(Requests(past) + Requests(run));
  }

  /** A cut file, asked for again, is served. */
  lemma CutIsServed(st: State, requests: set<Request>, k: Bytes)
    requires CacheInv(st, requests) && k in st.cache && st.cache[k].Cut?
    ensures var run := [Built(st.origin[k], true, NotBegun)];
      st.origin[k] in requests && SensibleRun(st, run) && Calm(run) && !Coherent(st, run)
  {
    hide Key, FreshBuild, RefClosed, HavesStored, WantsStored;
    assert EntryHolds(st, k, requests);
    var e := Built(st.origin[k], true, NotBegun);
    assert [e][1..] == [] && Sensible(st, e);
    assert Answer(st, e) == Cut;
  }

  lemma PastKeepsCache(stores: map<RepoId, Store>, past: seq<Event>, requests: set<Request>)
    requires AllClosed(stores) && SensibleRun(State(stores, map[], map[]), past)
    requires forall e :: e in past && e.Built? ==> e.request in requests
    ensures CacheInv(After(State(stores, map[], map[]), past), requests)
  {
    hide RefClosed, SensibleRun, After;
    var start := State(stores, map[], map[]);
    assert CacheInv(start, requests);
    RunKeepsCache(start, past, requests);
  }

  lemma WholeIsCoherent(stores: map<RepoId, Store>, past: seq<Event>, run: seq<Event>)
    requires AllClosed(stores) && SensibleRun(State(stores, map[], map[]), past) && SeparateRuns(past, run)
    requires NoneCut(After(State(stores, map[], map[]), past))
    requires SensibleRun(After(State(stores, map[], map[]), past), run) && Calm(run)
    ensures Coherent(After(State(stores, map[], map[]), past), run)
  {
    hide SensibleRun, Coherent, After, Calm, NoneCut, AllClosed;
    var requests := Requests(past) + Requests(run);
    PastKeepsCache(stores, past, requests);
    hide CacheInv, CountsSeparate;
    RunIsCoherent(After(State(stores, map[], map[]), past), run, requests);
  }

  lemma CutIsIncoherent(stores: map<RepoId, Store>, past: seq<Event>) returns (run: seq<Event>)
    requires AllClosed(stores) && SensibleRun(State(stores, map[], map[]), past)
    requires !NoneCut(After(State(stores, map[], map[]), past))
    ensures var st := After(State(stores, map[], map[]), past);
      SensibleRun(st, run) && Calm(run) && Requests(run) <= Requests(past) && !Coherent(st, run)
  {
    hide SensibleRun, Coherent, After, Calm, AllClosed;
    var st := After(State(stores, map[], map[]), past);
    PastKeepsCache(stores, past, Requests(past));
    var k :| k in st.cache && st.cache[k].Cut?;
    CutIsServed(st, Requests(past), k);
    hide CacheInv;
    run := [Built(st.origin[k], true, NotBegun)];
  }

  /**
    Cache coherence over whole runs.  After any past, in any repositories, with files that
    cannot be read, cannot be created, or whose writing breaks off: every later build answers as
    a fresh one would, whatever is ingested and built next as long as no writing breaks off and
    no keys collide, exactly if the past has left no cut file behind.
   */
  lemma CacheIsCoherentIff(stores: map<RepoId, Store>, past: seq<Event>)
    requires AllClosed(stores) && SensibleRun(State(stores, map[], map[]), past) && SeparateRuns(past, past)
    ensures var st := After(State(stores, map[], map[]), past);
      (forall run :: SensibleRun(st, run) && Calm(run) && SeparateRuns(past, run) ==> Coherent(st, run))
      <==> NoneCut(st)
  {
    hide SensibleRun, Coherent, After, Calm, NoneCut, AllClosed;
    var st := After(State(stores, map[], map[]), past);
    if NoneCut(st) {
      forall run | SensibleRun(st, run) && Calm(run) && SeparateRuns(past, run) ensures Coherent(st, run) {
        WholeIsCoherent(stores, past, run);
      }
    } else {
      var run := CutIsIncoherent(stores, past);
      hide Requests, CountsSeparate;
      assert Requests(past) + Requests(run) == Requests(past) + Requests(past);
    }
  }

  /** In particular if no wanted id starts with a zero byte. */
  lemma ZeroFreeCacheIsCoherentIff(stores: map<RepoId, Store>, past: seq<Event>)
    requires AllClosed(stores) && SensibleRun(State(stores, map[], map[]), past) && NoZeroWants(past)
    ensures var st := After(State(stores, map[], map[]), past);
      (forall run :: SensibleRun(st, run) && Calm(run) && NoZeroWants(run) ==> Coherent(st, run)) <==> NoneCut(st)
  {
    hide SensibleRun, Coherent, After, Calm, NoneCut, AllClosed, LeadsWithZero;
    var st := After(State(stores, map[], map[]), past);
    if NoneCut(st) {
      forall run | SensibleRun(st, run) && Calm(run) && NoZeroWants(run) ensures Coherent(st, run) {
        ZeroFreeRuns(past, run);
        WholeIsCoherent(stores, past, run);
      }
    } else {
      var run := CutIsIncoherent(stores, past);
      forall e, w | e in run && e.Built? && w in e.request.want ensures !LeadsWithZero(w) {
        assert e.request in Requests(run) && e.request in Requests(past);
      }
    }
  }

  /** From an empty cache, if no writing breaks off and no keys collide: every answer is that of a fresh build. */
  lemma CacheIsCoherent(stores: map<RepoId, Store>, run: seq<Event>)
    requires AllClosed(stores) && SensibleRun(State(stores, map[], map[]), run) && Calm(run)
    requires CountsSeparate(Requests(run))
    ensures Coherent(State(stores, map[], map[]), run)
  {
    var start := State(stores, map[], map[]);
    assert After(start, []) == start && SensibleRun(start, []);
    hide After, SensibleRun, Coherent, RefClosed;
    assert Requests([]) + Requests(run) == Requests(run);
    WholeIsCoherent(stores, [], run);
  }

  /** A disk that fills up: the pack is answered whole and its file is cut; the next build gets the cut file. */
  lemma CutWriteIsServed(st: State, r: Request)
    requires Key(r) !in st.cache
    ensures var st' := Step(st, Built(r, true, BrokenOff));
      && Answer(st, Built(r, true, BrokenOff)) == Whole(FreshAnswer(st, r))
      && Answer(st', Built(r, true, Completed)) == Cut
  {
    hide Key, FreshBuild;
  }

  /**
    A cut file goes exactly if a build of its key cannot read it and writes it to the end; that
    build is answered afresh.
   */
  lemma CutIsRepairedIff(st: State, k: Bytes, e: Event)
    requires k in st.cache && st.cache[k].Cut?
    ensures k in Step(st, e).cache
    ensures Step(st, e).cache[k].Whole? <==>
      e.Built? && Key(e.request) == k && !e.readable && e.writing.Completed?
    ensures e.Built? && Key(e.request) == k ==>
      Answer(st, e) == if e.readable then Cut else Whole(FreshAnswer(st, e.request))
  {
    hide Key, FreshBuild;
  }

  /** A want that is not stored when its pack is built spoils the entry: a later hit lacks the object. */
  lemma MissingWantSpoilsEntry(st: State, r: Request, w: Oid)
    requires RefClosed(Content(st, r.repo)) && HavesStored(Content(st, r.repo), Elems(r.have)) && Key(r) !in st.cache
    requires w in r.want && w !in Content(st, r.repo)
    ensures var build := Built(r, true, Completed);
      var st' := Step(Step(st, build), Ingested(r.repo, map[w := Blob(None)]));
      && Answer(st', build).Whole? && w !in Answer(st', build).objects && w in FreshAnswer(st', r)
  {
    hide Key, FreshBuild, RefClosed, HavesStored;
    var s := Content(st, r.repo);
    ArrivedWantIsPacked(s, r, w);
    assert s + map[w := Blob(None)] == s[w := Blob(None)];
  }
}
