/**
  Concurrent pushes: pessimistic transactions that lock each ref as they read it, check it,
  buffer the write, and commit or roll back, interleaved in any order.

  The transaction service is modelled by what it promises: a locking read waits for the lock
  and sees the last committed value (or the transaction's own write), locks are held to the
  end, and a commit installs all writes at once.
 */
module RefTransactions {
  import opened ObjectIds
  import opened Wrappers
  import opened Keys
  import opened Refs

  /** A push part-way through its batch; a buffered null id is a deletion. */
  datatype Txn = Txn(batch: seq<RefUpdate>, done: nat, writes: map<Bytes, Oid>)

  /** `committed` lists the updates of all committed batches, in commit order. */
  datatype State = State(refs: RefMap, active: map<nat, Txn>, locks: map<Bytes, nat>, committed: seq<RefUpdate>)

  datatype Action = Begin(id: nat, batch: seq<RefUpdate>) | Update(id: nat) | Abort(id: nat) | Commit(id: nat)

  /** Committed refs with a transaction's writes on top. */
  function Overlay(refs: RefMap, writes: map<Bytes, Oid>): RefMap {
    map n | n in refs.Keys + writes.Keys && (n in writes ==> writes[n] != NULL_OID) ::
      if n in writes then writes[n] else refs[n]
  }

  function Seen(s: State, t: Txn, name: Bytes): Oid {
    if name in t.writes then t.writes[name] else Held(s.refs, name)
  }

  /** An abort may come at any time; every other step has its guard. */
  predicate Enabled(s: State, a: Action) {
    match a
    case Begin(id, _) => id !in s.active
    case Update(id) =>
      id in s.active && var t := s.active[id];
      t.done < |t.batch| && var u := t.batch[t.done];
      (u.refname in s.locks ==> s.locks[u.refname] == id) && Seen(s, t, u.refname) == u.oldOid
    case Abort(id) => id in s.active
    case Commit(id) => id in s.active && s.active[id].done == |s.active[id].batch|
  }

  function Released(locks: map<Bytes, nat>, id: nat): map<Bytes, nat> {
    map n | n in locks && locks[n] != id :: locks[n]
  }

  function Next(s: State, a: Action): State
    requires Enabled(s, a)
  {
    match a
    case Begin(id, batch) => s.(active := s.active[id := Txn(batch, 0, map[])])
    case Update(id) =>
      var t := s.active[id];
      var u := t.batch[t.done];
      s.(active := s.active[id := Txn(t.batch, t.done + 1, t.writes[u.refname := u.newOid])],
         locks := s.locks[u.refname := id])
    case Abort(id) => s.(active := s.active - {id}, locks := Released(s.locks, id))
    case Commit(id) =>
      var t := s.active[id];
      State(Overlay(s.refs, t.writes), s.active - {id}, Released(s.locks, id), s.committed + t.batch)
  }

  predicate CanRun(s: State, run: seq<Action>)
    decreases |run|
  {
    run != [] ==> Enabled(s, run[0]) && CanRun(Next(s, run[0]), run[1..])
  }

  function After(s: State, run: seq<Action>): State
    requires CanRun(s, run)
    decreases |run|
  {
    if run == [] then s else After(Next(s, run[0]), run[1..])
  }

  /** The last value written to each ref by a list of updates. */
  function Writes(us: seq<RefUpdate>): map<Bytes, Oid> {
    if us == [] then map[] else Writes(us[..|us| - 1])[us[|us| - 1].refname := us[|us| - 1].newOid]
  }

  lemma FoldSnoc(refs: RefMap, a: seq<RefUpdate>, u: RefUpdate)
    ensures var before := Fold(KeyValue, refs, a);
      Fold(KeyValue, refs, a + [u]) ==
      if before.None? || Held(before.value, u.refname) != u.oldOid then None else Some(Applied(before.value, u))
  {
    FoldAppend(KeyValue, refs, a, [u]);
    assert [u][1..] == [];
  }

  lemma HeldOverlay(refs: RefMap, writes: map<Bytes, Oid>, n: Bytes)
    ensures Held(Overlay(refs, writes), n) == if n in writes then writes[n] else Held(refs, n)
  {
  }

  lemma OverlayApply(refs: RefMap, writes: map<Bytes, Oid>, u: RefUpdate)
    ensures Applied(Overlay(refs, writes), u) == Overlay(refs, writes[u.refname := u.newOid])
    ensures Overlay(refs, map[]) == refs
  {
  }

  /** A batch that goes through leaves exactly its last writes. */
  lemma {:induction false} FoldIsOverlay(refs: RefMap, us: seq<RefUpdate>)
    requires Fold(KeyValue, refs, us).Some?
    ensures Fold(KeyValue, refs, us).value == Overlay(refs, Writes(us))
    decreases |us|
  {
    hide Fold, Overlay, Applied;
    if us == [] {
      EmptyFold(KeyValue, refs);
      OverlayApply(refs, map[], RefUpdate(0, 0, []));
    } else {
      var before, u := us[..|us| - 1], us[|us| - 1];
      assert us == before + [u];
      FoldSnoc(refs, before, u);
      FoldIsOverlay(refs, before);
      OverlayApply(refs, Writes(before), u);
    }
  }

  /** Whether a batch goes through depends only on the refs it names. */
  lemma {:induction false} FoldFrame(refs: RefMap, refs': RefMap, us: seq<RefUpdate>)
    requires forall n :: n in Writes(us) ==> Held(refs, n) == Held(refs', n)
    requires Fold(KeyValue, refs, us).Some?
    ensures Fold(KeyValue, refs', us).Some?
    decreases |us|
  {
    hide Fold, Overlay, Applied, Held;
    if us == [] {
      EmptyFold(KeyValue, refs');
    } else {
      var before, u := us[..|us| - 1], us[|us| - 1];
      assert us == before + [u];
      FoldSnoc(refs, before, u);
      FoldSnoc(refs', before, u);
      FoldFrame(refs, refs', before);
      FoldIsOverlay(refs, before);
      FoldIsOverlay(refs', before);
      HeldOverlay(refs, Writes(before), u.refname);
      HeldOverlay(refs', Writes(before), u.refname);
      assert u.refname in Writes(us);
    }
  }

  /** What an active transaction has done so far would go through on the committed refs right now. */
  ghost predicate TxnHolds(refs: RefMap, locks: map<Bytes, nat>, id: nat, t: Txn) {
    && t.done <= |t.batch|
    && t.writes == Writes(t.batch[..t.done])
    && Fold(KeyValue, refs, t.batch[..t.done]).Some?
    && forall n :: n in t.writes ==> n in locks && locks[n] == id
  }

  /** Every lock is held by an active transaction that has written under it. */
  ghost predicate LocksOwned(s: State) {
    forall n :: n in s.locks ==> s.locks[n] in s.active && n in s.active[s.locks[n]].writes
  }

  /**
    The committed state is the serial outcome of the committed batches, no active push is
    invalidated, and no lock outlives its transaction.
   */
  ghost predicate Inv(initial: RefMap, s: State) {
    && NonNull(s.refs) && LocksOwned(s)
    && Fold(KeyValue, initial, s.committed) == Some(s.refs)
    && forall id :: id in s.active ==> TxnHolds(s.refs, s.locks, id, s.active[id])
  }

  lemma {:induction false} FoldNonNull(refs: RefMap, us: seq<RefUpdate>)
    requires NonNull(refs) && Fold(KeyValue, refs, us).Some?
    ensures NonNull(Fold(KeyValue, refs, us).value)
    decreases |us|
  {
    if us != [] { FoldNonNull(Applied(refs, us[0]), us[1..]); }
  }

  lemma UpdateKeeps(s: State, id: nat)
    requires Enabled(s, Update(id)) && TxnHolds(s.refs, s.locks, id, s.active[id])
    ensures var s' := Next(s, Update(id)); TxnHolds(s'.refs, s'.locks, id, s'.active[id])
  {
    var t := s.active[id];
    var u, before := t.batch[t.done], t.batch[..t.done];
    assert t.batch[..t.done + 1] == before + [u];
    assert (before + [u])[..t.done] == before;
    FoldSnoc(s.refs, before, u);
    FoldIsOverlay(s.refs, before);
  }

  /** A commit leaves alone what other transactions have locked. */
  lemma CommitKeepsOthers(refs: RefMap, locks: map<Bytes, nat>, id: nat, t: Txn, id': nat, t': Txn)
    requires id != id' && TxnHolds(refs, locks, id, t) && TxnHolds(refs, locks, id', t')
    ensures TxnHolds(Overlay(refs, t.writes), Released(locks, id), id', t')
  {
    hide Fold;
    FoldFrame(refs, Overlay(refs, t.writes), t'.batch[..t'.done]);
  }

  lemma CommitIsSerial(initial: RefMap, s: State, id: nat)
    requires Inv(initial, s) && Enabled(s, Commit(id))
    ensures var s' := Next(s, Commit(id)); NonNull(s'.refs) && Fold(KeyValue, initial, s'.committed) == Some(s'.refs)
  {
    hide Fold;
    var t := s.active[id];
    assert t.batch[..t.done] == t.batch;
    FoldIsOverlay(s.refs, t.batch);
    FoldAppend(KeyValue, initial, s.committed, t.batch);
    FoldNonNull(s.refs, t.batch);
  }

  lemma BeginHolds(s: State, id: nat, batch: seq<RefUpdate>)
    ensures TxnHolds(s.refs, s.locks, id, Txn(batch, 0, map[]))
  {
    assert batch[..0] == [];
  }

  /** To everyone else a transaction happens at once: a commit applies its batch to the refs of that moment. */
  lemma CommitIsAtomic(initial: RefMap, s: State, a: Action)
    requires Inv(initial, s) && Enabled(s, a)
    ensures a.Commit? ==> Fold(KeyValue, s.refs, s.active[a.id].batch) == Some(Next(s, a).refs)
    ensures !a.Commit? ==> Next(s, a).refs == s.refs
  {
    hide Fold;
    if a.Commit? {
      var t := s.active[a.id];
      assert t.batch[..t.done] == t.batch;
      FoldIsOverlay(s.refs, t.batch);
    }
  }

  lemma StepKeepsLocks(s: State, a: Action)
    requires LocksOwned(s) && Enabled(s, a)
    ensures LocksOwned(Next(s, a))
  {
    hide Overlay;
  }

  lemma StepKeepsInv(initial: RefMap, s: State, a: Action)
    requires Inv(initial, s) && Enabled(s, a)
    ensures Inv(initial, Next(s, a))
  {
    hide Fold, Writes, LocksOwned;
    StepKeepsLocks(s, a);
    match a
    case Begin(id, batch) =>
      BeginHolds(s, id, batch);
    case Update(id) =>
      UpdateKeeps(s, id);
      var t := s.active[id];
      var name := t.batch[t.done].refname;
      assert forall id' :: id' in s.active && id' != id ==> name !in s.active[id'].writes;
    case Abort(id) =>
    case Commit(id) =>
      CommitIsSerial(initial, s, id);
      forall id' | id' in s.active && id' != id
        ensures TxnHolds(Next(s, a).refs, Next(s, a).locks, id', s.active[id'])
      {
        CommitKeepsOthers(s.refs, s.locks, id, s.active[id], id', s.active[id']);
      }
  }

  lemma {:induction false} RunKeepsInv(initial: RefMap, s: State, run: seq<Action>)
    requires Inv(initial, s) && CanRun(s, run)
    ensures Inv(initial, After(s, run))
    decreases |run|
  {
    hide Inv;
    if run != [] {
      StepKeepsInv(initial, s, run[0]);
      RunKeepsInv(initial, Next(s, run[0]), run[1..]);
    }
  }

  /**
    Serializability: after any interleaving of any number of pushes, the refs are what the
    committed batches give when applied one after the other, in commit order.
   */
  lemma InterleavingIsSerial(initial: RefMap, run: seq<Action>)
    requires NonNull(initial) && CanRun(State(initial, map[], map[], []), run)
    ensures var end := After(State(initial, map[], map[], []), run);
      Fold(KeyValue, initial, end.committed) == Some(end.refs)
  {
    hide Fold, After;
    assert Fold(KeyValue, initial, []) == Some(initial) by { EmptyFold(KeyValue, initial); }
    RunKeepsInv(initial, State(initial, map[], map[], []), run);
  }

  /** The steps of a transaction that is left alone, from its first update on. */
  function Rest(id: nat, n: nat): seq<Action> {
    if n == 0 then [Commit(id)] else [Update(id)] + Rest(id, n - 1)
  }

  /** No other transaction has locked a ref of the batch. */
  predicate Unlocked(s: State, id: nat, batch: seq<RefUpdate>) {
    forall u :: u in batch && u.refname in s.locks ==> s.locks[u.refname] == id
  }

  /** The next update is let through exactly if the batch passes up to it. */
  lemma UpdateEnabledIff(s: State, id: nat)
    requires id in s.active && TxnHolds(s.refs, s.locks, id, s.active[id]) && Unlocked(s, id, s.active[id].batch)
    requires s.active[id].done < |s.active[id].batch|
    ensures var t := s.active[id];
      && (Enabled(s, Update(id)) <==> Fold(KeyValue, s.refs, t.batch[..t.done + 1]).Some?)
      && (Fold(KeyValue, s.refs, t.batch).Some? ==> Enabled(s, Update(id)))
  {
    hide Fold, Overlay;
    var t := s.active[id];
    var u, before, after := t.batch[t.done], t.batch[..t.done], t.batch[t.done + 1..];
    assert u in t.batch && t.batch[..t.done + 1] == before + [u] && t.batch == before + [u] + after;
    FoldSnoc(s.refs, before, u);
    FoldIsOverlay(s.refs, before);
    HeldOverlay(s.refs, Writes(before), u.refname);
    FoldAppend(KeyValue, s.refs, before + [u], after);
  }

  lemma {:induction false} RestRunsIff(s: State, id: nat)
    requires id in s.active && TxnHolds(s.refs, s.locks, id, s.active[id]) && Unlocked(s, id, s.active[id].batch)
    ensures var t := s.active[id];
      CanRun(s, Rest(id, |t.batch| - t.done)) <==> Fold(KeyValue, s.refs, t.batch).Some?
    decreases |s.active[id].batch| - s.active[id].done
  {
    hide Fold, Writes, Seen;
    var t := s.active[id];
    var run := Rest(id, |t.batch| - t.done);
    if t.done == |t.batch| {
      assert t.batch[..t.done] == t.batch && run[1..] == [];
    } else {
      assert run[1..] == Rest(id, |t.batch| - t.done - 1);
      UpdateEnabledIff(s, id);
      if Enabled(s, Update(id)) {
        UpdateKeeps(s, id);
        hide TxnHolds;
        RestRunsIff(Next(s, Update(id)), id);
      }
    }
  }

  /**
    Nothing is refused without cause: while no other transaction locks a ref of its batch, a push
    that is left alone runs through exactly if its batch passes on the committed refs.
   */
  lemma LoneBatchCommitsIff(s: State, id: nat, batch: seq<RefUpdate>)
    requires id !in s.active && LocksOwned(s)
    requires forall u :: u in batch ==> u.refname !in s.locks
    ensures CanRun(s, [Begin(id, batch)] + Rest(id, |batch|)) <==> Fold(KeyValue, s.refs, batch).Some?
  {
    hide Fold;
    var run := [Begin(id, batch)] + Rest(id, |batch|);
    assert run[1..] == Rest(id, |batch|);
    BeginHolds(s, id, batch);
    RestRunsIff(Next(s, Begin(id, batch)), id);
  }

  /** The successful edits of one ref, in order. */
  function Edits(us: seq<RefUpdate>, name: Bytes): seq<RefUpdate> {
    if us == [] then [] else (if us[0].refname == name then [us[0]] else []) + Edits(us[1..], name)
  }

  /** Each edit starts from the value the one before it left. */
  ghost predicate Chain(start: Oid, edits: seq<RefUpdate>, end: Oid)
    decreases |edits|
  {
    if edits == [] then start == end
    else edits[0].oldOid == start && Chain(edits[0].newOid, edits[1..], end)
  }

  /** No lost update: the committed edits of every ref form a chain from its first to its last value. */
  lemma {:induction false} EditsFormChain(refs: RefMap, us: seq<RefUpdate>, name: Bytes)
    requires Fold(KeyValue, refs, us).Some?
    ensures Chain(Held(refs, name), Edits(us, name), Held(Fold(KeyValue, refs, us).value, name))
    decreases |us|
  {
    if us != [] {
      EditsFormChain(Applied(refs, us[0]), us[1..], name);
      assert [] + Edits(us[1..], name) == Edits(us[1..], name);
      assert ([us[0]] + Edits(us[1..], name))[1..] == Edits(us[1..], name);
    }
  }

  lemma {:induction false} ValueNeedsWriter(refs: RefMap, us: seq<RefUpdate>, name: Bytes)
    requires Fold(KeyValue, refs, us).Some?
    ensures var v := Held(Fold(KeyValue, refs, us).value, name);
      v == Held(refs, name) || exists w :: w in us && w.refname == name && w.newOid == v
    decreases |us|
  {
    if us != [] {
      ValueNeedsWriter(Applied(refs, us[0]), us[1..], name);
      assert us == [us[0]] + us[1..];
    }
  }

  /**
    Of two committed edits of a ref that expected the same old value, the first of which
    changed it, some edit in between put that value back: rival pushes cannot both win.
   */
  lemma RivalsCannotBothWin(
      initial: RefMap, a: seq<RefUpdate>, u: RefUpdate, b: seq<RefUpdate>, v: RefUpdate, c: seq<RefUpdate>)
    requires Fold(KeyValue, initial, a + [u] + b + [v] + c).Some?
    requires u.refname == v.refname && u.oldOid == v.oldOid && u.newOid != u.oldOid
    ensures exists w :: w in b && w.refname == u.refname && w.newOid == u.oldOid
  {
    hide Fold;
    FoldAppend(KeyValue, initial, a + [u] + b + [v], c);
    FoldSnoc(initial, a + [u] + b, v);
    FoldAppend(KeyValue, initial, a + [u], b);
    FoldSnoc(initial, a, u);
    ValueNeedsWriter(Fold(KeyValue, initial, a + [u]).value, b, u.refname);
  }

  /** Both laws hold of what any interleaving has committed. */
  lemma NoLostUpdates(initial: RefMap, run: seq<Action>, name: Bytes)
    requires NonNull(initial) && CanRun(State(initial, map[], map[], []), run)
    ensures var end := After(State(initial, map[], map[], []), run);
      && Chain(Held(initial, name), Edits(end.committed, name), Held(end.refs, name))
      && forall a, u, b, v, c ::
          && end.committed == a + [u] + b + [v] + c
          && u.refname == v.refname == name && u.oldOid == v.oldOid != u.newOid ==>
          exists w :: w in b && w.refname == name && w.newOid == u.oldOid
  {
    hide Fold, After, CanRun, Chain, Edits;
    InterleavingIsSerial(initial, run);
    var end := After(State(initial, map[], map[], []), run);
    EditsFormChain(initial, end.committed, name);
    forall a, u, b, v, c |
      end.committed == a + [u] + b + [v] + c && u.refname == v.refname == name && u.oldOid == v.oldOid != u.newOid
      ensures exists w :: w in b && w.refname == name && w.newOid == u.oldOid
    {
      RivalsCannotBothWin(initial, a, u, b, v, c);
    }
  }
}
