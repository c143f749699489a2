/**
  Refs and their atomic, compare-and-swap batch update, as the storage contract states it and
  as the KV and SQL backends carry it out.
 */
module Refs {
  import opened ObjectIds
  import opened Wrappers
  import opened Graphs
  import opened Keys
  import opened KvObjects

  datatype RefUpdate = RefUpdate(oldOid: Oid, newOid: Oid, refname: Bytes)

  type RefMap = map<Bytes, Oid>

  /** No ref holds the null id. */
  ghost predicate NonNull(refs: RefMap) {
    forall n :: n in refs ==> refs[n] != NULL_OID
  }

  function Applied(refs: RefMap, u: RefUpdate): RefMap {
    if u.newOid == NULL_OID then refs - {u.refname} else refs[u.refname := u.newOid]
  }

  /** The contract: create needs absence, delete and update need the expected value. */
  predicate CasOk(refs: RefMap, u: RefUpdate) {
    && (u.oldOid == NULL_OID ==> u.refname !in refs)
    && (u.newOid == NULL_OID || u.oldOid != NULL_OID ==> u.refname in refs && refs[u.refname] == u.oldOid)
  }

  /** The value a ref is seen to hold; an absent ref holds the null id. */
  function Held(refs: RefMap, name: Bytes): Oid {
    if name in refs then refs[name] else NULL_OID
  }

  /** Which test an update must pass: the contract's, or the one the KV backend makes on the value it reads. */
  datatype Rule = Contract | KeyValue

  predicate Accepts(rule: Rule, refs: RefMap, u: RefUpdate) {
    if rule.Contract? then CasOk(refs, u) else Held(refs, u.refname) == u.oldOid
  }

  /** A whole batch in order, or nothing. */
  function Fold(rule: Rule, refs: RefMap, us: seq<RefUpdate>): Option<RefMap>
    decreases |us|
  {
    if us == [] then Some(refs)
    else if !Accepts(rule, refs, us[0]) then None
    else Fold(rule, Applied(refs, us[0]), us[1..])
  }

  lemma EmptyFold(rule: Rule, refs: RefMap)
    ensures Fold(rule, refs, []) == Some(refs)
  {
  }

  lemma {:induction false} FoldAppend(rule: Rule, refs: RefMap, a: seq<RefUpdate>, b: seq<RefUpdate>)
    ensures Fold(rule, refs, a + b)
         == if Fold(rule, refs, a).None? then None else Fold(rule, Fold(rule, refs, a).value, b)
    decreases |a|
  {
    if a == [] {
      assert a + b == b;
    } else {
      assert (a + b)[1..] == a[1..] + b;
      FoldAppend(rule, Applied(refs, a[0]), a[1..], b);
    }
  }

  predicate BothNull(u: RefUpdate) {
    u.oldOid == NULL_OID && u.newOid == NULL_OID
  }

  /**
    The KV backend keeps the contract on a batch if and only if it refuses the batch or the
    batch has no update from null to null: such an update on an absent ref the contract
    refuses (there is nothing to delete) and the KV backend lets pass.
   */
  lemma {:induction false} KvKeepsContractIff(refs: RefMap, us: seq<RefUpdate>)
    requires NonNull(refs)
    ensures Fold(KeyValue, refs, us) == Fold(Contract, refs, us) <==>
      Fold(KeyValue, refs, us).None? || forall u :: u in us ==> !BothNull(u)
    ensures Fold(Contract, refs, us).Some? ==>
      NonNull(Fold(Contract, refs, us).value) && Fold(KeyValue, refs, us) == Fold(Contract, refs, us)
    decreases |us|
  {
    if us != [] {
      var u, rest := us[0], Applied(refs, us[0]);
      assert us == [u] + us[1..];
      assert CasOk(refs, u) <==> Held(refs, u.refname) == u.oldOid && !BothNull(u);
      KvKeepsContractIff(rest, us[1..]);
      if BothNull(u) { assert u in us; }
    }
  }

  lemma BothNullDiverges(name: Bytes)
    ensures Fold(KeyValue, map[], [RefUpdate(NULL_OID, NULL_OID, name)]) == Some(map[])
    ensures Fold(Contract, map[], [RefUpdate(NULL_OID, NULL_OID, name)]) == None
  {
    var u := RefUpdate(NULL_OID, NULL_OID, name);
    assert [u][1..] == [];
  }

  /** Without an update from null to null, both backends do the same to every batch. */
  lemma BackendsAgree(refs: RefMap, us: seq<RefUpdate>)
    requires NonNull(refs) && forall u :: u in us ==> !BothNull(u)
    ensures Fold(KeyValue, refs, us) == Fold(Contract, refs, us)
  {
    KvKeepsContractIff(refs, us);
  }

  /** What the last of the updates to touch the ref leaves there, or what it held at first. */
  function LastWritten(us: seq<RefUpdate>, name: Bytes, first: Oid): Oid {
    if us == [] then first
    else if us[|us| - 1].refname == name then us[|us| - 1].newOid
    else LastWritten(us[..|us| - 1], name, first)
  }

  /** Each update expects what the ref holds when its turn comes. */
  ghost predicate AllExpected(refs: RefMap, us: seq<RefUpdate>) {
    forall i :: 0 <= i < |us| ==> us[i].oldOid == LastWritten(us[..i], us[i].refname, Held(refs, us[i].refname))
  }

  lemma ExpectedSnoc(refs: RefMap, us: seq<RefUpdate>)
    requires us != []
    ensures var last, before := us[|us| - 1], us[..|us| - 1];
      AllExpected(refs, us) <==>
        AllExpected(refs, before) && last.oldOid == LastWritten(before, last.refname, Held(refs, last.refname))
  {
    hide LastWritten;
    var before := us[..|us| - 1];
    assert forall i :: 0 <= i < |before| ==> before[i] == us[i] && before[..i] == us[..i];
  }

  lemma {:induction false} KvBatchPassesIff(refs: RefMap, us: seq<RefUpdate>)
    ensures Fold(KeyValue, refs, us).Some? <==> AllExpected(refs, us)
    ensures Fold(KeyValue, refs, us).Some? ==> forall name ::
      Held(Fold(KeyValue, refs, us).value, name) == LastWritten(us, name, Held(refs, name))
    decreases |us|
  {
    if us != [] {
      var before, last := us[..|us| - 1], us[|us| - 1];
      assert us == before + [last] && [last][1..] == [];
      KvBatchPassesIff(refs, before);
      FoldAppend(KeyValue, refs, before, [last]);
      ExpectedSnoc(refs, us);
      hide AllExpected;
    }
  }

  /**
    When a batch goes through: exactly if each update expects what its ref holds by then, and, by
    the contract, none is from null to null.  Every ref then holds what was last written to it.
   */
  lemma BatchPassesIff(rule: Rule, refs: RefMap, us: seq<RefUpdate>)
    requires NonNull(refs)
    ensures Fold(rule, refs, us).Some? <==>
      AllExpected(refs, us) && (rule.Contract? ==> forall u :: u in us ==> u.oldOid != NULL_OID || u.newOid != NULL_OID)
    ensures Fold(rule, refs, us).Some? ==> forall name ::
      Held(Fold(rule, refs, us).value, name) == LastWritten(us, name, Held(refs, name))
  {
    hide Fold, AllExpected, LastWritten;
    KvBatchPassesIff(refs, us);
    KvKeepsContractIff(refs, us);
  }

  /** SQL: one statement per update in one transaction; a failed statement rolls everything back. */
  method SqlUpdateRefs(refs: RefMap, updates: seq<RefUpdate>) returns (ok: bool, refs': RefMap)
    requires NonNull(refs)
    ensures ok <==> Fold(Contract, refs, updates).Some?
    ensures ok ==> refs' == Fold(Contract, refs, updates).value && NonNull(refs')
    ensures !ok ==> refs' == refs
  {
    if updates == [] {
      return true, refs;
    }
    var rows := refs;
    for i := 0 to |updates|
      invariant NonNull(rows) && Fold(Contract, refs, updates) == Fold(Contract, rows, updates[i..])
    {
      var u := updates[i];
      assert updates[i..][1..] == updates[i + 1..];
      if u.newOid == NULL_OID {
        if !(u.refname in rows && rows[u.refname] == u.oldOid) {
          return false, refs;
        }
        rows := rows - {u.refname};
      } else if u.oldOid == NULL_OID {
        if u.refname in rows {
          return false, refs;
        }
        rows := rows[u.refname := u.newOid];
      } else {
        if !(u.refname in rows && rows[u.refname] == u.oldOid) {
          return false, refs;
        }
        rows := rows[u.refname := u.newOid];
      }
    }
    ok, refs' := true, rows;
  }

  lemma RefKeyInjective(repo: RepoId, name: Bytes, repo': RepoId, name': Bytes)
    ensures RefKey(repo, name) == RefKey(repo', name') <==> repo == repo' && name == name'
  {
    var k, k' := RefKey(repo, name), RefKey(repo', name');
    assert k[1..9] == BigEndian(repo, 8) && k'[1..9] == BigEndian(repo', 8);
    assert k[9..] == name && k'[9..] == name';
    RepoSpace();
    BigEndianOrder(repo, repo', 8);
  }

  /** A write to one ref key changes that ref of that repository only. */
  lemma RefPut(kv: Kv, repo: RepoId, u: RefUpdate, repo': RepoId, refs: RefMap)
    requires StoresRefs(kv, repo', refs)
    ensures var key := RefKey(repo, u.refname);
      StoresRefs(if u.newOid == NULL_OID then kv - {key} else kv[key := OidBytes(u.newOid)], repo',
                 if repo == repo' then Applied(refs, u) else refs)
  {
    hide OidBytes, RefKey;
    forall name ensures RefKey(repo, u.refname) == RefKey(repo', name) <==> repo == repo' && u.refname == name {
      RefKeyInjective(repo, u.refname, repo', name);
    }
  }

  predicate InRefs(repo: RepoId, k: Bytes) {
    RefsPrefix(repo) <= k
  }

  /** Outside a repository's ref keys the store is as before. */
  ghost predicate SameOutsideRefs(repo: RepoId, kv: Kv, kv': Kv) {
    forall k :: !InRefs(repo, k) ==> (k in kv' <==> k in kv) && (k in kv ==> kv'[k] == kv[k])
  }

  lemma RefKeysOnly(repo: RepoId, name: Bytes, repo': RepoId, oid: Oid, k: Bytes)
    ensures InRefs(repo, RefKey(repo, name))
    ensures !InRefs(repo, ObjKey(repo', oid))
    ensures [6] <= k || [3] <= k ==> !InRefs(repo, k)
  {
    assert RefKey(repo, name) == RefsPrefix(repo) + name;
    assert RefsPrefix(repo)[0] == 4 && ObjKey(repo', oid)[0] == 5;
  }

  lemma SlotsOutsideRefs(repo: RepoId, kv: Kv, kv': Kv, repo': RepoId, c: Oid, m: map<nat, Oid>)
    requires SameOutsideRefs(repo, kv, kv') && Slots(kv, repo', c, m)
    ensures Slots(kv', repo', c, m)
  {
    assert forall pos: nat :: [6] <= ParKey(repo', c, pos);
    assert [6] <= ParentsPrefix(repo', c);
    hide InRefs, ParKey, ParentsPrefix, OidBytes;
    forall k: Bytes | [6] <= k ensures !InRefs(repo, k) { RefKeysOnly(repo, [], repo', c, k); }
  }

  /** Moving refs changes no repository's graph or objects, and no HEAD. */
  lemma RefsKeepTheRest(repo: RepoId, kv: Kv, kv': Kv)
    requires SameOutsideRefs(repo, kv, kv')
    ensures forall repo': RepoId, g :: StoresGraph(kv, repo', g) ==> StoresGraph(kv', repo', g)
    ensures forall repo': RepoId, o :: Holds(kv, repo', o) ==> Holds(kv', repo', o)
    ensures forall k: Bytes :: [3] <= k ==> (k in kv' <==> k in kv) && (k in kv ==> kv'[k] == kv[k])
  {
    hide InRefs, Slots, Written, Succ, ObjKey;
    forall repo': RepoId, g, c: Oid | StoresGraph(kv, repo', g) ensures Slots(kv', repo', c, Written(Succ(g, c))) {
      SlotsOutsideRefs(repo, kv, kv', repo', c, Written(Succ(g, c)));
    }
    forall repo': RepoId, o | Holds(kv, repo', o) ensures Holds(kv', repo', o) {
      RefKeysOnly(repo, [], repo', o.oid, []);
    }
    forall k: Bytes | [3] <= k ensures !InRefs(repo, k) { RefKeysOnly(repo, [], repo, 0, k); }
  }

  /**
    KV: read each ref for update, compare, and buffer the write; commit if every comparison
    held, else roll back.  No other repository's refs change, and no graph, object or HEAD.
   */
  method KvUpdateRefs(kv: Kv, repo: RepoId, updates: seq<RefUpdate>, ghost refs: RefMap) returns (ok: bool, kv': Kv)
    requires NonNull(refs) && StoresRefs(kv, repo, refs)
    ensures ok <==> Fold(KeyValue, refs, updates).Some?
    ensures ok ==> StoresRefs(kv', repo, Fold(KeyValue, refs, updates).value)
    ensures !ok ==> kv' == kv
    ensures forall repo': RepoId, others ::
      repo' != repo && StoresRefs(kv, repo', others) ==> StoresRefs(kv', repo', others)
    ensures forall repo': RepoId, g :: StoresGraph(kv, repo', g) ==> StoresGraph(kv', repo', g)
    ensures forall repo': RepoId, o :: Holds(kv, repo', o) ==> Holds(kv', repo', o)
    ensures forall k: Bytes :: [3] <= k ==> (k in kv' <==> k in kv) && (k in kv ==> kv'[k] == kv[k])
  {
    hide RefKey, InRefs, ObjKey, OidBytes, StoresRefs, OidFromBytes, StoresGraph, Holds;
    var txn := kv;
    ghost var cur := refs;
    for i := 0 to |updates|
      invariant NonNull(cur) && StoresRefs(txn, repo, cur)
      invariant Fold(KeyValue, refs, updates) == Fold(KeyValue, cur, updates[i..])
      invariant forall repo': RepoId, others ::
        repo' != repo && StoresRefs(kv, repo', others) ==> StoresRefs(txn, repo', others)
      invariant SameOutsideRefs(repo, kv, txn)
    {
      var u := updates[i];
      assert updates[i..][1..] == updates[i + 1..];
      var key := RefKey(repo, u.refname);
      var current: Option<Oid> := None;
      CurrentValue(txn, repo, cur, u.refname);
      if key in txn {
        current := OidFromBytes(txn[key]);
        if current.None? {
          return false, kv;
        }
      }
      var create, delete := u.oldOid == NULL_OID, u.newOid == NULL_OID;
      if create && current.Some? {
        return false, kv;
      }
      if !create && (current.None? || current.value != u.oldOid) {
        return false, kv;
      }
      RefPut(txn, repo, u, repo, cur);
      RefKeysOnly(repo, u.refname, repo, 0, []);
      ghost var before := txn;
      if delete {
        txn := txn - {key};
      } else {
        txn := txn[key := OidBytes(u.newOid)];
      }
      forall repo': RepoId, others | repo' != repo && StoresRefs(kv, repo', others)
        ensures StoresRefs(txn, repo', others)
      {
        RefPut(before, repo, u, repo', others);
      }
      cur := Applied(cur, u);
    }
    RefsKeepTheRest(repo, kv, txn);
    ok, kv' := true, txn;
  }

  lemma CurrentValue(kv: Kv, repo: RepoId, refs: RefMap, name: Bytes)
    requires StoresRefs(kv, repo, refs)
    ensures RefKey(repo, name) in kv <==> name in refs
    ensures name in refs ==> OidFromBytes(kv[RefKey(repo, name)]) == Some(refs[name])
  {
    hide OidFromBytes;
    if name in refs { OidRoundTrip(refs[name]); }
  }

  datatype NamedRef = NamedRef(name: Bytes, oid: Oid)

  /** One decoded pair of the scan. */
  function DecodeRef(repo: RepoId, pair: Pair, isUtf8: Bytes -> bool): Option<NamedRef> {
    var name, oid := RefnameFromKey(repo, pair.key, isUtf8), OidFromBytes(pair.value);
    if name.None? || oid.None? then None else Some(NamedRef(name.value, oid.value))
  }

  /** `refs/heads/main`. */
  const DEFAULT_HEAD: Bytes := [114, 101, 102, 115, 47, 104, 101, 97, 100, 115, 47, 109, 97, 105, 110]

  /** The ref that HEAD names: the stored one if it is valid, else the default. */
  function HeadTarget(kv: Kv, repo: RepoId, isUtf8: Bytes -> bool): Bytes {
    var key := RepoMeta(repo, REPO_META_HEAD);
    if key in kv && isUtf8(kv[key]) then kv[key] else DEFAULT_HEAD
  }

  /** The listed refs are exactly these, each once, in byte order of their names. */
  ghost predicate Lists(list: seq<NamedRef>, refs: RefMap) {
    && (forall i :: 0 <= i < |list| ==> list[i].name in refs && refs[list[i].name] == list[i].oid)
    && (forall name :: name in refs ==> exists i :: 0 <= i < |list| && list[i].name == name)
    && (forall i, j :: 0 <= i < j < |list| ==> Less(list[i].name, list[j].name))
  }

  /** One pair of the scan has become one listed ref. */
  ghost predicate ReadAs(repo: RepoId, refs: RefMap, isUtf8: Bytes -> bool, pair: Pair, ref: NamedRef) {
    pair.key == RefKey(repo, ref.name) && ref.name in refs && refs[ref.name] == ref.oid && isUtf8(ref.name)
  }

  /**
    Listing a repository's refs from a range scan: exactly its own refs, each once, in byte
    order of their names; it fails only on a name that is not UTF-8.  HEAD is the ref it
    names, or nothing while there is no such ref.
   */
  method ListRefs(kv: Kv, repo: RepoId, pairs: seq<Pair>, isUtf8: Bytes -> bool, ghost refs: RefMap)
    returns (r: Option<seq<NamedRef>>, head: Option<NamedRef>)
    requires StoresRefs(kv, repo, refs)
    requires IsScan(kv, RefsPrefix(repo), Increment(RefsPrefix(repo)), pairs)
    ensures r.Some? ==> Lists(r.value, refs)
    ensures r.Some? <==> forall name :: name in refs ==> isUtf8(name)
    ensures r.Some? ==> var target := HeadTarget(kv, repo, isUtf8);
      head == if target in refs then Some(NamedRef(target, refs[target])) else None
    ensures r.Some? ==> var key := [3] + BigEndian(repo, 8) + [1];
      var main := [114, 101, 102, 115, 47, 104, 101, 97, 100, 115, 47, 109, 97, 105, 110];
      var target := if key in kv && isUtf8(kv[key]) then kv[key] else main;
      && (head.Some? <==> target in refs)
      && (head.Some? ==> head.value == NamedRef(target, refs[target]))
  {
    hide RefKey, StoresRefs, Less, InRange, Increment, RefsPrefix, DecodeRef, IsScan, HeadTarget;
    head := None;
    var list: seq<NamedRef> := [];
    for i := 0 to |pairs|
      invariant |list| == i
      invariant forall k :: 0 <= k < i ==> ReadAs(repo, refs, isUtf8, pairs[k], list[k])
    {
      ghost var name := ScannedName(kv, repo, pairs, refs, i, isUtf8);
      var decoded := DecodeRef(repo, pairs[i], isUtf8);
      if decoded.None? {
        return None, None;
      }
      list := list + [decoded.value];
    }
    AllRead(kv, repo, pairs, isUtf8, refs, list);
    r := Some(list);
    head := FindNamed(list, HeadTarget(kv, repo, isUtf8));
    HeadInBytes(kv, repo, isUtf8);
  }

  /** HEAD is stored under tag 1 of the third table, and is `refs/heads/main` without a valid entry there. */
  lemma HeadInBytes(kv: Kv, repo: RepoId, isUtf8: Bytes -> bool)
    ensures var key := [3] + BigEndian(repo, 8) + [1];
      HeadTarget(kv, repo, isUtf8) ==
      if key in kv && isUtf8(kv[key]) then kv[key]
      else [114, 101, 102, 115, 47, 104, 101, 97, 100, 115, 47, 109, 97, 105, 110]
  {
  }

  /** A scan that has been read to its end lists the refs. */
  lemma AllRead(kv: Kv, repo: RepoId, pairs: seq<Pair>, isUtf8: Bytes -> bool, refs: RefMap, list: seq<NamedRef>)
    requires StoresRefs(kv, repo, refs) && |list| == |pairs|
    requires IsScan(kv, RefsPrefix(repo), Increment(RefsPrefix(repo)), pairs)
    requires forall k :: 0 <= k < |pairs| ==> ReadAs(repo, refs, isUtf8, pairs[k], list[k])
    ensures Lists(list, refs) && forall name :: name in refs ==> isUtf8(name)
  {
    hide RefKey, StoresRefs, Less, InRange, Increment, RefsPrefix;
    forall name | name in refs ensures isUtf8(name) && exists i :: 0 <= i < |list| && list[i].name == name {
      var i := ScannedAt(kv, repo, pairs, refs, name);
      RefKeyInjective(repo, list[i].name, repo, name);
    }
    forall i, j | 0 <= i < j < |list| ensures Less(list[i].name, list[j].name) {
      NameOrder(repo, list[i].name, list[j].name);
    }
  }

  /** The first ref of that name, if there is one. */
  method FindNamed(list: seq<NamedRef>, name: Bytes) returns (found: Option<NamedRef>)
    ensures found.None? ==> forall i :: 0 <= i < |list| ==> list[i].name != name
    ensures found.Some? ==> found.value in list && found.value.name == name
  {
    for i := 0 to |list|
      invariant forall k :: 0 <= k < i ==> list[k].name != name
    {
      if list[i].name == name {
        return Some(list[i]);
      }
    }
    found := None;
  }

  /** A scanned key is a ref key of this repository and decodes to its ref. */
  lemma ScannedName(kv: Kv, repo: RepoId, pairs: seq<Pair>, refs: RefMap, i: nat, isUtf8: Bytes -> bool)
    returns (name: Bytes)
    requires StoresRefs(kv, repo, refs) && i < |pairs|
    requires IsScan(kv, RefsPrefix(repo), Increment(RefsPrefix(repo)), pairs)
    ensures name in refs && pairs[i].key == RefKey(repo, name)
    ensures DecodeRef(repo, pairs[i], isUtf8) == if isUtf8(name) then Some(NamedRef(name, refs[name])) else None
  {
    hide Less, InRange, Increment, OidFromBytes;
    RefRangeIsExact(repo, pairs[i].key);
    name :| pairs[i].key == RefKey(repo, name);
    CurrentValue(kv, repo, refs, name);
    assert RefKey(repo, name) == RefsPrefix(repo) + name;
    assert pairs[i].key[|RefsPrefix(repo)|..] == name;
  }

  lemma ScannedAt(kv: Kv, repo: RepoId, pairs: seq<Pair>, refs: RefMap, name: Bytes) returns (i: nat)
    requires StoresRefs(kv, repo, refs) && name in refs
    requires IsScan(kv, RefsPrefix(repo), Increment(RefsPrefix(repo)), pairs)
    ensures i < |pairs| && pairs[i].key == RefKey(repo, name)
  {
    hide Less, InRange, Increment, RefKey;
    RefRangeIsExact(repo, RefKey(repo, name));
    i :| 0 <= i < |pairs| && pairs[i].key == RefKey(repo, name);
  }

  lemma NameOrder(repo: RepoId, a: Bytes, b: Bytes)
    ensures Less(RefKey(repo, a), RefKey(repo, b)) <==> Less(a, b)
  {
    LessAfterPrefix([PREFIX_REF] + BigEndian(repo, 8), a, b);
  }
}
