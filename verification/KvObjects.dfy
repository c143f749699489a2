/**
  Commit parents in the KV store: written by ingest under numbered keys, read back by a range
  scan.
 */
module KvObjects {
  import opened ObjectIds
  import opened Wrappers
  import opened Graphs
  import opened Keys

  type Kv = map<Bytes, Bytes>

  datatype Pair = Pair(key: Bytes, value: Bytes)

  /** What the store's range scan promises: the keys of the range, each once, in byte order. */
  ghost predicate IsScan(kv: Kv, start: Bytes, end: Bytes, pairs: seq<Pair>) {
    && Ascending(pairs)
    && (forall i :: 0 <= i < |pairs| ==>
         pairs[i].key in kv && pairs[i].value == kv[pairs[i].key] && InRange(start, end, pairs[i].key))
    && (forall k :: k in kv && InRange(start, end, k) ==> exists i :: 0 <= i < |pairs| && pairs[i].key == k)
  }

  ghost predicate Ascending(pairs: seq<Pair>) {
    forall i, j :: 0 <= i < j < |pairs| ==> Less(pairs[i].key, pairs[j].key)
  }

  ghost function KeySet(pairs: seq<Pair>): set<Bytes> {
    set i | 0 <= i < |pairs| :: pairs[i].key
  }

  lemma {:induction false} LessAsymmetric(a: Bytes, b: Bytes)
    requires Less(a, b)
    ensures !Less(b, a) && a != b
  {
    if a != [] && a[0] == b[0] { LessAsymmetric(a[1..], b[1..]); }
  }

  /** Two ascending lists of the same keys are the same list of keys. */
  lemma {:induction false} AscendingUnique(a: seq<Pair>, b: seq<Pair>)
    requires Ascending(a) && Ascending(b) && KeySet(a) == KeySet(b)
    ensures |a| == |b| && forall i :: 0 <= i < |a| ==> a[i].key == b[i].key
  {
    hide Less;
    NoKeys(a);
    NoKeys(b);
    if a != [] && b != [] {
      SameHead(a, b);
      TailKeys(a);
      TailKeys(b);
      AscendingUnique(a[1..], b[1..]);
      assert forall i :: 0 < i < |a| ==> a[i] == a[1..][i - 1];
      assert forall i :: 0 < i < |b| ==> b[i] == b[1..][i - 1];
    }
  }

  lemma NoKeys(a: seq<Pair>)
    ensures KeySet(a) == {} <==> a == []
  {
    if a != [] { assert a[0].key in KeySet(a); }
  }

  lemma SameHead(a: seq<Pair>, b: seq<Pair>)
    requires Ascending(a) && Ascending(b) && KeySet(a) == KeySet(b) && a != [] && b != []
    ensures a[0].key == b[0].key
  {
    hide Less;
    assert a[0].key in KeySet(a) && b[0].key in KeySet(b);
    var i :| 0 <= i < |b| && b[i].key == a[0].key;
    var j :| 0 <= j < |a| && a[j].key == b[0].key;
    if i > 0 && j > 0 {
      LessAsymmetric(a[0].key, a[j].key);
    }
  }

  lemma TailKeys(a: seq<Pair>)
    requires Ascending(a) && a != []
    ensures Ascending(a[1..]) && KeySet(a[1..]) == KeySet(a) - {a[0].key}
  {
    hide Less;
    forall k ensures k in KeySet(a[1..]) <==> k in KeySet(a) - {a[0].key} {
      if k in KeySet(a[1..]) {
        var i :| 0 <= i < |a[1..]| && a[1..][i].key == k;
        assert a[i + 1].key == k;
        LessAsymmetric(a[0].key, a[i + 1].key);
      }
      if k in KeySet(a) - {a[0].key} {
        var i :| 0 <= i < |a| && a[i].key == k;
        assert a[1..][i - 1].key == k;
      }
    }
  }

  lemma {:induction false} ScanUnique(kv: Kv, start: Bytes, end: Bytes, a: seq<Pair>, b: seq<Pair>)
    requires IsScan(kv, start, end, a) && IsScan(kv, start, end, b)
    ensures a == b
  {
    hide Less, InRange;
    assert KeySet(a) == KeySet(b);
    AscendingUnique(a, b);
  }

  function FromBigEndian(b: Bytes): nat {
    if b == [] then 0 else 256 * FromBigEndian(b[..|b| - 1]) + b[|b| - 1] as int
  }

  lemma {:induction false} FromBound(b: Bytes)
    ensures FromBigEndian(b) < Pow256(|b|)
  {
    if b != [] { FromBound(b[..|b| - 1]); }
  }

  lemma {:induction false} BigEndianRoundTrip(n: nat, k: nat)
    requires n < Pow256(k)
    ensures FromBigEndian(BigEndian(n, k)) == n
    decreases k
  {
    if k > 0 {
      BigEndianRoundTrip(n / 256, k - 1);
      assert BigEndian(n, k)[..k - 1] == BigEndian(n / 256, k - 1);
    }
  }

  lemma {:induction false} BytesRoundTrip(b: Bytes)
    ensures BigEndian(FromBigEndian(b), |b|) == b
  {
    if b != [] {
      var front, last := b[..|b| - 1], b[|b| - 1];
      BytesRoundTrip(front);
      assert FromBigEndian(b) / 256 == FromBigEndian(front) && FromBigEndian(b) % 256 == last as int;
      assert b == front + [last];
    }
  }

  lemma {:induction false} PowSum(m: nat, n: nat)
    ensures Pow256(m + n) == Pow256(m) * Pow256(n)
  {
    if n > 0 {
      PowSum(m, n - 1);
      assert Pow256(m) * (256 * Pow256(n - 1)) == 256 * (Pow256(m) * Pow256(n - 1));
    }
  }

  /** Twenty bytes spell exactly the object ids. */
  lemma OidSpace()
    ensures Pow256(20) == 0x1_0000000000_0000000000_0000000000_0000000000
  {
    assert Pow256(1) == 0x100 && Pow256(3) == 0x100_0000 && Pow256(5) == 0x100_0000_0000;
    hide Pow256;
    PowSum(5, 5);
    PowSum(10, 10);
  }

  lemma RepoSpace()
    ensures Pow256(8) == 0x1_0000_0000_0000_0000
  {
    assert Pow256(2) == 0x1_0000 && Pow256(4) == 0x1_0000_0000;
    hide Pow256;
    PowSum(4, 4);
  }

  /** The id a stored value spells, if it has twenty bytes. */
  function OidFromBytes(b: Bytes): Option<Oid> {
    if |b| == 20 then
      FromBound(b);
      OidSpace();
      Some(FromBigEndian(b) as Oid)
    else None
  }

  lemma OidRoundTrip(oid: Oid)
    ensures OidFromBytes(OidBytes(oid)) == Some(oid)
  {
    hide Pow256, BigEndian, FromBigEndian;
    OidSpace();
    BigEndianRoundTrip(oid as int, 20);
  }

  /** Any twenty bytes are those of an id. */
  lemma OidOfBytes(b: Bytes) returns (oid: Oid)
    requires |b| == 20
    ensures OidBytes(oid) == b
  {
    hide Pow256, BigEndian, FromBigEndian;
    oid := OidFromBytes(b).value;
    BytesRoundTrip(b);
  }

  lemma OidBytesInjective(a: Oid, b: Oid)
    ensures OidBytes(a) == OidBytes(b) <==> a == b
  {
    OidSpace();
    BigEndianOrder(a as int, b as int, 20);
  }

  /** Positions are `u16`: the parent at index `i` is written under `i mod 65536`. */
  const POSITIONS: nat := 0x1_0000

  /** The parents of `commit` as the keys under its prefix hold them. */
  ghost predicate Slots(kv: Kv, repo: RepoId, commit: Oid, m: map<nat, Oid>) {
    && (forall pos :: pos in m ==> pos < POSITIONS)
    && (forall pos :: pos in m ==> ParKey(repo, commit, pos) in kv && kv[ParKey(repo, commit, pos)] == OidBytes(m[pos]))
    && (forall k :: k in kv && ParentsPrefix(repo, commit) <= k ==>
         exists pos :: pos in m && k == ParKey(repo, commit, pos))
  }

  /** What writing the parents in order leaves in the slots. */
  function Written(parents: seq<Oid>): (m: map<nat, Oid>) {
    if parents == [] then map[]
    else Written(parents[..|parents| - 1])[(|parents| - 1) % POSITIONS := parents[|parents| - 1]]
  }

  function Min(a: nat, b: nat): nat { if a < b then a else b }

  /** The slots from zero up to `n` are filled and no others. */
  ghost predicate FilledTo(m: map<nat, Oid>, n: nat) {
    forall i: nat :: i in m <==> i < n
  }

  lemma {:induction false} WrittenKeys(parents: seq<Oid>)
    ensures FilledTo(Written(parents), Min(|parents|, POSITIONS))
    ensures |parents| <= POSITIONS ==> forall i: nat :: i < |parents| ==> Written(parents)[i] == parents[i]
  {
    if parents != [] {
      WrittenKeys(parents[..|parents| - 1]);
    }
  }

  lemma ParKeyInjective(repo: RepoId, c: Oid, p: nat, c': Oid, p': nat)
    requires p < POSITIONS && p' < POSITIONS
    ensures ParentsPrefix(repo, c') <= ParKey(repo, c, p) <==> c == c'
    ensures ParKey(repo, c, p) == ParKey(repo, c', p') <==> c == c' && p == p'
    ensures Less(ParKey(repo, c, p), ParKey(repo, c, p')) <==> p < p'
  {
    var head := [PREFIX_PAR] + BigEndian(repo, 8);
    var k, k' := ParKey(repo, c, p), ParKey(repo, c', p');
    OidBytesInjective(c, c');
    assert Pow256(2) == POSITIONS;
    BigEndianOrder(p, p', 2);
    LessAfterPrefix(ParentsPrefix(repo, c), BigEndian(p, 2), BigEndian(p', 2));
    assert k[..29] == ParentsPrefix(repo, c) && k'[..29] == ParentsPrefix(repo, c');
    assert k[9..29] == OidBytes(c) && k'[9..29] == OidBytes(c');
    assert k[29..] == BigEndian(p, 2) && k'[29..] == BigEndian(p', 2);
    if ParentsPrefix(repo, c') <= k {
      assert k[..29] == ParentsPrefix(repo, c') && ParentsPrefix(repo, c')[9..29] == OidBytes(c');
    }
  }

  /** Decoding the values of a scan; `None` if one is not an id. */
  function ParentsOf(pairs: seq<Pair>): Option<seq<Oid>> {
    if pairs == [] then Some([])
    else
      var before := ParentsOf(pairs[..|pairs| - 1]);
      var last := OidFromBytes(pairs[|pairs| - 1].value);
      if before.None? || last.None? then None else Some(before.value + [last.value])
  }

  ghost function SlotList(repo: RepoId, commit: Oid, m: map<nat, Oid>, n: nat): seq<Pair>
    requires FilledTo(m, n)
  {
    seq(n, i requires 0 <= i < n => Pair(ParKey(repo, commit, i), OidBytes(m[i])))
  }

  lemma SlotListAscends(repo: RepoId, commit: Oid, m: map<nat, Oid>, n: nat)
    requires n <= POSITIONS && FilledTo(m, n)
    ensures Ascending(SlotList(repo, commit, m, n))
    ensures forall i: nat :: i < n ==> ParentsPrefix(repo, commit) <= SlotList(repo, commit, m, n)[i].key
  {
    hide Less, ParKey, ParentsPrefix, OidBytes;
    var list := SlotList(repo, commit, m, n);
    forall i, j | 0 <= i < j < n ensures Less(list[i].key, list[j].key) { ParKeyInjective(repo, commit, i, commit, j); }
    forall i: nat | i < n ensures ParentsPrefix(repo, commit) <= list[i].key {
      ParKeyInjective(repo, commit, i, commit, i);
    }
  }

  /** Filled from zero without gaps, the slots are read back in order. */
  lemma SlotsScan(kv: Kv, repo: RepoId, commit: Oid, m: map<nat, Oid>, n: nat, pairs: seq<Pair>)
    requires n <= POSITIONS && FilledTo(m, n) && Slots(kv, repo, commit, m)
    requires IsScan(kv, ParentsPrefix(repo, commit), Increment(ParentsPrefix(repo, commit)), pairs)
    ensures |pairs| == n && forall i: nat :: i < n ==> pairs[i].value == OidBytes(m[i])
  {
    hide Less, InRange, ParKey, ParentsPrefix, OidBytes, Increment, Ascending;
    var prefix, list := ParentsPrefix(repo, commit), SlotList(repo, commit, m, n);
    SlotListAscends(repo, commit, m, n);
    forall i | 0 <= i < |list|
      ensures list[i].key in kv && list[i].value == kv[list[i].key] && InRange(prefix, Increment(prefix), list[i].key)
    {
      ParentRangeIsExact(repo, commit, list[i].key);
    }
    forall k | k in kv && InRange(prefix, Increment(prefix), k)
      ensures exists i :: 0 <= i < |list| && list[i].key == k
    {
      ParentRangeIsExact(repo, commit, k);
      var pos :| pos in m && k == ParKey(repo, commit, pos);
      assert list[pos].key == k;
    }
    ScanUnique(kv, prefix, Increment(prefix), pairs, list);
  }

  lemma {:induction false} ParentsDecoded(pairs: seq<Pair>, m: map<nat, Oid>)
    requires forall i: nat :: i < |pairs| ==> i in m && pairs[i].value == OidBytes(m[i])
    ensures ParentsOf(pairs).Some? && |ParentsOf(pairs).value| == |pairs|
    ensures forall i: nat :: i < |pairs| ==> ParentsOf(pairs).value[i] == m[i]
  {
    hide OidBytes, OidFromBytes;
    if pairs != [] {
      ParentsDecoded(pairs[..|pairs| - 1], m);
      OidRoundTrip(m[|pairs| - 1]);
    }
  }

  /**
    Parents survive ingest and scan, in order, if and only if there are at most 65536 of them:
    beyond that the position wraps around and earlier parents are overwritten.
   */
  lemma ParentsRoundTrip(kv: Kv, repo: RepoId, commit: Oid, parents: seq<Oid>, pairs: seq<Pair>)
    requires Slots(kv, repo, commit, Written(parents))
    requires IsScan(kv, ParentsPrefix(repo, commit), Increment(ParentsPrefix(repo, commit)), pairs)
    ensures ParentsOf(pairs) == Some(parents) <==> |parents| <= POSITIONS
  {
    hide IsScan, Slots, Written, ParentsPrefix, OidBytes, Increment;
    WrittenKeys(parents);
    SlotsScan(kv, repo, commit, Written(parents), Min(|parents|, POSITIONS), pairs);
    ParentsDecoded(pairs, Written(parents));
    if |parents| <= POSITIONS { assert ParentsOf(pairs).value == parents; }
  }

  const KIND_COMMIT: byte := 2

  /** An object taken from a pack, ready for insertion; only commits have parents. */
  datatype Extracted = Extracted(oid: Oid, kind: byte, data: Bytes, parents: seq<Oid>)

  function EncodeObject(kind: byte, data: Bytes): Bytes {
    [kind] + data
  }

  function DecodeObject(value: Bytes): Option<(byte, Bytes)> {
    if value == [] then None else Some((value[0], value[1..]))
  }

  /** The object is stored, its kind before its bytes, and reading it gives both back. */
  ghost predicate Holds(kv: Kv, repo: RepoId, o: Extracted) {
    && ObjKey(repo, o.oid) in kv && kv[ObjKey(repo, o.oid)] == [o.kind] + o.data
    && DecodeObject(kv[ObjKey(repo, o.oid)]) == Some((o.kind, o.data))
  }

  lemma ObjKeyDistinct(repo: RepoId, oid: Oid, other: Oid, pos: nat)
    ensures ObjKey(repo, oid) == ObjKey(repo, other) <==> oid == other
    ensures ObjKey(repo, oid) != ParKey(repo, other, pos)
  {
    OidBytesInjective(oid, other);
    assert ObjKey(repo, oid)[9..] == OidBytes(oid) && ObjKey(repo, other)[9..] == OidBytes(other);
    assert ObjKey(repo, oid)[0] == PREFIX_OBJ && ParKey(repo, other, pos)[0] == PREFIX_PAR;
  }

  /** The keys under which a repository keeps objects and parents. */
  predicate OwnedBy(repo: RepoId, k: Bytes) {
    |k| >= 9 && (k[0] == PREFIX_OBJ || k[0] == PREFIX_PAR) && k[1..9] == BigEndian(repo, 8)
  }

  /** Outside a repository's object and parent keys the store is as before. */
  ghost predicate SameElsewhere(repo: RepoId, kv: Kv, kv': Kv) {
    forall k :: !OwnedBy(repo, k) ==> (k in kv' <==> k in kv) && (k in kv ==> kv'[k] == kv[k])
  }

  /** The ref keys of a repository hold exactly these refs. */
  ghost predicate StoresRefs(kv: Kv, repo: RepoId, refs: map<Bytes, Oid>) {
    forall name ::
      && (RefKey(repo, name) in kv <==> name in refs)
      && (name in refs ==> kv[RefKey(repo, name)] == OidBytes(refs[name]))
  }

  /** Every commit's parent keys hold the commit graph, and no other commit has any. */
  ghost predicate StoresGraph(kv: Kv, repo: RepoId, g: Graph) {
    forall c: Oid :: Slots(kv, repo, c, Written(Succ(g, c)))
  }

  /** Object and parent keys are no ref keys, and those of one repository are not another's. */
  lemma ForeignKeys(repo: RepoId, repo': RepoId, name: Bytes, k: Bytes)
    ensures !OwnedBy(repo, RefKey(repo', name))
    ensures repo != repo' && [6] + BigEndian(repo', 8) <= k ==> !OwnedBy(repo, k)
  {
    assert RefKey(repo', name)[0] == 4;
    if repo != repo' && [6] + BigEndian(repo', 8) <= k {
      RepoSpace();
      BigEndianOrder(repo, repo', 8);
      assert k[1..9] == BigEndian(repo', 8);
    }
  }

  /** Writing objects of one repository changes no refs, and no other repository's graph. */
  lemma ObjectsKeepTheRest(repo: RepoId, kv: Kv, kv': Kv)
    requires SameElsewhere(repo, kv, kv')
    ensures forall repo': RepoId, refs :: StoresRefs(kv, repo', refs) ==> StoresRefs(kv', repo', refs)
    ensures forall repo': RepoId, g :: repo' != repo && StoresGraph(kv, repo', g) ==> StoresGraph(kv', repo', g)
  {
    hide OwnedBy, RefKey, OidBytes, Written, Succ;
    forall repo': RepoId, refs | StoresRefs(kv, repo', refs) ensures StoresRefs(kv', repo', refs) {
      forall name ensures !OwnedBy(repo, RefKey(repo', name)) { ForeignKeys(repo, repo', name, []); }
    }
    forall repo': RepoId, g, c: Oid | repo' != repo && StoresGraph(kv, repo', g)
      ensures Slots(kv', repo', c, Written(Succ(g, c)))
    {
      SlotsElsewhere(repo, kv, kv', repo', c, Written(Succ(g, c)));
    }
  }

  lemma SlotsElsewhere(repo: RepoId, kv: Kv, kv': Kv, repo': RepoId, c: Oid, m: map<nat, Oid>)
    requires SameElsewhere(repo, kv, kv') && repo' != repo && Slots(kv, repo', c, m)
    ensures Slots(kv', repo', c, m)
  {
    assert forall pos: nat :: [6] + BigEndian(repo', 8) <= ParKey(repo', c, pos);
    assert [6] + BigEndian(repo', 8) <= ParentsPrefix(repo', c);
    hide OwnedBy, ParKey, ParentsPrefix, OidBytes, BigEndian;
    forall k | [6] + BigEndian(repo', 8) <= k ensures !OwnedBy(repo, k) { ForeignKeys(repo, repo', [], k); }
  }

  /** The commit graph after the objects are added. */
  ghost function Added(g: Graph, objs: seq<Extracted>): Graph {
    if objs == [] then g
    else
      var o := objs[|objs| - 1];
      var before := Added(g, objs[..|objs| - 1]);
      if o.kind == KIND_COMMIT then before[o.oid := o.parents] else before
  }

  /** An id names one commit: re-ingesting it brings the same parents. */
  ghost predicate ContentAddressed(g: Graph, objs: seq<Extracted>) {
    && (forall o :: o in objs && o.kind != KIND_COMMIT ==> o.parents == [])
    && (forall o :: o in objs && o.kind == KIND_COMMIT && o.oid in g ==> g[o.oid] == o.parents)
    && (forall o, o' :: o in objs && o' in objs && o.kind == KIND_COMMIT == o'.kind && o.oid == o'.oid ==>
         o.parents == o'.parents)
  }

  lemma {:induction false} AddedAt(g: Graph, objs: seq<Extracted>, o: Extracted, i: nat)
    requires ContentAddressed(g, objs) && o in objs && o.kind == KIND_COMMIT && i <= |objs|
    requires o.oid in Added(g, objs[..i])
    ensures Added(g, objs[..i])[o.oid] == o.parents
  {
    if i > 0 {
      assert objs[..i][..i - 1] == objs[..i - 1];
      var last := objs[i - 1];
      assert last in objs;
      if !(last.kind == KIND_COMMIT && last.oid == o.oid) { AddedAt(g, objs, o, i - 1); }
    }
  }

  /** The graph after ingest: the parents of the pack's commits, and elsewhere what was there before. */
  lemma {:induction false} AddedIs(g: Graph, objs: seq<Extracted>, x: Oid)
    requires ContentAddressed(g, objs)
    ensures forall o :: o in objs && o.kind == 2 && o.oid == x ==> Succ(Added(g, objs), x) == o.parents
    ensures (forall o :: o in objs && o.kind == 2 ==> o.oid != x) ==> Succ(Added(g, objs), x) == Succ(g, x)
  {
    forall o | o in objs && o.kind == 2 && o.oid == x ensures Succ(Added(g, objs), x) == o.parents {
      assert objs[..|objs|] == objs;
      AddedHas(g, objs, o);
      AddedAt(g, objs, o, |objs|);
    }
    if forall o :: o in objs && o.kind == 2 ==> o.oid != x { AddedNothing(g, objs, x); }
  }

  lemma {:induction false} AddedHas(g: Graph, objs: seq<Extracted>, o: Extracted)
    requires o in objs && o.kind == KIND_COMMIT
    ensures o.oid in Added(g, objs)
    decreases |objs|
  {
    var before, last := objs[..|objs| - 1], objs[|objs| - 1];
    assert objs == before + [last];
    if last != o { AddedHas(g, before, o); }
  }

  lemma {:induction false} AddedNothing(g: Graph, objs: seq<Extracted>, x: Oid)
    requires forall o :: o in objs && o.kind == KIND_COMMIT ==> o.oid != x
    ensures Succ(Added(g, objs), x) == Succ(g, x)
    decreases |objs|
  {
    if objs != [] {
      assert objs[|objs| - 1] in objs;
      AddedNothing(g, objs[..|objs| - 1], x);
    }
  }

  /** Writing one slot changes that slot of that commit only. */
  lemma SlotsPut(kv: Kv, repo: RepoId, c: Oid, pos: nat, x: Oid, c': Oid, m: map<nat, Oid>)
    requires pos < POSITIONS && Slots(kv, repo, c', m)
    ensures Slots(kv[ParKey(repo, c, pos) := OidBytes(x)], repo, c', if c == c' then m[pos := x] else m)
  {
    hide ParKey, ParentsPrefix, OidBytes;
    var key := ParKey(repo, c, pos);
    ParKeyInjective(repo, c, pos, c', pos);
    forall p | p in m ensures ParKey(repo, c', p) == key <==> c == c' && p == pos {
      ParKeyInjective(repo, c', p, c, pos);
    }
  }

  /** Keys of the object table are no parent keys. */
  lemma SlotsObj(kv: Kv, repo: RepoId, oid: Oid, value: Bytes, c: Oid, m: map<nat, Oid>)
    requires Slots(kv, repo, c, m)
    ensures Slots(kv[ObjKey(repo, oid) := value], repo, c, m)
  {
    assert ObjKey(repo, oid)[0] == PREFIX_OBJ && ParentsPrefix(repo, c)[0] == PREFIX_PAR;
    forall p: nat ensures ParKey(repo, c, p) != ObjKey(repo, oid) { assert ParKey(repo, c, p)[0] == PREFIX_PAR; }
    hide OidBytes, ParKey, ObjKey, ParentsPrefix;
  }

  lemma OwnKeys(repo: RepoId, oid: Oid, pos: nat)
    ensures OwnedBy(repo, ObjKey(repo, oid)) && OwnedBy(repo, ParKey(repo, oid, pos))
  {
    assert ObjKey(repo, oid)[1..9] == BigEndian(repo, 8);
    assert ParKey(repo, oid, pos)[1..9] == BigEndian(repo, 8);
  }

  /** No later object of the list has the same id. */
  predicate LastOf(objs: seq<Extracted>, i: nat)
    requires i < |objs|
  {
    forall j :: i < j < |objs| ==> objs[j].oid != objs[i].oid
  }

  lemma LastShrinks(objs: seq<Extracted>, i: nat)
    requires i < |objs|
    ensures forall k :: 0 <= k < i && LastOf(objs[..i + 1], k) ==> LastOf(objs[..i], k) && objs[k].oid != objs[i].oid
  {
    forall k | 0 <= k < i && LastOf(objs[..i + 1], k) ensures LastOf(objs[..i], k) && objs[k].oid != objs[i].oid {
      assert objs[..i + 1][i] == objs[i] && objs[..i + 1][k] == objs[k];
      forall j | k < j < i ensures objs[..i][j].oid != objs[..i][k].oid {
        assert objs[..i + 1][j] == objs[..i][j];
      }
    }
  }

  lemma HoldsPut(kv: Kv, repo: RepoId, obj: Extracted)
    ensures var kv' := kv[ObjKey(repo, obj.oid) := EncodeObject(obj.kind, obj.data)];
      Holds(kv', repo, obj) && forall o: Extracted :: o.oid != obj.oid && Holds(kv, repo, o) ==> Holds(kv', repo, o)
  {
    hide ObjKey, ParKey;
    forall o: Extracted ensures ObjKey(repo, o.oid) == ObjKey(repo, obj.oid) <==> o.oid == obj.oid {
      ObjKeyDistinct(repo, o.oid, obj.oid, 0);
    }
  }

  lemma HoldsParent(kv: Kv, repo: RepoId, commit: Oid, pos: nat, value: Bytes)
    ensures forall o :: Holds(kv, repo, o) ==> Holds(kv[ParKey(repo, commit, pos) := value], repo, o)
  {
    hide ObjKey, ParKey;
    forall o: Extracted ensures ObjKey(repo, o.oid) != ParKey(repo, commit, pos) {
      ObjKeyDistinct(repo, o.oid, commit, pos);
    }
  }

  /** The write loop of one transaction: objects, and for commits their numbered parents. */
  method Ingest(kv: Kv, repo: RepoId, objs: seq<Extracted>, ghost g: Graph) returns (kv': Kv)
    requires StoresGraph(kv, repo, g) && ContentAddressed(g, objs)
    ensures StoresGraph(kv', repo, Added(g, objs))
    ensures SameElsewhere(repo, kv, kv')
    ensures forall repo': RepoId, refs :: StoresRefs(kv, repo', refs) ==> StoresRefs(kv', repo', refs)
    ensures forall repo': RepoId, g :: repo' != repo && StoresGraph(kv, repo', g) ==> StoresGraph(kv', repo', g)
    ensures forall i :: 0 <= i < |objs| && LastOf(objs, i) ==> Holds(kv', repo, objs[i])
  {
    hide Slots, ContentAddressed, OwnedBy, ObjKey, ParKey, Written, Holds;
    kv' := kv;
    for i := 0 to |objs|
      invariant StoresGraph(kv', repo, Added(g, objs[..i]))
      invariant SameElsewhere(repo, kv, kv')
      invariant forall k :: 0 <= k < i && LastOf(objs[..i], k) ==> Holds(kv', repo, objs[k])
    {
      LastShrinks(objs, i);
      kv' := IngestOne(kv', repo, objs, i, g);
    }
    assert objs[..|objs|] == objs;
    ObjectsKeepTheRest(repo, kv, kv');
  }

  method IngestOne(kv: Kv, repo: RepoId, objs: seq<Extracted>, i: nat, ghost g: Graph) returns (kv': Kv)
    requires i < |objs| && ContentAddressed(g, objs)
    requires StoresGraph(kv, repo, Added(g, objs[..i]))
    ensures StoresGraph(kv', repo, Added(g, objs[..i + 1]))
    ensures SameElsewhere(repo, kv, kv')
    ensures Holds(kv', repo, objs[i])
    ensures forall o: Extracted :: o.oid != objs[i].oid && Holds(kv, repo, o) ==> Holds(kv', repo, o)
  {
    hide Slots, ContentAddressed, OwnedBy, ObjKey, ParKey, Written, Succ, Holds;
    var obj := objs[i];
    ghost var before := Added(g, objs[..i]);
    OwnKeys(repo, obj.oid, 0);
    kv' := kv[ObjKey(repo, obj.oid) := EncodeObject(obj.kind, obj.data)];
    forall c: Oid ensures Slots(kv', repo, c, Written(Succ(before, c))) {
      SlotsObj(kv, repo, obj.oid, EncodeObject(obj.kind, obj.data), c, Written(Succ(before, c)));
    }
    HoldsPut(kv, repo, obj);
    ghost var held := Written(Succ(before, obj.oid));
    WrittenStart(obj.parents, held);
    for j := 0 to |obj.parents|
      invariant Slots(kv', repo, obj.oid, held + Written(obj.parents[..j]))
      invariant forall c: Oid :: c != obj.oid ==> Slots(kv', repo, c, Written(Succ(before, c)))
      invariant SameElsewhere(repo, kv, kv') && Holds(kv', repo, obj)
      invariant forall o: Extracted :: o.oid != obj.oid && Holds(kv, repo, o) ==> Holds(kv', repo, o)
    {
      var pos := j % POSITIONS;
      OwnKeys(repo, obj.oid, pos);
      ghost var old' := kv';
      kv' := kv'[ParKey(repo, obj.oid, pos) := OidBytes(obj.parents[j])];
      HoldsParent(old', repo, obj.oid, pos, OidBytes(obj.parents[j]));
      WrittenTake(obj.parents, j, held);
      SlotsPut(old', repo, obj.oid, pos, obj.parents[j], obj.oid, held + Written(obj.parents[..j]));
      forall c: Oid | c != obj.oid ensures Slots(kv', repo, c, Written(Succ(before, c))) {
        SlotsPut(old', repo, obj.oid, pos, obj.parents[j], c, Written(Succ(before, c)));
      }
    }
    assert obj.parents[..|obj.parents|] == obj.parents;
    AfterOne(g, objs, i);
  }

  lemma WrittenStart(parents: seq<Oid>, held: map<nat, Oid>)
    ensures held + Written(parents[..0]) == held
  {
  }

  lemma WrittenTake(parents: seq<Oid>, j: nat, held: map<nat, Oid>)
    requires j < |parents|
    ensures (held + Written(parents[..j]))[j % POSITIONS := parents[j]] == held + Written(parents[..j + 1])
  {
    assert parents[..j + 1][..j] == parents[..j];
  }

  /** What one object does to the graph, slot by slot. */
  lemma AfterOne(g: Graph, objs: seq<Extracted>, i: nat)
    requires i < |objs| && ContentAddressed(g, objs)
    ensures var before, after, obj := Added(g, objs[..i]), Added(g, objs[..i + 1]), objs[i];
      && Written(Succ(before, obj.oid)) + Written(obj.parents) == Written(Succ(after, obj.oid))
      && forall c: Oid :: c != obj.oid ==> Succ(after, c) == Succ(before, c)
  {
    var obj := objs[i];
    assert objs[..i + 1][..i] == objs[..i] && obj in objs;
    if obj.kind == KIND_COMMIT {
      if obj.oid in Added(g, objs[..i]) { AddedAt(g, objs, obj, i); }
    }
  }

  /** Reading a commit's parents gives the graph's parents, for every commit with at most 65536. */
  lemma FetchParentsIsSucc(kv: Kv, repo: RepoId, g: Graph, commit: Oid, pairs: seq<Pair>)
    requires StoresGraph(kv, repo, g)
    requires IsScan(kv, ParentsPrefix(repo, commit), Increment(ParentsPrefix(repo, commit)), pairs)
    ensures ParentsOf(pairs) == Some(Succ(g, commit)) <==> |Succ(g, commit)| <= POSITIONS
  {
    hide IsScan, Slots, Written, ParentsOf;
    ParentsRoundTrip(kv, repo, commit, Succ(g, commit), pairs);
  }
}
