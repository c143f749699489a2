/**
  The key of the on-disk pack cache: when two requests share one.

  The digest is taken to be collision-free, so the hashed bytes themselves serve as the key.
 */
module CacheKeys {
  import opened ObjectIds
  import opened Wrappers
  import opened Keys
  import opened KvObjects

  datatype CachedFilter = Unfiltered | OmitBlobs | OmitTrees

  type U32 = n: nat | n < 0x1_0000_0000

  datatype Request = Request(
    repo: RepoId, want: seq<Oid>, have: seq<Oid>, deepen: Option<U32>, filter: CachedFilter, thin: bool)

  /** The lowest `k` bytes of `n`, least significant first. */
  function LittleEndian(n: nat, k: nat): (b: Bytes)
    ensures |b| == k
  {
    if k == 0 then [] else [(n % 256) as byte] + LittleEndian(n / 256, k - 1)
  }

  lemma {:induction false} LittleEndianInjective(m: nat, n: nat, k: nat)
    requires m < Pow256(k) && n < Pow256(k)
    ensures LittleEndian(m, k) == LittleEndian(n, k) <==> m == n
    decreases k
  {
    if k > 0 {
      LittleEndianInjective(m / 256, n / 256, k - 1);
      assert LittleEndian(m, k)[1..] == LittleEndian(m / 256, k - 1);
      assert LittleEndian(n, k)[1..] == LittleEndian(n / 256, k - 1);
      assert LittleEndian(m, k)[0] == (m % 256) as byte && LittleEndian(n, k)[0] == (n % 256) as byte;
    }
  }

  function Insert(x: Oid, s: seq<Oid>): seq<Oid> {
    if s == [] || x <= s[0] then [x] + s else [s[0]] + Insert(x, s[1..])
  }

  /** The ids in ascending order, as sorting leaves them. */
  function Sorted(s: seq<Oid>): seq<Oid> {
    if s == [] then [] else Insert(s[0], Sorted(s[1..]))
  }

  ghost predicate InOrder(s: seq<Oid>) {
    |s| <= 1 || (s[0] <= s[1] && InOrder(s[1..]))
  }

  lemma HeadAndTail(s: seq<Oid>)
    requires s != []
    ensures multiset(s) == multiset{s[0]} + multiset(s[1..])
  {
    assert s == [s[0]] + s[1..];
  }

  lemma {:induction false} InsertSorts(x: Oid, s: seq<Oid>)
    requires InOrder(s)
    ensures InOrder(Insert(x, s)) && Insert(x, s) != []
    ensures Insert(x, s)[0] == if s == [] || x <= s[0] then x else s[0]
  {
    if s == [] || x <= s[0] {
      assert ([x] + s)[1..] == s;
    } else {
      InsertSorts(x, s[1..]);
      assert ([s[0]] + Insert(x, s[1..]))[1..] == Insert(x, s[1..]);
    }
  }

  lemma {:induction false} InsertKeeps(x: Oid, s: seq<Oid>)
    ensures multiset(Insert(x, s)) == multiset(s) + multiset{x}
  {
    if s != [] && x > s[0] {
      InsertKeeps(x, s[1..]);
      HeadAndTail(s);
      HeadAndTail([s[0]] + Insert(x, s[1..]));
      assert ([s[0]] + Insert(x, s[1..]))[1..] == Insert(x, s[1..]);
    }
  }

  lemma {:induction false} SortedSorts(s: seq<Oid>)
    ensures InOrder(Sorted(s)) && multiset(Sorted(s)) == multiset(s)
  {
    if s != [] {
      SortedSorts(s[1..]);
      InsertSorts(s[0], Sorted(s[1..]));
      InsertKeeps(s[0], Sorted(s[1..]));
      HeadAndTail(s);
    }
  }

  lemma {:induction false} HeadIsLeast(s: seq<Oid>, x: Oid)
    requires InOrder(s) && x in multiset(s)
    ensures s != [] && s[0] <= x
  {
    assert s != [];
    HeadAndTail(s);
    if x != s[0] { HeadIsLeast(s[1..], x); }
  }

  lemma SameLength(a: seq<Oid>, b: seq<Oid>)
    requires multiset(a) == multiset(b)
    ensures |a| == |b|
  {
    assert |a| == |multiset(a)|;
  }

  lemma TailMultiset(s: seq<Oid>)
    requires s != []
    ensures multiset(s[1..]) == multiset(s) - multiset{s[0]}
    ensures s[0] in multiset(s) && s == [s[0]] + s[1..]
  {
    HeadAndTail(s);
  }

  lemma SameLeast(a: seq<Oid>, b: seq<Oid>)
    requires InOrder(a) && InOrder(b) && multiset(a) == multiset(b) && a != [] && b != []
    ensures a[0] == b[0] && multiset(a[1..]) == multiset(b[1..])
  {
    TailMultiset(a);
    TailMultiset(b);
    hide InOrder;
    HeadIsLeast(a, b[0]);
    HeadIsLeast(b, a[0]);
  }

  lemma {:induction false} OrderIsUnique(a: seq<Oid>, b: seq<Oid>)
    requires InOrder(a) && InOrder(b) && multiset(a) == multiset(b)
    ensures a == b
  {
    SameLength(a, b);
    if a != [] {
      SameLeast(a, b);
      OrderIsUnique(a[1..], b[1..]);
      assert a == [a[0]] + a[1..] && b == [b[0]] + b[1..];
    }
  }

  /** Sorting forgets order and nothing else. */
  lemma SortedIff(a: seq<Oid>, b: seq<Oid>)
    ensures Sorted(a) == Sorted(b) <==> multiset(a) == multiset(b)
    ensures |Sorted(a)| == |a|
  {
    SortedSorts(a);
    SortedSorts(b);
    assert |Sorted(a)| == |multiset(Sorted(a))| == |multiset(a)| == |a|;
    if multiset(a) == multiset(b) { OrderIsUnique(Sorted(a), Sorted(b)); }
  }

  function Flat(oids: seq<Oid>): (b: Bytes)
    ensures |b| == 20 * |oids|
  {
    if oids == [] then [] else OidBytes(oids[0]) + Flat(oids[1..])
  }

  lemma {:induction false} FlatInjective(a: seq<Oid>, b: seq<Oid>)
    requires |a| == |b|
    ensures Flat(a) == Flat(b) <==> a == b
  {
    hide OidBytes;
    if a != [] {
      FlatInjective(a[1..], b[1..]);
      OidBytesInjective(a[0], b[0]);
      assert Flat(a)[..20] == OidBytes(a[0]) && Flat(b)[..20] == OidBytes(b[0]);
      assert Flat(a)[20..] == Flat(a[1..]) && Flat(b)[20..] == Flat(b[1..]);
      assert a == [a[0]] + a[1..] && b == [b[0]] + b[1..];
    }
  }

  function DeepenOrZero(d: Option<U32>): U32 {
    if d.Some? then d.value else 0
  }

  function FilterTag(f: CachedFilter): byte {
    match f
    case Unfiltered => 0
    case OmitBlobs => 1
    case OmitTrees => 2
  }

  function Options(r: Request): (b: Bytes)
    ensures |b| == 7
  {
    [1] + LittleEndian(DeepenOrZero(r.deepen), 4) + [FilterTag(r.filter)] + [if r.thin then 1 else 0]
  }

  /** The bytes that are hashed into the cache key. */
  function Key(r: Request): Bytes {
    LittleEndian(r.repo, 8) + Flat(Sorted(r.want)) + [0] + Flat(Sorted(r.have)) + Options(r)
  }

  lemma OptionParts(r: Request)
    ensures var x := Options(r);
      && x[1..5] == LittleEndian(DeepenOrZero(r.deepen), 4)
      && x[5] == FilterTag(r.filter)
      && x[6] == if r.thin then 1 else 0
  {
    hide LittleEndian, FilterTag, DeepenOrZero;
    var depth := LittleEndian(DeepenOrZero(r.deepen), 4);
    assert Options(r) == [1] + depth + [FilterTag(r.filter), if r.thin then 1 else 0];
  }

  lemma DepthSpace()
    ensures Pow256(4) == 0x1_0000_0000
  {
    assert Pow256(1) == 0x100 && Pow256(3) == 0x100_0000;
  }

  lemma OptionsIff(a: Request, b: Request)
    ensures Options(a) == Options(b) <==>
      && (a.deepen == b.deepen || {a.deepen, b.deepen} == {None, Some(0)})
      && a.filter == b.filter && a.thin == b.thin
  {
    hide LittleEndian, Pow256;
    DepthSpace();
    LittleEndianInjective(DeepenOrZero(a.deepen), DeepenOrZero(b.deepen), 4);
    OptionParts(a);
    OptionParts(b);
    DepthsIff(a.deepen, b.deepen);
  }

  /** No depth counts as zero, and nothing else is confused. */
  lemma DepthsIff(a: Option<U32>, b: Option<U32>)
    ensures DeepenOrZero(a) == DeepenOrZero(b) <==> a == b || {a, b} == {None, Some(0)}
  {
  }

  /**
    Between requests with equally many wants, equal keys mean the same request up to the order
    of the ids, and up to a depth of zero counting as no depth.
   */
  lemma KeyIff(a: Request, b: Request)
    requires |a.want| == |b.want|
    ensures Key(a) == Key(b) <==>
      && a.repo == b.repo && multiset(a.want) == multiset(b.want) && multiset(a.have) == multiset(b.have)
      && (a.deepen == b.deepen || {a.deepen, b.deepen} == {None, Some(0)})
      && a.filter == b.filter && a.thin == b.thin
  {
    hide LittleEndian, Flat, Sorted, Options, Pow256;
    var x, y, w := Key(a), Key(b), 20 * |a.want|;
    KeyParts(a);
    KeyParts(b);
    RepoSpace();
    LittleEndianInjective(a.repo, b.repo, 8);
    SortedIff(a.want, b.want);
    SortedIff(a.have, b.have);
    FlatInjective(Sorted(a.want), Sorted(b.want));
    OptionsIff(a, b);
    if |a.have| == |b.have| { FlatInjective(Sorted(a.have), Sorted(b.have)); }
    if multiset(a.have) == multiset(b.have) { SameLength(a.have, b.have); }
  }

  /** Where the parts of a key lie. */
  lemma KeyParts(r: Request)
    ensures var k, w, h := Key(r), 20 * |r.want|, 20 * |r.have|;
      && |k| == 16 + w + h
      && k[..8] == LittleEndian(r.repo, 8) && k[8..8 + w] == Flat(Sorted(r.want))
      && k[9 + w..9 + w + h] == Flat(Sorted(r.have)) && k[9 + w + h..] == Options(r)
  {
    hide LittleEndian, Flat, Sorted, Options;
    SortedIff(r.want, r.want);
    SortedIff(r.have, r.have);
  }

  /** An id whose first byte could pass for the byte between wants and haves. */
  predicate LeadsWithZero(oid: Oid) {
    OidBytes(oid)[0] == 0
  }

  lemma {:induction false} FlatAt(oids: seq<Oid>, i: nat)
    requires i < |oids|
    ensures Flat(oids)[20 * i] == OidBytes(oids[i])[0]
    decreases |oids|
  {
    hide OidBytes;
    if i > 0 {
      FlatAt(oids[1..], i - 1);
      assert Flat(oids) == OidBytes(oids[0]) + Flat(oids[1..]);
      assert Flat(oids)[20 * i] == Flat(oids[1..])[20 * (i - 1)];
    }
  }

  /** Between requests with different numbers of wants, the byte after the shorter list tells the keys apart. */
  lemma KeysSeparate(a: Request, b: Request)
    requires |a.want| < |b.want| && forall w :: w in b.want ==> !LeadsWithZero(w)
    ensures Key(a) != Key(b)
  {
    hide LittleEndian, Flat, Sorted, Options, OidBytes;
    var n, w := |a.want|, Sorted(b.want);
    SortedIff(a.want, a.want);
    SortedIff(b.want, b.want);
    SortedSorts(b.want);
    assert w[n] in multiset(w) && w[n] in b.want;
    FlatAt(w, n);
    KeyParts(b);
    assert Key(b)[8 + 20 * n] == Key(b)[8..8 + 20 * |b.want|][20 * n] == OidBytes(w[n])[0];
    assert Key(a)[8 + 20 * n] == 0;
  }

  /** With unequal want counts different requests can share a key: the lists are not delimited. */
  lemma KeysCollide(a: Request) returns (b: Request)
    requires |a.want| == 1 && a.have == [] && LeadsWithZero(a.want[0])
    ensures b.want == [] && |b.have| == 1 && b == a.(want := [], have := b.have) && Key(b) == Key(a)
  {
    hide LittleEndian, Options, OidBytes, Flat, Sorted;
    var w := a.want[0];
    var h := OidOfBytes(OidBytes(w)[1..] + [0]);
    b := a.(want := [], have := [h]);
    OneFlat(w);
    OneFlat(h);
    SameOptions(a, b);
    assert a.want == [w] && OidBytes(w) == [0] + OidBytes(w)[1..];
    ShiftedKey(LittleEndian(a.repo, 8), OidBytes(w)[1..]);
  }

  /** For one want and no haves, a leading zero byte is all there is to fear. */
  lemma LoneWantCollidesIff(a: Request)
    requires |a.want| == 1 && a.have == []
    ensures (exists b: Request :: |b.want| != 1 && Key(b) == Key(a)) <==> LeadsWithZero(a.want[0])
  {
    hide Key, LeadsWithZero;
    if LeadsWithZero(a.want[0]) {
      var b := KeysCollide(a);
    } else {
      forall b: Request | |b.want| != 1 ensures Key(b) != Key(a) {
        if b.want == [] {
          KeysSeparate(b, a);
        } else {
          LongerKey(a, b);
        }
      }
    }
  }

  /** Without haves, a request with more wants has a longer key. */
  lemma LongerKey(a: Request, b: Request)
    requires |a.want| < |b.want| && a.have == []
    ensures Key(a) != Key(b)
  {
    hide Key;
    KeyParts(a);
    KeyParts(b);
  }

  lemma SameOptions(a: Request, b: Request)
    requires a.deepen == b.deepen && a.filter == b.filter && a.thin == b.thin
    ensures Options(a) == Options(b)
  {
  }

  lemma ShiftedKey(a: Bytes, x: Bytes)
    ensures a + ([0] + x) + [0] + [] == a + [] + [0] + (x + [0])
  {
  }

  lemma OneFlat(w: Oid)
    ensures Flat(Sorted([w])) == OidBytes(w) && Flat(Sorted([])) == []
  {
    hide OidBytes;
    assert Sorted([w]) == [w] && [w][1..] == [];
  }
}
