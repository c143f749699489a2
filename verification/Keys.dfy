/**
  Key encoding of the KV backend: byte-ordered keys, and half-open ranges that hold exactly
  the keys with a given prefix.
 */
module Keys {
  import opened ObjectIds
  import opened Wrappers

  type Bytes = seq<byte>

  /** A repository number, as wide as the `u64` that encodes it. */
  type RepoId = n: nat | n < 0x1_0000_0000_0000_0000

  const PREFIX_REPO_META: byte := 0x03
  const PREFIX_REF: byte := 0x04
  const PREFIX_OBJ: byte := 0x05
  const PREFIX_PAR: byte := 0x06
  const REPO_META_HEAD: byte := 0x01

  function Pow256(k: nat): (r: nat)
    ensures r >= 1
  {
    if k == 0 then 1 else 256 * Pow256(k - 1)
  }

  /** The lowest `k` bytes of `n`, most significant first. */
  function BigEndian(n: nat, k: nat): (b: Bytes)
    ensures |b| == k
  {
    if k == 0 then [] else BigEndian(n / 256, k - 1) + [(n % 256) as byte]
  }

  function OidBytes(oid: Oid): (b: Bytes)
    ensures |b| == 20
  {
    BigEndian(oid as int, 20)
  }

  function RepoMeta(repo: RepoId, tag: byte): Bytes {
    [PREFIX_REPO_META] + BigEndian(repo, 8) + [tag]
  }

  function RefsPrefix(repo: RepoId): Bytes {
    [PREFIX_REF] + BigEndian(repo, 8)
  }

  function RefKey(repo: RepoId, name: Bytes): Bytes {
    [PREFIX_REF] + BigEndian(repo, 8) + name
  }

  function ObjKey(repo: RepoId, oid: Oid): Bytes {
    [PREFIX_OBJ] + BigEndian(repo, 8) + OidBytes(oid)
  }

  function ParentsPrefix(repo: RepoId, commit: Oid): Bytes {
    [PREFIX_PAR] + BigEndian(repo, 8) + OidBytes(commit)
  }

  function ParKey(repo: RepoId, commit: Oid, pos: nat): Bytes {
    ParentsPrefix(repo, commit) + BigEndian(pos, 2)
  }

  /** The name in a ref key of this repository; `isUtf8` is the library's validity test. */
  function RefnameFromKey(repo: RepoId, key: Bytes, isUtf8: Bytes -> bool): Option<Bytes> {
    var prefix := RefsPrefix(repo);
    if prefix <= key && isUtf8(key[|prefix|..]) then Some(key[|prefix|..]) else None
  }

  /** Byte order, shorter first. */
  predicate Less(a: Bytes, b: Bytes) {
    b != [] && (a == [] || a[0] < b[0] || (a[0] == b[0] && Less(a[1..], b[1..])))
  }

  predicate InRange(start: Bytes, end: Bytes, key: Bytes) {
    !Less(key, start) && Less(key, end)
  }

  predicate Saturated(key: Bytes) {
    forall i :: 0 <= i < |key| ==> key[i] == 0xFF
  }

  /** The upper bound computed for a prefix. */
  function Increment(key: Bytes): Bytes {
    if Saturated(key) then key + [0]
    else if Saturated(key[1..]) then [key[0] + 1]
    else [key[0]] + Increment(key[1..])
  }

  /** Increment the last byte that can be, and cut off what follows it. */
  method IncrementInPlace(key: Bytes) returns (end: Bytes)
    ensures end == Increment(key)
  {
    var i := |key|;
    while i > 0
      invariant 0 <= i <= |key| && Saturated(key[i..])
    {
      i := i - 1;
      if key[i] < 0xFF {
        IncrementAt(key, i);
        return key[..i] + [key[i] + 1];
      }
      assert key[i..] == [key[i]] + key[i + 1..];
    }
    end := key + [0];
  }

  lemma {:induction false} IncrementAt(key: Bytes, i: nat)
    requires i < |key| && key[i] < 0xFF && Saturated(key[i + 1..])
    ensures Increment(key) == key[..i] + [key[i] + 1]
  {
    assert !Saturated(key);
    if i > 0 {
      assert key[1..][i - 1] == key[i] && key[1..][i..] == key[i + 1..];
      IncrementAt(key[1..], i - 1);
      assert [key[0]] + (key[1..][..i - 1] + [key[i] + 1]) == key[..i] + [key[i] + 1];
    }
  }

  /** Nothing sorts at or above an all-0xFF string except what starts with it. */
  lemma {:induction false} AboveSaturated(key: Bytes, k: Bytes)
    requires Saturated(key)
    ensures !Less(k, key) <==> key <= k
  {
    if key != [] && k != [] {
      AboveSaturated(key[1..], k[1..]);
      ConsPrefix(key, k);
    }
  }

  lemma ConsPrefix(key: Bytes, k: Bytes)
    requires key != [] && k != []
    ensures key <= k <==> key[0] == k[0] && key[1..] <= k[1..]
  {
    if key[0] == k[0] && key[1..] <= k[1..] { assert key == [key[0]] + key[1..] && k == [k[0]] + k[1..]; }
  }

  /** The range from a prefix to its increment holds exactly the keys with that prefix. */
  lemma {:induction false} RangeIsPrefix(key: Bytes, k: Bytes)
    requires !Saturated(key)
    ensures InRange(key, Increment(key), k) <==> key <= k
  {
    if k != [] {
      ConsPrefix(key, k);
      if Saturated(key[1..]) {
        AboveSaturated(key[1..], k[1..]);
        assert forall i :: 0 < i < |key| ==> key[i] == key[1..][i - 1];
        assert key[0] != 0xFF && Increment(key) == [key[0] + 1];
        var end := Increment(key);
        assert end[1..] == [] && !Less(k[1..], end[1..]);
        assert Less(k, end) <==> k[0] < end[0];
        assert Less(k, key) <==> k[0] < key[0] || (k[0] == key[0] && Less(k[1..], key[1..]));
      } else {
        RangeIsPrefix(key[1..], k[1..]);
        assert Increment(key)[1..] == Increment(key[1..]);
      }
    }
  }

  /**
    The construction is exact if and only if some byte of the prefix is below 0xFF: for an
    all-0xFF prefix the computed bound admits the prefix itself and nothing else.
   */
  lemma RangeExactIff(key: Bytes)
    ensures (forall k :: InRange(key, Increment(key), k) <==> key <= k) <==> !Saturated(key)
    ensures Saturated(key) ==> forall k :: InRange(key, Increment(key), k) <==> k == key
  {
    if Saturated(key) {
      forall k ensures InRange(key, Increment(key), k) <==> k == key { SaturatedRange(key, k); }
      LessIrreflexive(key + [0]);
      assert key <= key + [0];
      assert !InRange(key, Increment(key), key + [0]);
    } else {
      forall k ensures InRange(key, Increment(key), k) <==> key <= k { RangeIsPrefix(key, k); }
    }
  }

  lemma SaturatedRange(key: Bytes, k: Bytes)
    requires Saturated(key)
    ensures InRange(key, key + [0], k) <==> k == key
  {
    AboveSaturated(key, k);
    if key <= k {
      var rest := k[|key|..];
      assert k == key + rest;
      LessAfterPrefix(key, rest, [0]);
      assert Less(rest, [0]) <==> rest == [];
    }
  }

  lemma {:induction false} LessIrreflexive(a: Bytes)
    ensures !Less(a, a)
  {
    if a != [] { LessIrreflexive(a[1..]); }
  }

  /** A repository's ref range, for every repository number, holds its ref keys and nothing else. */
  lemma RefRangeIsExact(repo: RepoId, k: Bytes)
    ensures InRange(RefsPrefix(repo), Increment(RefsPrefix(repo)), k) <==>
      exists name :: k == RefKey(repo, name)
  {
    var prefix := RefsPrefix(repo);
    assert prefix[0] == PREFIX_REF && !Saturated(prefix);
    RangeIsPrefix(prefix, k);
    if prefix <= k { assert k == RefKey(repo, k[|prefix|..]); }
    if name :| k == RefKey(repo, name) { assert k == prefix + name; }
  }

  lemma ParentRangeIsExact(repo: RepoId, commit: Oid, k: Bytes)
    ensures InRange(ParentsPrefix(repo, commit), Increment(ParentsPrefix(repo, commit)), k) <==>
      ParentsPrefix(repo, commit) <= k
  {
    assert ParentsPrefix(repo, commit)[0] == PREFIX_PAR;
    RangeIsPrefix(ParentsPrefix(repo, commit), k);
  }

  lemma {:induction false} BigEndianOrder(m: nat, n: nat, k: nat)
    requires m < Pow256(k) && n < Pow256(k)
    ensures Less(BigEndian(m, k), BigEndian(n, k)) <==> m < n
    ensures BigEndian(m, k) == BigEndian(n, k) <==> m == n
    decreases k
  {
    if k > 0 {
      BigEndianOrder(m / 256, n / 256, k - 1);
      var a, b, x, y := BigEndian(m / 256, k - 1), BigEndian(n / 256, k - 1), (m % 256) as byte, (n % 256) as byte;
      LessSnoc(a, b, x, y);
      assert (a + [x])[..k - 1] == a && (b + [y])[..k - 1] == b;
      assert (a + [x])[k - 1] == x && (b + [y])[k - 1] == y;
    }
  }

  lemma {:induction false} LessSnoc(a: Bytes, b: Bytes, x: byte, y: byte)
    requires |a| == |b|
    ensures Less(a + [x], b + [y]) <==> Less(a, b) || (a == b && x < y)
  {
    if a != [] {
      LessSnoc(a[1..], b[1..], x, y);
      assert (a + [x])[1..] == a[1..] + [x] && (b + [y])[1..] == b[1..] + [y];
      assert a == [a[0]] + a[1..] && b == [b[0]] + b[1..];
    }
  }

  lemma {:induction false} LessAfterPrefix(p: Bytes, a: Bytes, b: Bytes)
    ensures Less(p + a, p + b) <==> Less(a, b)
  {
    if p == [] {
      assert p + a == a && p + b == b;
    } else {
      LessAfterPrefix(p[1..], a, b);
      assert (p + a)[1..] == p[1..] + a && (p + b)[1..] == p[1..] + b;
    }
  }
}
