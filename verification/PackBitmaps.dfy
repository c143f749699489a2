/**
  The reachability bitmap of one pack: XOR-chained entries, decoded through a memo table,
  united, and read back as object ids.
 */
module PackBitmaps {
  import opened ObjectIds
  import opened Wrappers
  import opened Sequences
  import opened Words
  import opened DenseBitmaps

  /** `xorOffset` entries back lies the entry this one is stored as a difference from; 0 is none. */
  datatype Entry = Entry(idxPos: nat, xorOffset: nat, ewah: Ewah)

  /** What the queries read of a loaded and indexed bitmap. */
  datatype View = View(entries: seq<Entry>, count: nat, oidToEntry: map<Oid, nat>, table: seq<Option<Oid>>)

  ghost predicate WellFormed(v: View) {
    && (forall i :: 0 <= i < |v.entries| ==> v.entries[i].xorOffset <= i)
    && (forall o :: o in v.oidToEntry ==> v.oidToEntry[o] < |v.entries|)
    && |v.table| == v.count
  }

  /** The entry's own bits as stored, before any difference is undone. */
  ghost predicate RawBit(v: View, i: nat, p: nat)
    requires i < |v.entries|
  {
    var ewah := v.entries[i].ewah;
    p in ewah.setBits && p / 64 < WordCount(if ewah.numBits > v.count then ewah.numBits else v.count)
  }

  /** The real bitmap of an entry: the exclusive-or of the raw bitmaps along its chain. */
  ghost predicate TrueBit(v: View, i: nat, p: nat)
    requires WellFormed(v) && i < |v.entries|
    decreases i
  {
    RawBit(v, i, p) != (v.entries[i].xorOffset != 0 && TrueBit(v, i - v.entries[i].xorOffset, p))
  }

  /** How many entries along the chain list the position. */
  ghost function Listings(v: View, i: nat, p: nat): nat
    requires WellFormed(v) && i < |v.entries|
    decreases i
  {
    var e := v.entries[i];
    (if p in e.ewah.setBits then 1 else 0) + if e.xorOffset == 0 then 0 else Listings(v, i - e.xorOffset, p)
  }

  /** A position of the pack is set exactly if an odd number of entries along the chain list it. */
  lemma {:induction false} TrueBitIsParity(v: View, i: nat, p: nat)
    requires WellFormed(v) && i < |v.entries| && p < v.count
    ensures TrueBit(v, i, p) <==> Listings(v, i, p) % 2 == 1
    decreases i
  {
    if v.entries[i].xorOffset != 0 { TrueBitIsParity(v, i - v.entries[i].xorOffset, p); }
  }

  ghost predicate Decodes(v: View, i: nat, words: seq<Word>, numBits: nat)
    requires WellFormed(v) && i < |v.entries|
  {
    && |words| == WordCount(numBits) && numBits >= v.count
    && forall p: nat :: BitAt(words, p) <==> TrueBit(v, i, p)
  }

  /** Every memoised bitmap is the real one. */
  ghost predicate MemoHolds(v: View, memo: map<nat, Snapshot>)
    requires WellFormed(v)
  {
    forall i :: i in memo ==> i < |v.entries| && Decodes(v, i, memo[i].words, memo[i].numBits)
  }

  /** Position `p` is in the real bitmap of one of the ids. */
  ghost predicate UnionBit(v: View, oids: seq<Oid>, p: nat)
    requires WellFormed(v)
  {
    exists o :: o in oids && o in v.oidToEntry && TrueBit(v, v.oidToEntry[o], p)
  }

  predicate AllIndexed(v: View, oids: seq<Oid>) {
    forall o :: o in oids ==> o in v.oidToEntry
  }

  predicate Resolved(v: View, p: nat) {
    p < |v.table| && v.table[p].Some?
  }

  /** No set position up to and including `p` fails to name an object. */
  ghost predicate ResolvedUpTo(v: View, oids: seq<Oid>, p: nat)
    requires WellFormed(v)
  {
    forall q: nat :: q <= p && UnionBit(v, oids, q) ==> Resolved(v, q)
  }

  /** The id of a set position that is reported before any position that names no object. */
  ghost predicate ReadBack(v: View, oids: seq<Oid>, x: Oid)
    requires WellFormed(v)
  {
    exists p: nat :: UnionBit(v, oids, p) && ResolvedUpTo(v, oids, p) && Resolved(v, p) && v.table[p].value == x
  }

  /** `w` has the bits of `word` from position `k` on. */
  ghost predicate RestOf(w: Word, word: Word, k: nat) {
    forall i :: 0 <= i < 64 ==> (Bit(w, i) <==> Bit(word, i) && i >= k)
  }

  lemma AllLeft(word: Word)
    ensures RestOf(word, word, 0)
  {
  }

  lemma NoneLeft(word: Word, k: nat)
    requires RestOf(0, word, k)
    ensures forall i :: k <= i < 64 ==> !Bit(word, i)
  {
    hide Bit;
    forall i | k <= i < 64 ensures !Bit(word, i) { NoBits(i); }
  }

  /** The lowest bit that is left is the next one of the word, and clearing it leaves the rest. */
  lemma NextBit(w: Word, word: Word, k: nat)
    requires w != 0 && k <= 64 && RestOf(w, word, k)
    ensures var bit := TrailingZeros(w);
      && k <= bit < 64 && Bit(word, bit) && (forall j :: k <= j < bit ==> !Bit(word, j))
      && RestOf(And(w, w - 1), word, bit + 1) && And(w, w - 1) < w
  {
    hide Bit, And, Pow2, TrailingZeros;
    var bit := TrailingZeros(w);
    TrailingZerosBound(w, 64);
    LowestBit(w, bit);
    ClearLowest(w, bit);
    forall i | 0 <= i < 64
      ensures i < bit ==> !Bit(w, i)
      ensures Bit(And(w, w - 1), i) <==> Bit(w, i) && i != bit
    {
      LowestBit(w, i);
      ClearLowest(w, i);
    }
  }

  /** Every object of the pack is reached from the wants and none from the haves. */
  ghost predicate Covers(v: View, want: seq<Oid>, have: seq<Oid>)
    requires WellFormed(v)
  {
    forall p: nat :: p < v.count ==> UnionBit(v, want, p) && !UnionBit(v, have, p)
  }

  /** Which entry answers for an id: inserting in order, the last one for it. */
  function EntryIndex(entries: seq<Entry>, oidAt: nat -> Option<Oid>): map<Oid, nat> {
    if entries == [] then map[]
    else
      var last := |entries| - 1;
      var before := EntryIndex(entries[..last], oidAt);
      match oidAt(entries[last].idxPos)
      case None => before
      case Some(o) => before[o := last]
  }

  lemma {:induction false} EntryIndexIsLast(entries: seq<Entry>, oidAt: nat -> Option<Oid>)
    ensures forall o :: o in EntryIndex(entries, oidAt) <==>
      exists i :: 0 <= i < |entries| && oidAt(entries[i].idxPos) == Some(o)
    ensures forall o :: o in EntryIndex(entries, oidAt) ==>
      && EntryIndex(entries, oidAt)[o] < |entries|
      && oidAt(entries[EntryIndex(entries, oidAt)[o]].idxPos) == Some(o)
      && forall i :: EntryIndex(entries, oidAt)[o] < i < |entries| ==> oidAt(entries[i].idxPos) != Some(o)
  {
    if entries != [] {
      EntryIndexIsLast(entries[..|entries| - 1], oidAt);
    }
  }

  /** `words` are the entry's own bits, expanded to at least the pack's length. */
  ghost predicate IsRaw(v: View, i: nat, words: seq<Word>)
    requires i < |v.entries|
  {
    var ewah := v.entries[i].ewah;
    && |words| == WordCount(if ewah.numBits > v.count then ewah.numBits else v.count)
    && forall p: nat :: BitAt(words, p) <==> p in ewah.setBits && p / 64 < |words|
  }

  lemma ChainEnd(v: View, i: nat, raw: seq<Word>, numBits: nat)
    requires WellFormed(v) && i < |v.entries| && v.entries[i].xorOffset == 0 && IsRaw(v, i, raw)
    requires |raw| == WordCount(numBits) && numBits >= v.count
    ensures Decodes(v, i, raw, numBits)
  {
    hide BitAt, WordCount;
  }

  lemma ChainLink(v: View, i: nat, raw: seq<Word>, base: seq<Word>, baseBits: nat, words: seq<Word>, numBits: nat)
    requires WellFormed(v) && i < |v.entries| && v.entries[i].xorOffset != 0 && IsRaw(v, i, raw)
    requires Decodes(v, i - v.entries[i].xorOffset, base, baseBits)
    requires |words| == WordCount(numBits) && numBits >= v.count
    requires forall p: nat :: BitAt(words, p) <==> BitAt(raw, p) != BitAt(base, p)
    ensures Decodes(v, i, words, numBits)
  {
    hide BitAt, WordCount;
  }

  lemma MemoGives(v: View, memo: map<nat, Snapshot>, i: nat)
    requires WellFormed(v) && MemoHolds(v, memo) && i in memo
    ensures i < |v.entries| && Decodes(v, i, memo[i].words, memo[i].numBits)
    ensures |memo[i].words| == WordCount(memo[i].numBits)
  {
  }

  lemma MemoGrows(v: View, memo: map<nat, Snapshot>, i: nat, s: Snapshot)
    requires WellFormed(v) && MemoHolds(v, memo) && i < |v.entries| && Decodes(v, i, s.words, s.numBits)
    ensures MemoHolds(v, memo[i := s])
  {
    hide Decodes;
  }

  class PackBitmap {
    const offsetPosToIdxPos: seq<nat>
    const entries: seq<Entry>
    const packObjectCount: nat
    var offsetPosToOid: seq<Option<Oid>>
    var oidToEntry: map<Oid, nat>

    ghost function V(): View
      reads this
    {
      View(entries, packObjectCount, oidToEntry, offsetPosToOid)
    }

    ghost predicate Valid()
      reads this
    {
      |offsetPosToIdxPos| == packObjectCount && WellFormed(V())
    }

    /** A bitmap as loaded: parsed entries and reverse index, no object ids yet. */
    constructor (offsetPosToIdxPos: seq<nat>, entries: seq<Entry>)
      requires forall i :: 0 <= i < |entries| ==> entries[i].xorOffset <= i
      ensures Valid() && this.entries == entries && this.offsetPosToIdxPos == offsetPosToIdxPos && oidToEntry == map[]
    {
      this.offsetPosToIdxPos, this.entries, packObjectCount := offsetPosToIdxPos, entries, |offsetPosToIdxPos|;
      offsetPosToOid, oidToEntry := seq(|offsetPosToIdxPos|, _ => None), map[];
    }

    /** Fill both lookup tables. */
    method BuildOidIndex(oidAt: nat -> Option<Oid>)
      requires Valid() && oidToEntry == map[]
      modifies this
      ensures Valid()
      ensures forall p :: 0 <= p < packObjectCount ==> offsetPosToOid[p] == oidAt(offsetPosToIdxPos[p])
      ensures oidToEntry == EntryIndex(entries, oidAt)
    {
      for i := 0 to |entries|
        invariant offsetPosToOid == old(offsetPosToOid)
        invariant oidToEntry == EntryIndex(entries[..i], oidAt)
      {
        assert entries[..i + 1][..i] == entries[..i];
        var found := oidAt(entries[i].idxPos);
        if found.Some? {
          oidToEntry := oidToEntry[found.value := i];
        }
      }
      assert entries[..|entries|] == entries;
      EntryIndexIsLast(entries, oidAt);
      for p := 0 to |offsetPosToIdxPos|
        invariant Valid() && oidToEntry == EntryIndex(entries, oidAt)
        invariant forall q :: 0 <= q < p ==> offsetPosToOid[q] == oidAt(offsetPosToIdxPos[q])
      {
        offsetPosToOid := offsetPosToOid[p := oidAt(offsetPosToIdxPos[p])];
      }
    }

    /** Decode one entry through the memo table, which keeps only real bitmaps. */
    method DecodeEntry(i: nat, memo: map<nat, Snapshot>) returns (bitmap: DenseBitmap, memo': map<nat, Snapshot>)
      requires Valid() && i < |entries| && MemoHolds(V(), memo)
      ensures fresh(bitmap) && bitmap.Valid() && Decodes(V(), i, bitmap.words, bitmap.numBits)
      ensures MemoHolds(V(), memo') && memo'.Keys >= memo.Keys + {i}
      decreases i
    {
      hide TrueBit, RawBit, Decodes, MemoHolds, BitAt, WordCount;
      if i in memo {
        MemoGives(V(), memo, i);
        bitmap := new DenseBitmap.Clone(memo[i]);
        return bitmap, memo;
      }
      memo' := memo;
      bitmap := new DenseBitmap.FromEwah(entries[i].ewah, packObjectCount);
      ghost var raw := bitmap.words;
      if entries[i].xorOffset != 0 {
        var base;
        base, memo' := DecodeEntry(i - entries[i].xorOffset, memo);
        bitmap.XorWith(base);
        ChainLink(V(), i, raw, base.words, base.numBits, bitmap.words, bitmap.numBits);
      } else {
        ChainEnd(V(), i, raw, bitmap.numBits);
      }
      MemoGrows(V(), memo', i, Snapshot(bitmap.words, bitmap.numBits));
      memo' := memo'[i := Snapshot(bitmap.words, bitmap.numBits)];
    }

    /** OR of the real bitmaps of the ids; `None` if one has no entry. */
    method UnionBitmap(oids: seq<Oid>) returns (r: Option<DenseBitmap>)
      requires Valid()
      ensures r.Some? <==> AllIndexed(V(), oids)
      ensures r.Some? ==> fresh(r.value) && r.value.Valid() && r.value.numBits >= packObjectCount
      ensures r.Some? ==> forall p: nat :: BitAt(r.value.words, p) <==> UnionBit(V(), oids, p)
    {
      hide TrueBit, Decodes, MemoHolds, BitAt;
      var indices: seq<nat> := [];
      for i := 0 to |oids|
        invariant |indices| == i
        invariant forall k :: 0 <= k < i ==> oids[k] in oidToEntry && indices[k] == oidToEntry[oids[k]]
      {
        if oids[i] !in oidToEntry {
          return None;
        }
        indices := indices + [oidToEntry[oids[i]]];
      }
      var memo: map<nat, Snapshot> := map[];
      EmptyMemo(V());
      var union := new DenseBitmap(packObjectCount);
      for i := 0 to |indices|
        invariant fresh(union) && union.Valid() && union.numBits >= packObjectCount
        invariant MemoHolds(V(), memo)
        invariant forall p: nat :: BitAt(union.words, p) <==> UnionBit(V(), oids[..i], p)
      {
        var bitmap;
        bitmap, memo := DecodeEntry(indices[i], memo);
        ghost var before := union.words;
        union.OrWith(bitmap);
        forall p: nat ensures BitAt(union.words, p) <==> UnionBit(V(), oids[..i + 1], p) {
          UnionStep(V(), oids, i, bitmap.words, bitmap.numBits, p);
        }
      }
      assert oids[..|oids|] == oids;
      r := Some(union);
    }

    /**
      The ids of the set positions, in ascending order of position, up to the first set
      position that names no object.
     */
    method HaveReachable(haves: seq<Oid>) returns (r: Option<set<Oid>>)
      requires Valid()
      ensures r.Some? <==> AllIndexed(V(), haves)
      ensures r.Some? ==> forall x :: x in r.value <==> ReadBack(V(), haves, x)
    {
      hide UnionBit, WordCount;
      var union := UnionBitmap(haves);
      if union.None? {
        return None;
      }
      var out := ForEachSetBit(union.value);
      ghost var stop: nat :| StopsAt(V(), union.value.words, union.value.numBits, stop, out);
      assert forall p: nat :: BitAt(union.value.words, p) <==> UnionBit(V(), haves, p);
      r := Some(out);
    }

    /** Whether the pack is exactly the request; `None` if an id has no entry. */
    method CoversExactly(want: seq<Oid>, have: seq<Oid>) returns (r: Option<bool>)
      requires Valid()
      ensures want == [] ==> r == Some(false)
      ensures want != [] ==> (r.Some? <==> AllIndexed(V(), want) && AllIndexed(V(), have))
      ensures want != [] && r.Some? ==> (r.value <==> Covers(V(), want, have))
    {
      hide UnionBit, WordCount, BitAt, CountBelow;
      if want == [] {
        return Some(false);
      }
      var covered := UnionBitmap(want);
      if covered.None? {
        return None;
      }
      var bitmap := covered.value;
      NothingInNone(V());
      if have != [] {
        var known := UnionBitmap(have);
        if known.None? {
          return None;
        }
        bitmap.AndNotWith(known.value);
      }
      var n := packObjectCount;
      var count := bitmap.PopcountInRange(n);
      CountIsFull(bitmap.words, n);
      r := Some(count == n);
    }

    /**
      Word by word, lowest bit first, clearing each bit when done with it.  Stops at the first
      position below the length that names no object.
     */
    method ForEachSetBit(bitmap: DenseBitmap) returns (out: set<Oid>)
      requires Valid() && bitmap.Valid() && bitmap.numBits >= packObjectCount
      ensures ReportedToStop(V(), bitmap.words, bitmap.numBits, out)
    {
      hide Reported, Bit, And, Pow2, TrailingZeros, RestOf;
      out := {};
      var wordIdx := 0;
      ReportNone(V(), bitmap.words, bitmap.numBits);
      while wordIdx < |bitmap.words|
        invariant wordIdx <= |bitmap.words|
        invariant Reported(V(), bitmap.words, bitmap.numBits, 64 * wordIdx, out)
      {
        var word := bitmap.words[wordIdx];
        var w := word;
        ghost var k := 0;
        AllLeft(word);
        while w != 0
          invariant k <= 64 && Reported(V(), bitmap.words, bitmap.numBits, 64 * wordIdx + k, out)
          invariant RestOf(w, word, k)
          decreases w
        {
          var bit := TrailingZeros(w);
          NextBit(w, word, k);
          var global := wordIdx * 64 + bit;
          ReportSkip(V(), bitmap.words, bitmap.numBits, wordIdx, k, bit, out);
          assert BitAt(bitmap.words, global);
          if global < bitmap.numBits {
            if global >= |offsetPosToOid| || offsetPosToOid[global].None? {
              assert StopsAt(V(), bitmap.words, bitmap.numBits, global, out);
              return;
            }
            ReportTake(V(), bitmap.words, bitmap.numBits, global, out);
            out := out + {offsetPosToOid[global].value};
          } else {
            ReportPast(V(), bitmap.words, bitmap.numBits, global, out);
          }
          w, k := And(w, w - 1), bit + 1;
        }
        NoneLeft(word, k);
        ReportSkip(V(), bitmap.words, bitmap.numBits, wordIdx, k, 64, out);
        wordIdx := wordIdx + 1;
      }
      assert StopsAt(V(), bitmap.words, bitmap.numBits, 64 * |bitmap.words|, out);
    }
  }

  /** The set positions below `end` have been reported: each names an object, or lies past the length. */
  ghost predicate Reported(v: View, words: seq<Word>, numBits: nat, end: nat, out: set<Oid>) {
    && (forall x :: x in out <==>
         exists p: nat :: p < end && BitAt(words, p) && Resolved(v, p) && v.table[p].value == x)
    && (forall p: nat :: p < end && BitAt(words, p) ==> Resolved(v, p) || p >= numBits)
  }

  /** The report ends at the first set position that names no object, or after the last word. */
  ghost predicate StopsAt(v: View, words: seq<Word>, numBits: nat, stop: nat, out: set<Oid>) {
    Reported(v, words, numBits, stop, out) && ((BitAt(words, stop) && !Resolved(v, stop)) || stop == 64 * |words|)
  }

  ghost predicate ReportedToStop(v: View, words: seq<Word>, numBits: nat, out: set<Oid>) {
    exists stop: nat :: StopsAt(v, words, numBits, stop, out)
  }

  lemma ReportNone(v: View, words: seq<Word>, numBits: nat)
    ensures Reported(v, words, numBits, 0, {})
  {
  }

  /** Positions without bits need no report. */
  lemma ReportSkip(v: View, words: seq<Word>, numBits: nat, i: nat, k: nat, k': nat, out: set<Oid>)
    requires i < |words| && k <= k' <= 64 && Reported(v, words, numBits, 64 * i + k, out)
    requires forall j :: k <= j < k' ==> !Bit(words[i], j)
    ensures Reported(v, words, numBits, 64 * i + k', out)
  {
    hide Bit;
    forall p: nat | 64 * i + k <= p < 64 * i + k' ensures !BitAt(words, p) {
      assert p / 64 == i && p % 64 == p - 64 * i;
    }
  }

  lemma ReportTake(v: View, words: seq<Word>, numBits: nat, p: nat, out: set<Oid>)
    requires Reported(v, words, numBits, p, out) && BitAt(words, p) && Resolved(v, p)
    ensures Reported(v, words, numBits, p + 1, out + {v.table[p].value})
  {
    hide BitAt;
  }

  lemma ReportPast(v: View, words: seq<Word>, numBits: nat, p: nat, out: set<Oid>)
    requires Reported(v, words, numBits, p, out) && p >= numBits >= |v.table|
    ensures Reported(v, words, numBits, p + 1, out)
  {
    hide BitAt;
  }

  lemma NothingInNone(v: View)
    requires WellFormed(v)
    ensures forall p: nat :: !UnionBit(v, [], p)
  {
  }

  /**
    If every entry's bitmap has some position of the pack (as the bitmap of a commit has the
    commit's own), a request with haves never reuses a pack.
   */
  lemma HavesPreventReuse(v: View, want: seq<Oid>, have: seq<Oid>)
    requires WellFormed(v) && AllIndexed(v, have) && have != []
    requires forall o :: o in v.oidToEntry ==> exists p: nat :: p < v.count && TrueBit(v, v.oidToEntry[o], p)
    ensures !Covers(v, want, have)
  {
    hide TrueBit;
    var o := have[0];
    assert o in have && o in v.oidToEntry;
    var p: nat :| p < v.count && TrueBit(v, v.oidToEntry[o], p);
    assert UnionBit(v, have, p);
  }

  /** The union depends on which ids are given, not on their order or number. */
  lemma UnionOrderIrrelevant(v: View, a: seq<Oid>, b: seq<Oid>, p: nat)
    requires WellFormed(v) && Elems(a) == Elems(b)
    ensures UnionBit(v, a, p) <==> UnionBit(v, b, p)
    ensures AllIndexed(v, a) <==> AllIndexed(v, b)
  {
    hide TrueBit;
    assert forall o :: o in a <==> o in Elems(a);
    assert forall o :: o in b <==> o in Elems(b);
  }

  lemma EmptyMemo(v: View)
    requires WellFormed(v)
    ensures MemoHolds(v, map[])
  {
  }

  lemma UnionStep(v: View, oids: seq<Oid>, i: nat, words: seq<Word>, numBits: nat, p: nat)
    requires WellFormed(v) && i < |oids| && oids[i] in v.oidToEntry
    requires Decodes(v, v.oidToEntry[oids[i]], words, numBits)
    ensures UnionBit(v, oids[..i + 1], p) <==> UnionBit(v, oids[..i], p) || BitAt(words, p)
  {
    hide TrueBit, BitAt;
    assert oids[..i + 1] == oids[..i] + [oids[i]];
  }
}
