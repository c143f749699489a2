/**
  Uncompressed bitmaps over 64-bit words, changed in place.
 */
module DenseBitmaps {
  import opened Words

  /** Bit `p` lives in word `p / 64` at position `p % 64`; beyond the words there are no bits. */
  predicate BitAt(words: seq<Word>, p: nat) {
    p / 64 < |words| && Bit(words[p / 64], p % 64)
  }

  /** The fewest words that have room for so many bits. */
  function WordCount(numBits: nat): (count: nat)
    ensures 64 * (count - 1) < numBits <= 64 * count
  {
    (numBits + 63) / 64
  }

  /** What a compressed bitmap decodes to: its length and its set positions, in the order they are reported. */
  datatype Ewah = Ewah(numBits: nat, setBits: seq<nat>)

  /** The value of a bitmap, as a clone keeps it. */
  datatype Snapshot = Snapshot(words: seq<Word>, numBits: nat)

  /** Word-by-word combination over the shorter length. */
  function Zipped(op: (Word, Word) -> Word, a: seq<Word>, b: seq<Word>): seq<Word> {
    seq(|a|, i requires 0 <= i < |a| => if i < |b| then op(a[i], b[i]) else a[i])
  }

  lemma ZippedBit(op: (Word, Word) -> Word, a: seq<Word>, b: seq<Word>, p: nat)
    ensures BitAt(Zipped(op, a, b), p) <==>
      p / 64 < |a| && Bit(if p / 64 < |b| then op(a[p / 64], b[p / 64]) else a[p / 64], p % 64)
  {
    hide Bit;
  }

  lemma ZippedBits(a: seq<Word>, b: seq<Word>, p: nat)
    ensures |b| <= |a| ==> (BitAt(Zipped(Or, a, b), p) <==> BitAt(a, p) || BitAt(b, p))
    ensures |b| <= |a| ==> (BitAt(Zipped(Xor, a, b), p) <==> BitAt(a, p) != BitAt(b, p))
    ensures BitAt(Zipped(AndNot, a, b), p) <==> BitAt(a, p) && !BitAt(b, p)
  {
    ZippedBit(Or, a, b, p);
    ZippedBit(Xor, a, b, p);
    ZippedBit(AndNot, a, b, p);
    hide Or, Xor, AndNot, Bit, Zipped;
    var i := p / 64;
    if i < |a| && i < |b| {
      BitwiseOps(a[i], b[i], p % 64);
    }
  }

  /** The number of set positions below `end`. */
  function CountBelow(words: seq<Word>, end: nat): nat {
    if end == 0 then 0 else CountBelow(words, end - 1) + if BitAt(words, end - 1) then 1 else 0
  }

  /** A count that reaches the end misses no position. */
  lemma {:induction false} CountIsFull(words: seq<Word>, end: nat)
    ensures CountBelow(words, end) <= end
    ensures CountBelow(words, end) == end <==> forall p :: 0 <= p < end ==> BitAt(words, p)
  {
    hide BitAt;
    if end > 0 { CountIsFull(words, end - 1); }
  }

  lemma {:induction false} CountInWord(words: seq<Word>, i: nat, k: nat)
    requires i < |words| && k <= 64
    ensures CountBelow(words, 64 * i + k) == CountBelow(words, 64 * i) + Ones(words[i], k)
    decreases k
  {
    hide Bit;
    if k > 0 {
      CountInWord(words, i, k - 1);
      assert (64 * i + (k - 1)) / 64 == i && (64 * i + (k - 1)) % 64 == k - 1;
    }
  }

  lemma {:induction false} CountBeyond(words: seq<Word>, k: nat)
    ensures CountBelow(words, 64 * |words| + k) == CountBelow(words, 64 * |words|)
    decreases k
  {
    hide Bit;
    if k > 0 { CountBeyond(words, k - 1); }
  }

  class DenseBitmap {
    var words: seq<Word>
    var numBits: nat

    ghost predicate Valid()
      reads this
    {
      |words| == WordCount(numBits)
    }

    constructor (numBits: nat)
      ensures Valid() && this.numBits == numBits
      ensures forall p: nat :: !BitAt(words, p)
    {
      words := seq(WordCount(numBits), _ => 0);
      this.numBits := numBits;
      new;
      ZeroWords(words);
    }

    constructor Clone(s: Snapshot)
      requires |s.words| == WordCount(s.numBits)
      ensures Valid() && words == s.words && numBits == s.numBits
    {
      words, numBits := s.words, s.numBits;
    }

    /** Expansion of a compressed bitmap, at least `hint` bits long. */
    constructor FromEwah(ewah: Ewah, hint: nat)
      ensures Valid() && numBits == if ewah.numBits > hint then ewah.numBits else hint
      ensures forall p: nat :: BitAt(words, p) <==> p in ewah.setBits && p / 64 < |words|
      ensures forall p: nat :: p in ewah.setBits && p < numBits ==> BitAt(words, p)
    {
      numBits := if ewah.numBits > hint then ewah.numBits else hint;
      words := seq(WordCount(if ewah.numBits > hint then ewah.numBits else hint), _ => 0);
      new;
      hide Bit, Or, Pow2;
      ZeroWords(words);
      for i := 0 to |ewah.setBits|
        invariant Valid() && numBits == if ewah.numBits > hint then ewah.numBits else hint
        invariant forall p: nat :: BitAt(words, p) <==> p in ewah.setBits[..i] && p / 64 < |words|
      {
        var bit := ewah.setBits[i];
        assert ewah.setBits[..i + 1] == ewah.setBits[..i] + [bit];
        if bit / 64 < |words| {
          PowStrict(bit % 64, 64);
          ghost var before := words;
          words := words[bit / 64 := Or(words[bit / 64], Pow2(bit % 64))];
          forall p: nat ensures BitAt(words, p) <==> BitAt(before, p) || p == bit { SetBitAt(before, bit, p); }
        }
      }
      assert ewah.setBits[..|ewah.setBits|] == ewah.setBits;
    }

    /** Grow with zero words; never shrink. */
    method ExtendTo(n: nat)
      requires Valid()
      modifies this
      ensures Valid() && numBits == if n > old(numBits) then n else old(numBits)
      ensures |words| >= old(|words|) && forall p: nat :: BitAt(words, p) <==> old(BitAt(words, p))
    {
      if n > numBits {
        numBits := n;
        words := words + seq(WordCount(n) - |words|, _ => 0);
        forall p: nat ensures BitAt(words, p) <==> old(BitAt(words, p)) { NoBits(p % 64); }
      }
    }

    method OrWith(other: DenseBitmap)
      requires Valid() && other.Valid() && other != this
      modifies this
      ensures Valid() && numBits == if other.numBits > old(numBits) then other.numBits else old(numBits)
      ensures forall p: nat :: BitAt(words, p) <==> old(BitAt(words, p)) || BitAt(other.words, p)
    {
      ExtendTo(other.numBits);
      ghost var before := words;
      ZipInPlace(Or, other);
      forall p: nat ensures BitAt(words, p) <==> BitAt(before, p) || BitAt(other.words, p) {
        ZippedBits(before, other.words, p);
      }
    }

    method XorWith(other: DenseBitmap)
      requires Valid() && other.Valid() && other != this
      modifies this
      ensures Valid() && numBits == if other.numBits > old(numBits) then other.numBits else old(numBits)
      ensures forall p: nat :: BitAt(words, p) <==> old(BitAt(words, p)) != BitAt(other.words, p)
    {
      ExtendTo(other.numBits);
      ghost var before := words;
      ZipInPlace(Xor, other);
      forall p: nat ensures BitAt(words, p) <==> BitAt(before, p) != BitAt(other.words, p) {
        ZippedBits(before, other.words, p);
      }
    }

    /** Clears the other's bits; the length stays as it is. */
    method AndNotWith(other: DenseBitmap)
      requires Valid() && other.Valid() && other != this
      modifies this
      ensures Valid() && numBits == old(numBits)
      ensures forall p: nat :: BitAt(words, p) <==> old(BitAt(words, p)) && !BitAt(other.words, p)
    {
      ghost var before := words;
      ZipInPlace(AndNot, other);
      forall p: nat ensures BitAt(words, p) <==> BitAt(before, p) && !BitAt(other.words, p) {
        ZippedBits(before, other.words, p);
      }
    }

    /** The loop of the three operations above. */
    method ZipInPlace(op: (Word, Word) -> Word, other: DenseBitmap)
      requires Valid() && other != this
      modifies this`words
      ensures words == Zipped(op, old(words), other.words)
    {
      var i := 0;
      while i < |words| && i < |other.words|
        invariant |words| == old(|words|) && i <= |words| && i <= |other.words|
        invariant forall k :: 0 <= k < i ==> words[k] == op(old(words)[k], other.words[k])
        invariant forall k :: i <= k < |words| ==> words[k] == old(words)[k]
      {
        words := words[i := op(words[i], other.words[i])];
        i := i + 1;
      }
    }

    /** Set bits in positions `0..end`, whatever lies past `end`. */
    method PopcountInRange(end: nat) returns (total: nat)
      requires Valid()
      ensures total == CountBelow(words, end)
    {
      hide Bit, Ones, CountBelow, And, Pow2;
      var fullWords, rem := end / 64, end % 64;
      total := 0;
      var i := 0;
      CountStart(words);
      while i < fullWords && i < |words|
        invariant i <= fullWords && i <= |words|
        invariant total == CountBelow(words, 64 * i)
      {
        CountInWord(words, i, 64);
        total := total + Ones(words[i], 64);
        i := i + 1;
      }
      if i < fullWords {
        CountBeyond(words, end - 64 * i);
      }
      if rem > 0 {
        if fullWords < |words| {
          PowStrict(rem, 64);
          var mask := Pow2(rem) - 1;
          MaskedOnes(words[fullWords], rem, 64);
          CountInWord(words, fullWords, rem);
          total := total + Ones(And(words[fullWords], mask), 64);
        } else {
          CountBeyond(words, end - 64 * |words|);
        }
      }
    }
  }

  lemma ZeroWords(words: seq<Word>)
    requires forall i :: 0 <= i < |words| ==> words[i] == 0
    ensures forall p: nat :: !BitAt(words, p)
  {
    forall p: nat ensures !BitAt(words, p) { NoBits(p % 64); }
  }

  lemma CountStart(words: seq<Word>)
    ensures CountBelow(words, 0) == 0
  {
  }

  lemma SetBitAt(words: seq<Word>, bit: nat, p: nat)
    requires bit / 64 < |words| && Pow2(bit % 64) < Pow2(64)
    ensures BitAt(words[bit / 64 := Or(words[bit / 64], Pow2(bit % 64))], p) <==> BitAt(words, p) || p == bit
  {
    hide Bit, Or, Pow2;
    BitwiseOps(words[bit / 64], Pow2(bit % 64), p % 64);
    PowBit(bit % 64, p % 64);
  }
}
