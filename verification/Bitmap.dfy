/** What an array of words followed by an infinite tail means as a set of naturals. */
module BitSets {
  import opened Words

  /** HWLOC_SUBBITMAP_READULONG: the k-th word, whether or not it is stored. */
  function Read(ws: seq<Word>, inf: bool, k: nat): Word {
    if k < |ws| then ws[k] else if inf then Full() else Zero()
  }

  predicate Has(ws: seq<Word>, inf: bool, i: nat) {
    Read(ws, inf, i / 64)[i % 64]
  }

  ghost function Denote(ws: seq<Word>, inf: bool): iset<nat> {
    iset i: nat | Has(ws, inf, i)
  }

  predicate InRange(begin: nat, end: int, i: nat) {
    begin <= i && (end == -1 || i <= end)
  }

  /** The interval [begin, end], or [begin, infinity) when end is -1. */
  ghost function Range(begin: nat, end: int): iset<nat> {
    iset i: nat | InRange(begin, end, i)
  }

  lemma HasBit(ws: seq<Word>, inf: bool, k: nat, b: nat)
    requires b < 64
    ensures Has(ws, inf, 64 * k + b) <==> Read(ws, inf, k)[b]
  {
    assert (64 * k + b) / 64 == k && (64 * k + b) % 64 == b;
  }

  /** Sets are equal exactly when their words are, however many of them are stored. */
  lemma DenoteExt(ws: seq<Word>, inf: bool, ws': seq<Word>, inf': bool)
    ensures Denote(ws, inf) == Denote(ws', inf') <==> forall k: nat :: Read(ws, inf, k) == Read(ws', inf', k)
  {
    if forall k: nat :: Read(ws, inf, k) == Read(ws', inf', k) {
      assert forall i: nat :: Has(ws, inf, i) == Has(ws', inf', i);
    }
    if Denote(ws, inf) == Denote(ws', inf') {
      forall k: nat ensures Read(ws, inf, k) == Read(ws', inf', k) {
        forall b: nat | b < 64 ensures Read(ws, inf, k)[b] == Read(ws', inf', k)[b] {
          HasBit(ws, inf, k, b);
          HasBit(ws', inf', k, b);
          assert 64 * k + b in Denote(ws, inf) <==> 64 * k + b in Denote(ws', inf');
        }
        WordExt(Read(ws, inf, k), Read(ws', inf', k));
      }
    }
  }
}

/** The sequence-level meaning of the word-wise operations on two bitmaps of any two lengths. */
module WordwiseOps {
  import opened Words
  import opened BitSets

  /** The result of an operation that was applied to every word, stored or not. */
  ghost predicate Combines(op: (Word, Word) -> Word, r: seq<Word>, ri: bool,
                           a: seq<Word>, ai: bool, b: seq<Word>, bi: bool) {
    forall k: nat :: Read(r, ri, k) == op(Read(a, ai, k), Read(b, bi, k))
  }

  lemma CombinedBits(op: (Word, Word) -> Word, r: seq<Word>, ri: bool,
                     a: seq<Word>, ai: bool, b: seq<Word>, bi: bool, i: nat)
    requires Combines(op, r, ri, a, ai, b, bi)
    ensures Has(r, ri, i) == op(Read(a, ai, i / 64), Read(b, bi, i / 64))[i % 64]
  {
    assert Read(r, ri, i / 64) == op(Read(a, ai, i / 64), Read(b, bi, i / 64));
  }

  // When the operands store different numbers of words, the source stops at the shorter one if its
  // tail absorbs the longer one's, and copies or complements the longer one's words otherwise.

  lemma OrDenotes(r: seq<Word>, a: seq<Word>, ai: bool, b: seq<Word>, bi: bool)
    requires |r| == (if |b| < |a| then (if bi then |b| else |a|)
                     else if |a| < |b| then (if ai then |a| else |b|) else |a|)
    requires forall k :: 0 <= k < |r| && k < |a| && k < |b| ==> r[k] == BitOr(a[k], b[k])
    requires forall k :: |b| <= k < |r| ==> r[k] == a[k]
    requires forall k :: |a| <= k < |r| ==> r[k] == b[k]
    ensures Denote(r, ai || bi) == Denote(a, ai) + Denote(b, bi)
  {
    forall k: nat ensures BitOr(Read(a, ai, k), Read(b, bi, k)) == Read(r, ai || bi, k) {
      TailWords(Read(a, ai, k));
      TailWords(Read(b, bi, k));
    }
    forall i: nat ensures Has(r, ai || bi, i) <==> Has(a, ai, i) || Has(b, bi, i) {
      CombinedBits(BitOr, r, ai || bi, a, ai, b, bi, i);
    }
  }

  lemma AndDenotes(r: seq<Word>, a: seq<Word>, ai: bool, b: seq<Word>, bi: bool)
    requires |r| == (if |b| < |a| then (if bi then |a| else |b|)
                     else if |a| < |b| then (if ai then |b| else |a|) else |a|)
    requires forall k :: 0 <= k < |r| && k < |a| && k < |b| ==> r[k] == BitAnd(a[k], b[k])
    requires forall k :: |b| <= k < |r| ==> r[k] == a[k]
    requires forall k :: |a| <= k < |r| ==> r[k] == b[k]
    ensures Denote(r, ai && bi) == Denote(a, ai) * Denote(b, bi)
  {
    forall k: nat ensures BitAnd(Read(a, ai, k), Read(b, bi, k)) == Read(r, ai && bi, k) {
      TailWords(Read(a, ai, k));
      TailWords(Read(b, bi, k));
    }
    forall i: nat ensures Has(r, ai && bi, i) <==> Has(a, ai, i) && Has(b, bi, i) {
      CombinedBits(BitAnd, r, ai && bi, a, ai, b, bi, i);
    }
  }

  function BitAndNot(a: Word, b: Word): Word {
    BitAnd(a, BitNot(b))
  }

  lemma AndNotDenotes(r: seq<Word>, a: seq<Word>, ai: bool, b: seq<Word>, bi: bool)
    requires |r| == (if |b| < |a| then (if bi then |b| else |a|)
                     else if |a| < |b| then (if ai then |b| else |a|) else |a|)
    requires forall k :: 0 <= k < |r| && k < |a| && k < |b| ==> r[k] == BitAndNot(a[k], b[k])
    requires forall k :: |b| <= k < |r| ==> r[k] == a[k]
    requires forall k :: |a| <= k < |r| ==> r[k] == BitNot(b[k])
    ensures Denote(r, ai && !bi) == Denote(a, ai) - Denote(b, bi)
  {
    forall k: nat ensures BitAndNot(Read(a, ai, k), Read(b, bi, k)) == Read(r, ai && !bi, k) {
      TailWords(Read(a, ai, k));
      TailWords(Read(b, bi, k));
    }
    forall i: nat ensures Has(r, ai && !bi, i) <==> Has(a, ai, i) && !Has(b, bi, i) {
      CombinedBits(BitAndNot, r, ai && !bi, a, ai, b, bi, i);
    }
  }

  lemma XorDenotes(r: seq<Word>, a: seq<Word>, ai: bool, b: seq<Word>, bi: bool)
    requires |r| == (if |b| < |a| then |a| else |b|)
    requires forall k :: 0 <= k < |r| && k < |a| && k < |b| ==> r[k] == BitXor(a[k], b[k])
    requires forall k :: |b| <= k < |r| ==> r[k] == BitXor(a[k], if bi then Full() else Zero())
    requires forall k :: |a| <= k < |r| ==> r[k] == BitXor(b[k], if ai then Full() else Zero())
    ensures Denote(r, ai != bi) == (Denote(a, ai) - Denote(b, bi)) + (Denote(b, bi) - Denote(a, ai))
  {
    forall k: nat ensures BitXor(Read(a, ai, k), Read(b, bi, k)) == Read(r, ai != bi, k) {
      TailWords(Read(a, ai, k));
      TailWords(Read(b, bi, k));
    }
    forall i: nat ensures Has(r, ai != bi, i) <==> Has(a, ai, i) != Has(b, bi, i) {
      CombinedBits(BitXor, r, ai != bi, a, ai, b, bi, i);
    }
  }

  lemma NotDenotes(r: seq<Word>, a: seq<Word>, ai: bool)
    requires |r| == |a| && forall k :: 0 <= k < |a| ==> r[k] == BitNot(a[k])
    ensures forall i: nat :: i in Denote(r, !ai) <==> i !in Denote(a, ai)
  {
  }

  /** The bits of word k that lie in the range [begin, end], or [begin, infinity) when end is -1. */
  function RangeMask(begin: nat, end: int, k: nat): Word
    requires end == -1 || begin <= end
  {
    if k < begin / 64 || (end != -1 && k > end / 64) then Zero()
    else if k == begin / 64 then
      if end != -1 && k == end / 64 then UlBitFromTo(begin % 64, end % 64) else UlBitFrom(begin % 64)
    else
    if end != -1 && k == end / 64 then UlBitTo(end % 64) else Full()
  }

  lemma RangeMaskBits(begin: nat, end: int, k: nat, b: nat)
    requires b < 64 && (end == -1 || begin <= end)
    ensures RangeMask(begin, end, k)[b] <==> InRange(begin, end, 64 * k + b)
  {
    if end == -1 {
      MaskBits(begin % 64, 0, b);
    } else {
      MaskBits(begin % 64, end % 64, b);
    }
  }

  /** Setting the masked bits of the stored words adds the range; when the tail is already set, the
      range may have been cut to the stored words. */
  lemma RangeAdded(w: seq<Word>, inf: bool, r: seq<Word>, begin: nat, end: int, cut: int)
    requires |r| == |w| && (end == -1 || begin <= end) && (cut == -1 || begin <= cut)
    requires cut == end || (inf && end != -1 && cut == 64 * |w| - 1 < end)
    requires -1 <= cut < 64 * |w|
    requires forall k :: 0 <= k < |r| ==> r[k] == BitOr(w[k], RangeMask(begin, cut, k))
    requires begin / 64 < |w|
    ensures Denote(r, inf || end == -1) == Denote(w, inf) + Range(begin, end)
  {
    forall i: nat ensures Has(r, inf || end == -1, i) <==> Has(w, inf, i) || InRange(begin, end, i) {
      assert i == 64 * (i / 64) + i % 64;
      RangeMaskBits(begin, cut, i / 64, i % 64);
    }
  }

  lemma RangeRemoved(w: seq<Word>, inf: bool, r: seq<Word>, begin: nat, end: int, cut: int)
    requires |r| == |w| && (end == -1 || begin <= end) && (cut == -1 || begin <= cut)
    requires cut == end || (!inf && end != -1 && cut == 64 * |w| - 1 < end)
    requires -1 <= cut < 64 * |w|
    requires forall k :: 0 <= k < |r| ==> r[k] == BitAndNot(w[k], RangeMask(begin, cut, k))
    requires begin / 64 < |w|
    ensures Denote(r, inf && end != -1) == Denote(w, inf) - Range(begin, end)
  {
    forall i: nat ensures Has(r, inf && end != -1, i) <==> Has(w, inf, i) && !InRange(begin, end, i) {
      assert i == 64 * (i / 64) + i % 64;
      RangeMaskBits(begin, cut, i / 64, i % 64);
    }
  }

  lemma RangeAddedWords(w: seq<Word>, r: seq<Word>, begin: nat, end: int)
    requires |r| == |w| && (end == -1 || begin <= end < 64 * |w|) && begin / 64 < |w|
    requires forall k :: 0 <= k < |r| ==>
                           (r[k] == if k < begin / 64 || (end != -1 && k > end / 64) then w[k]
                                    else if begin / 64 < k && (end == -1 || k < end / 64) then Full()
                                    else BitOr(w[k], RangeMask(begin, end, k)))
    ensures forall k :: 0 <= k < |r| ==> r[k] == BitOr(w[k], RangeMask(begin, end, k))
  {
    forall k | 0 <= k < |r| ensures r[k] == BitOr(w[k], RangeMask(begin, end, k)) {
      TailWords(w[k]);
    }
  }

  lemma RangeRemovedWords(w: seq<Word>, r: seq<Word>, begin: nat, end: int)
    requires |r| == |w| && (end == -1 || begin <= end < 64 * |w|) && begin / 64 < |w|
    requires forall k :: 0 <= k < |r| ==>
                           (r[k] == if k < begin / 64 || (end != -1 && k > end / 64) then w[k]
                                    else if begin / 64 < k && (end == -1 || k < end / 64) then Zero()
                                    else BitAndNot(w[k], RangeMask(begin, end, k)))
    ensures forall k :: 0 <= k < |r| ==> r[k] == BitAndNot(w[k], RangeMask(begin, end, k))
  {
    forall k | 0 <= k < |r| ensures r[k] == BitAndNot(w[k], RangeMask(begin, end, k)) {
      TailWords(w[k]);
    }
  }

  lemma OneBit(cpu: nat)
    ensures Range(cpu, cpu) == iset{cpu}
    ensures RangeMask(cpu, cpu, cpu / 64) == UlBit(cpu % 64)
  {
    WordExt(RangeMask(cpu, cpu, cpu / 64), UlBit(cpu % 64));
    assert forall i: nat :: InRange(cpu, cpu, i) <==> i == cpu;
  }

  lemma UniformDenotes(ws: seq<Word>, inf: bool)
    requires forall k: nat :: Read(ws, inf, k) == if inf then Full() else Zero()
    ensures forall i: nat :: i in Denote(ws, inf) <==> inf
  {
    forall i: nat ensures Has(ws, inf, i) == inf {
      assert Read(ws, inf, i / 64) == if inf then Full() else Zero();
    }
  }

  ghost predicate IsLeast(m: nat, s: iset<nat>) {
    m in s && forall j: nat :: j in s ==> m <= j
  }

  /** ffsl on the first non-zero word gives the least member. */
  lemma FirstSet(w: seq<Word>, inf: bool, i: nat, ffs: nat)
    requires i < |w| && w[i] != Zero() && ffs == Ffsl(w[i])
    requires forall k :: 0 <= k < i ==> w[k] == Zero()
    ensures Has(w, inf, 64 * i + ffs - 1)
    ensures forall j :: 0 <= j < 64 * i + ffs - 1 ==> !Has(w, inf, j)
  {
    HasBit(w, inf, i, ffs - 1);
  }

  lemma SingletonDenotes(r: seq<Word>, m: nat)
    requires m < 64 * |r|
    requires forall k, b :: 0 <= k < |r| && 0 <= b < 64 ==> r[k][b] == (64 * k + b == m)
    ensures Denote(r, false) == iset{m}
  {
    forall i: nat ensures Has(r, false, i) <==> i == m {
      assert i == 64 * (i / 64) + i % 64;
    }
  }

  /** Of the first i words of w, only member m is left in r, its least one, if it was found. */
  ghost predicate SinglifiedTo(w: seq<Word>, inf: bool, r: seq<Word>, i: nat, found: bool, m: nat) {
    && i <= |w| == |r|
    && (!found ==> forall k :: 0 <= k < i ==> w[k] == Zero() == r[k])
    && (found ==> m < 64 * i && Has(w, inf, m) && forall j :: 0 <= j < m ==> !Has(w, inf, j))
    && (found ==> forall k, b :: 0 <= k < i && 0 <= b < 64 ==> r[k][b] == (64 * k + b == m))
  }

  lemma SinglifiedDenotes(w: seq<Word>, inf: bool, r: seq<Word>, found: bool, m: nat)
    requires SinglifiedTo(w, inf, r, |w|, found, m)
    ensures found ==> Denote(r, false) == iset{m} && IsLeast(m, Denote(w, inf))
    ensures !found ==> Denote(r, false) == iset{}
    ensures !found && !inf ==> Denote(w, inf) == iset{}
    ensures !found && inf ==> IsLeast(64 * |w|, Denote(w, inf))
  {
    if found {
      SingletonDenotes(r, m);
    } else {
      assert forall j: nat :: !Has(r, false, j);
      assert forall j: nat :: Has(w, inf, j) <==> inf && j >= 64 * |w|;
    }
  }

  /** Operations with the infinite words: what lets the source stop at the shorter operand or copy. */
  lemma TailWords(w: Word)
    ensures BitOr(w, Zero()) == w == BitOr(Zero(), w)
    ensures BitOr(w, Full()) == Full() == BitOr(Full(), w)
    ensures BitAnd(w, Full()) == w == BitAnd(Full(), w)
    ensures BitAnd(w, Zero()) == Zero() == BitAnd(Zero(), w)
    ensures BitAnd(w, BitNot(Zero())) == w && BitAnd(w, BitNot(Full())) == Zero()
    ensures BitAnd(Full(), BitNot(w)) == BitNot(w) && BitAnd(Zero(), BitNot(w)) == Zero()
    ensures BitAndNot(w, Zero()) == w && BitAndNot(w, Full()) == Zero()
    ensures BitXor(w, Zero()) == w == BitXor(Zero(), w)
    ensures BitXor(w, Full()) == BitXor(Full(), w) == BitNot(w)
    ensures BitNot(Zero()) == Full() && BitNot(Full()) == Zero()
  {
    WordExt(BitOr(w, Zero()), w);
    WordExt(BitOr(Zero(), w), w);
    WordExt(BitOr(w, Full()), Full());
    WordExt(BitOr(Full(), w), Full());
    WordExt(BitAnd(w, Full()), w);
    WordExt(BitAnd(Full(), w), w);
    WordExt(BitAnd(w, Zero()), Zero());
    WordExt(BitAnd(Zero(), w), Zero());
    WordExt(BitAnd(w, BitNot(Zero())), w);
    WordExt(BitAnd(w, BitNot(Full())), Zero());
    WordExt(BitAnd(Full(), BitNot(w)), BitNot(w));
    WordExt(BitAnd(Zero(), BitNot(w)), Zero());
    WordExt(BitXor(w, Zero()), w);
    WordExt(BitXor(Zero(), w), w);
    WordExt(BitXor(w, Full()), BitNot(w));
    WordExt(BitXor(Full(), w), BitNot(w));
    WordExt(BitNot(Zero()), Full());
    WordExt(BitNot(Full()), Zero());
  }
}

module Bitmaps {
  import opened WordwiseOps
  import opened Words
  import opened BitSets

  const PREALLOC_ULONGS: nat := 8

  /** A finite or cofinite set of naturals, updated in place (struct hwloc_bitmap_s). The words
      between the count and the allocated size hold arbitrary values. */
  class Bitmap {
    var ulongsCount: nat
    var ulongsAllocated: nat
    var ulongs: seq<Word>
    var infinite: bool

    ghost predicate Valid()
      reads this
    {
      1 <= ulongsCount <= ulongsAllocated == |ulongs|
    }

    ghost function Stored(): seq<Word>
      reads this
      requires Valid()
    {
      ulongs[..ulongsCount]
    }

    ghost function At(k: nat): Word
      reads this
      requires Valid()
    {
      Read(Stored(), infinite, k)
    }

    ghost function Set(): iset<nat>
      reads this
      requires Valid()
    {
      Denote(Stored(), infinite)
    }

    constructor ()
      ensures Valid() && Set() == iset{}
    {
      var garbage := Garbage(PREALLOC_ULONGS);
      ulongsCount, ulongsAllocated, infinite := 1, PREALLOC_ULONGS, false;
      ulongs := garbage[0 := Zero()];
    }

    /** Makes room for at least `needed` words; what was stored stays. */
    method EnlargeByUlongs(needed: nat)
      requires Valid() && needed >= 1
      modifies this
      ensures Valid() && needed <= ulongsAllocated
      ensures ulongsCount == old(ulongsCount) && infinite == old(infinite)
      ensures old(ulongs) <= ulongs
    {
      var tmp := Pow2(FlslNat(needed - 1));
      if tmp > ulongsAllocated {
        var garbage := Garbage(tmp - ulongsAllocated);
        ulongs := ulongs + garbage;
        ulongsAllocated := tmp;
      }
    }

    /** Makes at least `needed` words valid without changing the set. */
    method ReallocByUlongs(needed: nat)
      requires Valid()
      modifies this
      ensures Valid() && infinite == old(infinite)
      ensures ulongsCount == if needed <= old(ulongsCount) then old(ulongsCount) else needed
      ensures forall k: nat :: At(k) == old(At(k))
      ensures Set() == old(Set())
    {
      if needed > ulongsCount {
        EnlargeByUlongs(needed);
        var i := ulongsCount;
        while i < needed
          invariant Valid() && old(ulongsCount) == ulongsCount <= i <= needed <= ulongsAllocated
          invariant infinite == old(infinite)
          invariant ulongs[..ulongsCount] == old(Stored())
          invariant forall k :: ulongsCount <= k < i ==> ulongs[k] == if infinite then Full() else Zero()
        {
          ulongs := ulongs[i := if infinite then Full() else Zero()];
          i := i + 1;
        }
        ulongsCount := needed;
      }
      DenoteExt(old(Stored()), old(infinite), Stored(), infinite);
    }

    /** Makes exactly `needed` words valid; the caller gives them their values. */
    method ResetByUlongs(needed: nat)
      requires Valid() && needed >= 1
      modifies this
      ensures Valid() && ulongsCount == needed
      ensures infinite == old(infinite) && old(ulongs) <= ulongs
    {
      EnlargeByUlongs(needed);
      ulongsCount := needed;
    }

    method CopyFrom(src: Bitmap)
      requires Valid() && src.Valid()
      modifies this
      ensures Valid() && Set() == old(src.Set())
    {
      ghost var w, inf := src.Stored(), src.infinite;
      var count := src.ulongsCount;
      ResetByUlongs(count);
      ulongs := src.ulongs[..count] + ulongs[count..];
      infinite := src.infinite;
      assert Stored() == w && infinite == inf;
    }

    /** Every valid word becomes all zeros or all ones, and the tail with them. */
    method Uniform(full: bool)
      requires Valid()
      modifies this
      ensures Valid()
      ensures forall i: nat :: i in Set() <==> full
    {
      var i := 0;
      while i < ulongsCount
        modifies `ulongs
        invariant Valid() && i <= ulongsCount
        invariant forall k :: 0 <= k < i ==> ulongs[k] == if full then Full() else Zero()
      {
        ulongs := ulongs[i := if full then Full() else Zero()];
        i := i + 1;
      }
      infinite := full;
      UniformDenotes(Stored(), infinite);
    }

    method Clear()
      requires Valid()
      modifies this
      ensures Valid() && Set() == iset{}
    {
      ResetByUlongs(1);
      Uniform(false);
    }

    method Fill()
      requires Valid()
      modifies this
      ensures Valid() && forall i: nat :: i in Set()
    {
      ResetByUlongs(1);
      Uniform(true);
    }

    method Add(cpu: nat)
      requires Valid()
      modifies this
      ensures Valid() && Set() == old(Set()) + iset{cpu}
    {
      if infinite && cpu >= ulongsCount * 64 {
        assert Has(Stored(), infinite, cpu);
        return;
      }
      ReallocByUlongs(cpu / 64 + 1);
      ghost var w := Stored();
      var index := cpu / 64;
      ulongs := ulongs[index := BitOr(ulongs[index], UlBit(cpu % 64))];
      OneBit(cpu);
      RangeAddedWords(w, Stored(), cpu, cpu);
      RangeAdded(w, infinite, Stored(), cpu, cpu, cpu);
    }

    method Remove(cpu: nat)
      requires Valid()
      modifies this
      ensures Valid() && Set() == old(Set()) - iset{cpu}
    {
      if !infinite && cpu >= ulongsCount * 64 {
        assert !Has(Stored(), infinite, cpu);
        return;
      }
      ReallocByUlongs(cpu / 64 + 1);
      ghost var w := Stored();
      var index := cpu / 64;
      ulongs := ulongs[index := BitAndNot(ulongs[index], UlBit(cpu % 64))];
      OneBit(cpu);
      RangeRemovedWords(w, Stored(), cpu, cpu);
      RangeRemoved(w, infinite, Stored(), cpu, cpu, cpu);
    }

    /** Sets [begin, end], or [begin, infinity) when end is -1. */
    method SetRange(begin: nat, end: int)
      requires Valid() && end >= -1
      modifies this
      ensures Valid() && Set() == old(Set()) + Range(begin, end)
    {
      if end != -1 && end < begin {
        assert forall i: nat :: !InRange(begin, end, i);
        return;
      }
      if infinite && begin >= ulongsCount * 64 {
        assert forall i: nat :: InRange(begin, end, i) ==> Has(Stored(), infinite, i);
        return;
      }
      if end == -1 {
        ReallocByUlongs(begin / 64 + 1);
        ghost var w, inf := Stored(), infinite;
        SetOnward(begin);
        infinite := true;
        RangeAdded(w, inf, Stored(), begin, end, end);
      } else {
        var endcpu := end;
        if infinite && endcpu >= ulongsCount * 64 {
          endcpu := ulongsCount * 64 - 1;
        }
        ReallocByUlongs(endcpu / 64 + 1);
        ghost var w := Stored();
        SetBetween(begin, endcpu);
        RangeAdded(w, infinite, Stored(), begin, end, endcpu);
      }
    }

    /** Clears [begin, end], or [begin, infinity) when end is -1. */
    method ClrRange(begin: nat, end: int)
      requires Valid() && end >= -1
      modifies this
      ensures Valid() && Set() == old(Set()) - Range(begin, end)
    {
      if end != -1 && end < begin {
        assert forall i: nat :: !InRange(begin, end, i);
        return;
      }
      if !infinite && begin >= ulongsCount * 64 {
        assert forall i: nat :: InRange(begin, end, i) ==> !Has(Stored(), infinite, i);
        return;
      }
      if end == -1 {
        ReallocByUlongs(begin / 64 + 1);
        ghost var w, inf := Stored(), infinite;
        ClrOnward(begin);
        infinite := false;
        RangeRemoved(w, inf, Stored(), begin, end, end);
      } else {
        var endcpu := end;
        if !infinite && endcpu >= ulongsCount * 64 {
          endcpu := ulongsCount * 64 - 1;
        }
        ReallocByUlongs(endcpu / 64 + 1);
        ghost var w := Stored();
        ClrBetween(begin, endcpu);
        RangeRemoved(w, infinite, Stored(), begin, end, endcpu);
      }
    }

    /** The words of a finite range: the first, the last, then those in the middle. */
    method SetBetween(begin: nat, end: nat)
      requires Valid() && begin <= end < 64 * ulongsCount
      modifies `ulongs
      ensures Valid()
      ensures forall k :: 0 <= k < ulongsCount ==> ulongs[k] == BitOr(old(ulongs)[k], RangeMask(begin, end, k))
    {
      var beginset, endset := begin / 64, end / 64;
      if beginset == endset {
        ulongs := ulongs[beginset := BitOr(ulongs[beginset], UlBitFromTo(begin % 64, end % 64))];
      } else {
        ulongs := ulongs[beginset := BitOr(ulongs[beginset], UlBitFrom(begin % 64))];
        ulongs := ulongs[endset := BitOr(ulongs[endset], UlBitTo(end % 64))];
      }
      if beginset + 1 <= endset {
        StoreAll(beginset + 1, endset, Full());
      }
      RangeAddedWords(old(Stored()), Stored(), begin, end);
    }

    /** The words of an infinite range, its tail excepted. */
    method SetOnward(begin: nat)
      requires Valid() && begin < 64 * ulongsCount
      modifies `ulongs
      ensures Valid()
      ensures forall k :: 0 <= k < ulongsCount ==> ulongs[k] == BitOr(old(ulongs)[k], RangeMask(begin, -1, k))
    {
      var beginset := begin / 64;
      ulongs := ulongs[beginset := BitOr(ulongs[beginset], UlBitFrom(begin % 64))];
      StoreAll(beginset + 1, ulongsCount, Full());
      RangeAddedWords(old(Stored()), Stored(), begin, -1);
    }

    /** The words of a finite range: the first, the last, then those in the middle. */
    method ClrBetween(begin: nat, end: nat)
      requires Valid() && begin <= end < 64 * ulongsCount
      modifies `ulongs
      ensures Valid()
      ensures forall k :: 0 <= k < ulongsCount ==> ulongs[k] == BitAndNot(old(ulongs)[k], RangeMask(begin, end, k))
    {
      var beginset, endset := begin / 64, end / 64;
      if beginset == endset {
        ulongs := ulongs[beginset := BitAndNot(ulongs[beginset], UlBitFromTo(begin % 64, end % 64))];
      } else {
        ulongs := ulongs[beginset := BitAndNot(ulongs[beginset], UlBitFrom(begin % 64))];
        ulongs := ulongs[endset := BitAndNot(ulongs[endset], UlBitTo(end % 64))];
      }
      if beginset + 1 <= endset {
        StoreAll(beginset + 1, endset, Zero());
      }
      RangeRemovedWords(old(Stored()), Stored(), begin, end);
    }

    /** The words of an infinite range, its tail excepted. */
    method ClrOnward(begin: nat)
      requires Valid() && begin < 64 * ulongsCount
      modifies `ulongs
      ensures Valid()
      ensures forall k :: 0 <= k < ulongsCount ==> ulongs[k] == BitAndNot(old(ulongs)[k], RangeMask(begin, -1, k))
    {
      var beginset := begin / 64;
      ulongs := ulongs[beginset := BitAndNot(ulongs[beginset], UlBitFrom(begin % 64))];
      StoreAll(beginset + 1, ulongsCount, Zero());
      RangeRemovedWords(old(Stored()), Stored(), begin, -1);
    }

    /** The loop over the words strictly inside a range. */
    method StoreAll(from: nat, to: nat, w: Word)
      requires from <= to <= |ulongs|
      modifies `ulongs
      ensures |ulongs| == old(|ulongs|)
      ensures forall k :: 0 <= k < |ulongs| ==> ulongs[k] == if from <= k < to then w else old(ulongs)[k]
    {
      var i := from;
      while i < to
        invariant from <= i <= to && |ulongs| == old(|ulongs|)
        invariant forall k :: 0 <= k < |ulongs| ==> ulongs[k] == if from <= k < i then w else old(ulongs)[k]
      {
        ulongs := ulongs[i := w];
        i := i + 1;
      }
    }

    /** The loop over the words: the first set bit stays, all others go. */
    method SinglifyWords() returns (found: bool, ghost m: nat)
      requires Valid()
      modifies `ulongs
      ensures Valid()
      ensures SinglifiedTo(old(Stored()), infinite, Stored(), ulongsCount, found, m)
    {
      ghost var w := Stored();
      found, m := false, 0;
      var i := 0;
      while i < ulongsCount
        invariant Valid() && i <= ulongsCount && |w| == ulongsCount
        invariant forall k :: i <= k < ulongsCount ==> ulongs[k] == w[k]
        invariant SinglifiedTo(w, infinite, Stored(), i, found, m)
      {
        if found {
          ulongs := ulongs[i := Zero()];
        } else if ulongs[i] != Zero() {
          var ffs := Ffsl(ulongs[i]);
          m := 64 * i + (ffs - 1);
          FirstSet(w, infinite, i, ffs);
          ulongs := ulongs[i := UlBit(ffs - 1)];
          found := true;
        }
        i := i + 1;
      }
    }

    /** Keeps the smallest member only. */
    method Singlify()
      requires Valid()
      modifies this
      ensures Valid()
      ensures old(Set()) == iset{} ==> Set() == iset{}
      ensures old(Set()) != iset{} ==> exists m: nat :: IsLeast(m, old(Set())) && Set() == iset{m}
    {
      ghost var w, inf := Stored(), infinite;
      var found;
      ghost var m;
      found, m := SinglifyWords();
      SinglifiedDenotes(w, inf, Stored(), found, m);
      if infinite {
        infinite := false;
        if !found {
          Add(ulongsCount * 64);
        }
      }
    }
  }

  /** Memory as malloc and realloc hand it out. */
  method Garbage(n: nat) returns (ws: seq<Word>)
    ensures |ws| == n
  {
    assert |seq(n, _ => Zero())| == n;
    ws :| |ws| == n;
  }

  /** The first loop of or, and, andnot, xor: the words both sets store, combined into `res`,
      which may be either of them. */
  method CombineHead(res: Bitmap, set1: Bitmap, set2: Bitmap, n: nat, op: (Word, Word) -> Word)
    requires n <= |res.ulongs| && n <= |set1.ulongs| && n <= |set2.ulongs|
    modifies res`ulongs
    ensures |res.ulongs| == old(|res.ulongs|)
    ensures forall k :: 0 <= k < n ==> res.ulongs[k] == op(old(set1.ulongs)[k], old(set2.ulongs)[k])
    ensures forall k :: n <= k < |res.ulongs| ==> res.ulongs[k] == old(res.ulongs)[k]
  {
    var i := 0;
    while i < n
      invariant i <= n && |res.ulongs| == |old(res.ulongs)|
      invariant forall k :: i <= k < |res.ulongs| ==> res.ulongs[k] == old(res.ulongs)[k]
      invariant forall k :: 0 <= k < i ==> res.ulongs[k] == op(old(set1.ulongs)[k], old(set2.ulongs)[k])
    {
      res.ulongs := res.ulongs[i := op(set1.ulongs[i], set2.ulongs[i])];
      i := i + 1;
    }
  }

  /** The tail loops: words [from, to) of the longer set `src`, which may be `res` itself. */
  method CombineTail(res: Bitmap, src: Bitmap, from: nat, to: nat, f: Word -> Word)
    requires from <= to <= |res.ulongs| && to <= |src.ulongs|
    modifies res`ulongs
    ensures |res.ulongs| == old(|res.ulongs|)
    ensures forall k :: from <= k < to ==> res.ulongs[k] == f(old(src.ulongs)[k])
    ensures forall k :: 0 <= k < from ==> res.ulongs[k] == old(res.ulongs)[k]
  {
    var i := from;
    while i < to
      invariant from <= i <= to && |res.ulongs| == |old(res.ulongs)|
      invariant forall k :: i <= k < |res.ulongs| ==> res.ulongs[k] == old(res.ulongs)[k]
      invariant forall k :: 0 <= k < from ==> res.ulongs[k] == old(res.ulongs)[k]
      invariant forall k :: from <= k < i ==> res.ulongs[k] == f(old(src.ulongs)[k])
    {
      res.ulongs := res.ulongs[i := f(src.ulongs[i])];
      i := i + 1;
    }
  }

  /** What comes behind the words both store: nothing if the other's tail decides it, else words of `src`. */
  method TailOrCut(res: Bitmap, src: Bitmap, cut: bool, from: nat, to: nat, f: Word -> Word)
    requires res.Valid() && res.ulongsCount == to && 1 <= from <= to <= |src.ulongs|
    modifies res`ulongs, res`ulongsCount
    ensures res.Valid() && res.ulongsCount == if cut then from else to
    ensures !cut ==> forall k :: from <= k < to ==> res.ulongs[k] == f(old(src.ulongs)[k])
    ensures forall k :: 0 <= k < from ==> res.ulongs[k] == old(res.ulongs)[k]
  {
    if cut {
      res.ulongsCount := from;
    } else {
      CombineTail(res, src, from, to, f);
    }
  }

  method Or(res: Bitmap, set1: Bitmap, set2: Bitmap)
    requires res.Valid() && set1.Valid() && set2.Valid()
    modifies res
    ensures res.Valid()
    ensures res.Set() == old(set1.Set()) + old(set2.Set())
  {
    ghost var w1, w2, inf1, inf2 := set1.Stored(), set2.Stored(), set1.infinite, set2.infinite;
    var count1 := set1.ulongsCount;
    var count2 := set2.ulongsCount;
    var maxCount := if count1 > count2 then count1 else count2;
    var minCount := count1 + count2 - maxCount;
    res.ResetByUlongs(maxCount);
    CombineHead(res, set1, set2, minCount, BitOr);
    if count1 != count2 {
      if minCount < count1 {
        TailOrCut(res, set1, set2.infinite, minCount, maxCount, w => w);
      } else {
        TailOrCut(res, set2, set1.infinite, minCount, maxCount, w => w);
      }
    }
    OrDenotes(res.Stored(), w1, inf1, w2, inf2);
    res.infinite := set1.infinite || set2.infinite;
  }

  method And(res: Bitmap, set1: Bitmap, set2: Bitmap)
    requires res.Valid() && set1.Valid() && set2.Valid()
    modifies res
    ensures res.Valid()
    ensures res.Set() == old(set1.Set()) * old(set2.Set())
  {
    ghost var w1, w2, inf1, inf2 := set1.Stored(), set2.Stored(), set1.infinite, set2.infinite;
    var count1 := set1.ulongsCount;
    var count2 := set2.ulongsCount;
    var maxCount := if count1 > count2 then count1 else count2;
    var minCount := count1 + count2 - maxCount;
    res.ResetByUlongs(maxCount);
    CombineHead(res, set1, set2, minCount, BitAnd);
    if count1 != count2 {
      if minCount < count1 {
        TailOrCut(res, set1, !set2.infinite, minCount, maxCount, w => w);
      } else {
        TailOrCut(res, set2, !set1.infinite, minCount, maxCount, w => w);
      }
    }
    AndDenotes(res.Stored(), w1, inf1, w2, inf2);
    res.infinite := set1.infinite && set2.infinite;
  }

  method AndNot(res: Bitmap, set1: Bitmap, set2: Bitmap)
    requires res.Valid() && set1.Valid() && set2.Valid()
    modifies res
    ensures res.Valid()
    ensures res.Set() == old(set1.Set()) - old(set2.Set())
  {
    ghost var w1, w2, inf1, inf2 := set1.Stored(), set2.Stored(), set1.infinite, set2.infinite;
    var count1 := set1.ulongsCount;
    var count2 := set2.ulongsCount;
    var maxCount := if count1 > count2 then count1 else count2;
    var minCount := count1 + count2 - maxCount;
    res.ResetByUlongs(maxCount);
    CombineHead(res, set1, set2, minCount, BitAndNot);
    if count1 != count2 {
      if minCount < count1 {
        TailOrCut(res, set1, set2.infinite, minCount, maxCount, w => w);
      } else {
        TailOrCut(res, set2, !set1.infinite, minCount, maxCount, BitNot);
      }
    }
    AndNotDenotes(res.Stored(), w1, inf1, w2, inf2);
    res.infinite := set1.infinite && !set2.infinite;
  }

  method Xor(res: Bitmap, set1: Bitmap, set2: Bitmap)
    requires res.Valid() && set1.Valid() && set2.Valid()
    modifies res
    ensures res.Valid()
    ensures res.Set() == old((set1.Set() - set2.Set()) + (set2.Set() - set1.Set()))
  {
    ghost var w1, w2, inf1, inf2 := set1.Stored(), set2.Stored(), set1.infinite, set2.infinite;
    var count1 := set1.ulongsCount;
    var count2 := set2.ulongsCount;
    var maxCount := if count1 > count2 then count1 else count2;
    var minCount := count1 + count2 - maxCount;
    res.ResetByUlongs(maxCount);
    CombineHead(res, set1, set2, minCount, BitXor);
    if count1 != count2 {
      if minCount < count1 {
        var w2' := if set2.infinite then Full() else Zero();
        CombineTail(res, set1, minCount, maxCount, w => BitXor(w, w2'));
      } else {
        var w1' := if set1.infinite then Full() else Zero();
        CombineTail(res, set2, minCount, maxCount, w => BitXor(w, w1'));
      }
    }
    XorDenotes(res.Stored(), w1, inf1, w2, inf2);
    res.infinite := !set1.infinite != !set2.infinite;
  }

  method Not(res: Bitmap, set1: Bitmap)
    requires res.Valid() && set1.Valid()
    modifies res
    ensures res.Valid()
    ensures forall i: nat :: i in res.Set() <==> i !in old(set1.Set())
  {
    ghost var w1, inf1 := set1.Stored(), set1.infinite;
    var count := set1.ulongsCount;
    res.ResetByUlongs(count);
    CombineTail(res, set1, 0, count, BitNot);
    NotDenotes(res.Stored(), w1, inf1);
    res.infinite := !set1.infinite;
  }
}
