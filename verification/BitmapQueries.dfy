/** The read-only operations on bitmaps: each decides a relation between the sets the bitmaps stand
    for, although it looks at arrays of two different lengths and two infinite tails. */
module BitmapQueries {
  import opened Words
  import opened BitSets
  import opened WordwiseOps
  import opened Bitmaps

  method IsSet(s: Bitmap, cpu: nat) returns (r: bool)
    requires s.Valid()
    ensures r <==> cpu in s.Set()
  {
    var w := if cpu / 64 < s.ulongsCount then s.ulongs[cpu / 64] else if s.infinite then Full() else Zero();
    r := BitAnd(w, UlBit(cpu % 64)) != Zero();
    assert BitAnd(w, UlBit(cpu % 64))[cpu % 64] == w[cpu % 64] == Has(s.Stored(), s.infinite, cpu);
    if !w[cpu % 64] {
      WordExt(BitAnd(w, UlBit(cpu % 64)), Zero());
    }
  }

  method IsZero(s: Bitmap) returns (r: bool)
    requires s.Valid()
    ensures r <==> s.Set() == iset{}
  {
    if s.infinite {
      assert Has(s.Stored(), s.infinite, 64 * s.ulongsCount);
      assert 64 * s.ulongsCount in s.Set();
      return false;
    }
    var i := 0;
    while i < s.ulongsCount
      invariant i <= s.ulongsCount
      invariant forall k :: 0 <= k < i ==> s.ulongs[k] == Zero()
    {
      if s.ulongs[i] != Zero() {
        ghost var member := NonZeroWord(s.Stored(), s.infinite, i);
        return false;
      }
      i := i + 1;
    }
    assert forall j: nat :: !Has(s.Stored(), false, j);
    return true;
  }

  lemma NonZeroWord(ws: seq<Word>, inf: bool, k: nat) returns (i: nat)
    requires Read(ws, inf, k) != Zero()
    ensures i in Denote(ws, inf)
  {
    var b := Ffsl(Read(ws, inf, k)) - 1;
    HasBit(ws, inf, k, b);
    i := 64 * k + b;
  }

  method IsEqual(set1: Bitmap, set2: Bitmap) returns (r: bool)
    requires set1.Valid() && set2.Valid()
    ensures r <==> set1.Set() == set2.Set()
  {
    ghost var a, ai, b, bi := set1.Stored(), set1.infinite, set2.Stored(), set2.infinite;
    var count1, count2 := set1.ulongsCount, set2.ulongsCount;
    var minCount := if count1 < count2 then count1 else count2;
    DenoteExt(a, ai, b, bi);
    var i := 0;
    while i < minCount
      invariant i <= minCount
      invariant forall k: nat :: k < i ==> Read(a, ai, k) == Read(b, bi, k)
    {
      if set1.ulongs[i] != set2.ulongs[i] {
        assert Read(a, ai, i) != Read(b, bi, i);
        return false;
      }
      i := i + 1;
    }
    if count1 != count2 {
      var w1 := if set1.infinite then Full() else Zero();
      var w2 := if set2.infinite then Full() else Zero();
      while i < count1
        invariant minCount <= i && (i <= count1 || i == minCount)
        invariant forall k: nat :: k < i ==> Read(a, ai, k) == Read(b, bi, k)
      {
        if set1.ulongs[i] != w2 {
          assert Read(a, ai, i) != Read(b, bi, i);
          return false;
        }
        i := i + 1;
      }
      var j := minCount;
      while j < count2
        invariant minCount <= j && (j <= count2 || j == minCount)
        invariant forall k: nat :: k < i || k < j ==> Read(a, ai, k) == Read(b, bi, k)
      {
        if set2.ulongs[j] != w1 {
          assert Read(a, ai, j) != Read(b, bi, j);
          return false;
        }
        j := j + 1;
      }
    }
    var n := count1 + count2;
    assert Full()[0] && !Zero()[0];
    if set1.infinite != set2.infinite {
      assert Read(a, ai, n) != Read(b, bi, n);
      return false;
    }
    return true;
  }

  /** Two sets meet exactly when two words at the same index do. */
  lemma MeetInWord(a: seq<Word>, ai: bool, b: seq<Word>, bi: bool)
    ensures Denote(a, ai) * Denote(b, bi) != iset{} <==>
            exists k: nat :: BitAnd(Read(a, ai, k), Read(b, bi, k)) != Zero()
  {
    if i :| i in Denote(a, ai) * Denote(b, bi) {
      assert BitAnd(Read(a, ai, i / 64), Read(b, bi, i / 64))[i % 64];
      assert BitAnd(Read(a, ai, i / 64), Read(b, bi, i / 64)) != Zero();
    }
    if k: nat :| BitAnd(Read(a, ai, k), Read(b, bi, k)) != Zero() {
      var w := BitAnd(Read(a, ai, k), Read(b, bi, k));
      var bit := Ffsl(w) - 1;
      HasBit(a, ai, k, bit);
      HasBit(b, bi, k, bit);
      assert 64 * k + bit in Denote(a, ai) * Denote(b, bi);
    }
  }

  /** The loop over the words of one bitmap that the other does not store. */
  method AnyOther(s: Bitmap, from: nat, w: Word) returns (r: bool)
    requires s.Valid() && from <= s.ulongsCount
    ensures r <==> exists k :: from <= k < s.ulongsCount && s.ulongs[k] != w
  {
    var i := from;
    while i < s.ulongsCount
      invariant from <= i <= s.ulongsCount && forall k :: from <= k < i ==> s.ulongs[k] == w
    {
      if s.ulongs[i] != w {
        return true;
      }
      i := i + 1;
    }
    return false;
  }

  /** The loop over the words that both store. */
  method MeetWithin(set1: Bitmap, set2: Bitmap, n: nat) returns (r: bool)
    requires set1.Valid() && set2.Valid() && n <= set1.ulongsCount && n <= set2.ulongsCount
    ensures r <==> exists k :: 0 <= k < n && BitAnd(set1.ulongs[k], set2.ulongs[k]) != Zero()
  {
    var i := 0;
    while i < n
      invariant i <= n && forall k :: 0 <= k < i ==> BitAnd(set1.ulongs[k], set2.ulongs[k]) == Zero()
    {
      if BitAnd(set1.ulongs[i], set2.ulongs[i]) != Zero() {
        return true;
      }
      i := i + 1;
    }
    return false;
  }

  ghost predicate MeetAt(a: seq<Word>, ai: bool, b: seq<Word>, bi: bool, k: nat) {
    BitAnd(Read(a, ai, k), Read(b, bi, k)) != Zero()
  }

  /** Two words meet where both are stored, where one is and the other's tail is full, or in two full tails. */
  lemma MeetSomewhere(a: seq<Word>, ai: bool, b: seq<Word>, bi: bool, k: nat)
    ensures k < |a| && k < |b| ==> (MeetAt(a, ai, b, bi, k) <==> BitAnd(a[k], b[k]) != Zero())
    ensures |b| <= k < |a| ==> (MeetAt(a, ai, b, bi, k) <==> bi && a[k] != Zero())
    ensures |a| <= k < |b| ==> (MeetAt(a, ai, b, bi, k) <==> ai && b[k] != Zero())
    ensures k >= |a| && k >= |b| ==> (MeetAt(a, ai, b, bi, k) <==> ai && bi)
  {
    TailWords(Read(a, ai, k));
    TailWords(Read(b, bi, k));
    assert Full()[0] && !Zero()[0];
  }

  method Intersects(set1: Bitmap, set2: Bitmap) returns (r: bool)
    requires set1.Valid() && set2.Valid()
    ensures r <==> set1.Set() * set2.Set() != iset{}
  {
    ghost var a, ai, b, bi := set1.Stored(), set1.infinite, set2.Stored(), set2.infinite;
    var minCount := if set1.ulongsCount < set2.ulongsCount then set1.ulongsCount else set2.ulongsCount;
    MeetInWord(a, ai, b, bi);
    forall k: nat
      ensures MeetAt(a, ai, b, bi, k) <==>
              if k < |a| && k < |b| then BitAnd(a[k], b[k]) != Zero()
              else (if k < |a| then a[k] != Zero() else ai) && (if k < |b| then b[k] != Zero() else bi)
    {
      MeetSomewhere(a, ai, b, bi, k);
    }
    r := MeetWithin(set1, set2, minCount);
    if !r && set1.ulongsCount != set2.ulongsCount {
      if set2.infinite {
        r := AnyOther(set1, minCount, Zero());
      }
      if !r && set1.infinite {
        r := AnyOther(set2, minCount, Zero());
      }
    }
    if set1.infinite && set2.infinite {
      r := true;
      assert MeetAt(a, ai, b, bi, |a| + |b|);
    }
    assert r <==> exists k: nat :: MeetAt(a, ai, b, bi, k);
  }

  /** One set is included in another exactly when each of its words is. */
  lemma IncludedWordwise(a: seq<Word>, ai: bool, b: seq<Word>, bi: bool)
    ensures Denote(a, ai) <= Denote(b, bi) <==>
            forall k: nat :: Read(b, bi, k) == BitOr(Read(b, bi, k), Read(a, ai, k))
  {
    if forall k: nat :: Read(b, bi, k) == BitOr(Read(b, bi, k), Read(a, ai, k)) {
      forall i: nat | Has(a, ai, i) ensures Has(b, bi, i) {
        assert Read(b, bi, i / 64) == BitOr(Read(b, bi, i / 64), Read(a, ai, i / 64));
      }
    }
    if Denote(a, ai) <= Denote(b, bi) {
      forall k: nat ensures Read(b, bi, k) == BitOr(Read(b, bi, k), Read(a, ai, k)) {
        forall bit: nat | bit < 64 ensures Read(a, ai, k)[bit] ==> Read(b, bi, k)[bit] {
          HasBit(a, ai, k, bit);
          HasBit(b, bi, k, bit);
          assert 64 * k + bit in Denote(a, ai) ==> 64 * k + bit in Denote(b, bi);
        }
        WordExt(Read(b, bi, k), BitOr(Read(b, bi, k), Read(a, ai, k)));
      }
    }
  }

  /** The loop over the words that both store. */
  method IncludedWithin(subSet: Bitmap, superSet: Bitmap, n: nat) returns (r: bool)
    requires subSet.Valid() && superSet.Valid() && n <= subSet.ulongsCount && n <= superSet.ulongsCount
    ensures r <==> forall k :: 0 <= k < n ==> superSet.ulongs[k] == BitOr(superSet.ulongs[k], subSet.ulongs[k])
  {
    var i := 0;
    while i < n
      invariant i <= n && forall k :: 0 <= k < i ==> superSet.ulongs[k] == BitOr(superSet.ulongs[k], subSet.ulongs[k])
    {
      if superSet.ulongs[i] != BitOr(superSet.ulongs[i], subSet.ulongs[i]) {
        return false;
      }
      i := i + 1;
    }
    return true;
  }

  ghost predicate IncludedAt(a: seq<Word>, ai: bool, b: seq<Word>, bi: bool, k: nat) {
    Read(b, bi, k) == BitOr(Read(b, bi, k), Read(a, ai, k))
  }

  /** Where only one of the words is stored, the other's tail decides what it must be. */
  lemma IncludedSomewhere(a: seq<Word>, ai: bool, b: seq<Word>, bi: bool, k: nat)
    ensures k < |a| && k < |b| ==> (IncludedAt(a, ai, b, bi, k) <==> b[k] == BitOr(b[k], a[k]))
    ensures |b| <= k < |a| ==> (IncludedAt(a, ai, b, bi, k) <==> bi || a[k] == Zero())
    ensures |a| <= k < |b| ==> (IncludedAt(a, ai, b, bi, k) <==> !ai || b[k] == Full())
    ensures k >= |a| && k >= |b| ==> (IncludedAt(a, ai, b, bi, k) <==> !ai || bi)
  {
    TailWords(Read(b, bi, k));
    TailWords(Read(a, ai, k));
    assert Full()[0] && !Zero()[0];
  }

  method IsIncluded(subSet: Bitmap, superSet: Bitmap) returns (r: bool)
    requires subSet.Valid() && superSet.Valid()
    ensures r <==> subSet.Set() <= superSet.Set()
  {
    ghost var a, ai, b, bi := subSet.Stored(), subSet.infinite, superSet.Stored(), superSet.infinite;
    var minCount := if superSet.ulongsCount < subSet.ulongsCount then superSet.ulongsCount else subSet.ulongsCount;
    IncludedWordwise(a, ai, b, bi);
    forall k: nat ensures IncludedAt(a, ai, b, bi, k) <==>
                          if k < |a| && k < |b| then b[k] == BitOr(b[k], a[k])
                          else if k < |a| then bi || a[k] == Zero()
                          else if k < |b| then !ai || b[k] == Full()
                          else !ai || bi
    {
      IncludedSomewhere(a, ai, b, bi, k);
    }
    r := IncludedWithin(subSet, superSet, minCount);
    if r && superSet.ulongsCount != subSet.ulongsCount {
      var other := false;
      if !superSet.infinite {
        other := AnyOther(subSet, minCount, Zero());
      }
      if !other && subSet.infinite {
        other := AnyOther(superSet, minCount, Full());
      }
      r := !other;
    }
    if subSet.infinite && !superSet.infinite {
      r := false;
      assert !IncludedAt(a, ai, b, bi, |a| + |b|);
    }
    assert r <==> forall k: nat :: IncludedAt(a, ai, b, bi, k);
  }

  /** What next and next_unset look for: the least member (or non-member) above `prev`. */
  ghost predicate IsNext(ws: seq<Word>, inf: bool, wanted: bool, prev: int, r: int) {
    if r == -1 then forall i: nat :: i > prev ==> Has(ws, inf, i) != wanted
    else prev < r && 0 <= r && Has(ws, inf, r) == wanted && forall i: nat :: prev < i < r ==> Has(ws, inf, i) != wanted
  }

  /** The search inside word i, `prev` and what is below it masked out. */
  lemma NextInWord(ws: seq<Word>, inf: bool, wanted: bool, prev: int, i: nat, w: Word)
    requires i < |ws| && prev >= -1
    requires forall b: nat :: b < 64 ==> w[b] == (64 * i + b > prev && ws[i][b] == wanted)
    requires forall j: nat :: prev < j < 64 * i ==> Has(ws, inf, j) != wanted
    ensures w == Zero() ==> forall j: nat :: prev < j < 64 * (i + 1) ==> Has(ws, inf, j) != wanted
    ensures w != Zero() ==> IsNext(ws, inf, wanted, prev, 64 * i + Ffsl(w) - 1)
  {
    if w == Zero() {
      forall j: nat | prev < j < 64 * (i + 1) ensures Has(ws, inf, j) != wanted {
        if j >= 64 * i {
          assert !w[j - 64 * i] && j / 64 == i;
        }
      }
    } else {
      var r := 64 * i + Ffsl(w) - 1;
      HasBit(ws, inf, i, Ffsl(w) - 1);
      forall j: nat | prev < j < r ensures Has(ws, inf, j) != wanted {
        if j >= 64 * i {
          assert !w[j - 64 * i] && j / 64 == i;
        }
      }
    }
  }

  lemma MaskedWord(stored: Word, wanted: bool, prev: int, i: nat, w: Word)
    requires prev >= -1 && (prev + 1) / 64 <= i
    requires var v := if wanted then stored else BitNot(stored);
             w == if prev >= 0 && prev / 64 == i then BitAnd(v, BitNot(UlBitTo(prev % 64))) else v
    ensures forall b: nat :: b < 64 ==> w[b] == (64 * i + b > prev && stored[b] == wanted)
  {
    if prev >= 0 && prev / 64 == i {
      forall b: nat | b < 64 ensures UlBitTo(prev % 64)[b] <==> b <= prev % 64 {
        MaskBits(0, prev % 64, b);
      }
    }
  }

  /** hwloc_bitmap_next (wanted) and hwloc_bitmap_next_unset (not wanted), which differ only in the
      complement of each word and of the infinite flag. */
  method NextBit(s: Bitmap, wanted: bool, prev: int) returns (r: int)
    requires s.Valid() && prev >= -1
    ensures IsNext(s.Stored(), s.infinite, wanted, prev, r)
  {
    ghost var ws, inf := s.Stored(), s.infinite;
    var i := (prev + 1) / 64;
    if i >= s.ulongsCount {
      return if s.infinite == wanted then prev + 1 else -1;
    }
    while i < s.ulongsCount
      invariant (prev + 1) / 64 <= i <= s.ulongsCount
      invariant forall j: nat :: prev < j < 64 * i ==> Has(ws, inf, j) != wanted
    {
      var w := if wanted then s.ulongs[i] else BitNot(s.ulongs[i]);
      if prev >= 0 && prev / 64 == i {
        w := BitAnd(w, BitNot(UlBitTo(prev % 64)));
      }
      MaskedWord(ws[i], wanted, prev, i, w);
      NextInWord(ws, inf, wanted, prev, i, w);
      if w != Zero() {
        return Ffsl(w) - 1 + 64 * i;
      }
      i := i + 1;
    }
    if s.infinite == wanted {
      return s.ulongsCount * 64;
    }
    return -1;
  }
}
