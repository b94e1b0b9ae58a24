/** hwloc_bitmap_compare (src/hwloc/hwloc/bitmap.c): bitmaps in lexicographic order from their highest
    indexes, which is a total order on finite and cofinite sets. */
module BitmapCompare {
  import opened Words
  import opened WordNumbers
  import opened BitSets
  import opened WordwiseOps
  import opened Bitmaps

  /** s has index m and t does not, and above m they agree. */
  ghost predicate HigherAt(s: iset<nat>, t: iset<nat>, m: nat) {
    m in s && m !in t && forall j: nat :: j > m ==> (j in s <==> j in t)
  }

  /** From some index on, s has everything and t nothing. */
  ghost predicate HigherFrom(s: iset<nat>, t: iset<nat>, n: nat) {
    forall j: nat :: j >= n ==> j in s && j !in t
  }

  /** s comes after t, judged by the highest indexes. */
  ghost predicate Higher(s: iset<nat>, t: iset<nat>) {
    (exists m: nat :: HigherAt(s, t, m)) || (exists n: nat :: HigherFrom(s, t, n))
  }

  // ----- A strict order.

  lemma NotBothHigher(s: iset<nat>, t: iset<nat>)
    requires Higher(s, t)
    ensures !Higher(t, s) && s != t
  {
    if m: nat :| HigherAt(s, t, m) {
      forall n: nat ensures !HigherAt(t, s, n) && !HigherFrom(t, s, n) {
        assert m in s && m !in t;
        assert HigherFrom(t, s, n) ==> n + m + 1 in t && n + m + 1 !in s;
      }
    } else {
      var n: nat :| HigherFrom(s, t, n);
      forall m: nat ensures !HigherAt(t, s, m) && !HigherFrom(t, s, m) {
        assert n + m + 1 in s && n + m + 1 !in t;
      }
      assert n in s && n !in t;
    }
  }

  lemma FromBoth(s: iset<nat>, t: iset<nat>, u: iset<nat>, m: nat, n: nat)
    ensures !(HigherFrom(s, t, m) && HigherFrom(t, u, n))
  {
    assert HigherFrom(s, t, m) ==> m + n !in t;
    assert HigherFrom(t, u, n) ==> m + n in t;
  }

  lemma HigherTransitive(s: iset<nat>, t: iset<nat>, u: iset<nat>)
    requires Higher(s, t) && Higher(t, u)
    ensures Higher(s, u)
  {
    if m: nat :| HigherAt(s, t, m) {
      if n: nat :| HigherAt(t, u, n) {
        assert HigherAt(s, u, if m > n then m else n);
      } else {
        var n: nat :| HigherFrom(t, u, n);
        assert HigherFrom(s, u, m + n + 1);
      }
    } else {
      var m: nat :| HigherFrom(s, t, m);
      if n: nat :| HigherAt(t, u, n) {
        assert HigherFrom(s, u, m + n + 1);
      } else {
        var n: nat :| HigherFrom(t, u, n);
        FromBoth(s, t, u, m, n);
      }
    }
  }

  // ----- Words.

  /** The highest bit where two words differ decides which is the larger number. */
  lemma {:induction false} HighestDifference(x: seq<bool>, y: seq<bool>) returns (b: nat)
    requires |x| == |y| && x != y
    ensures b < |x| && x[b] != y[b] && forall j :: b < j < |x| ==> x[j] == y[j]
    ensures NatOf(x) < NatOf(y) <==> y[b]
    ensures NatOf(x) != NatOf(y)
  {
    if x[1..] == y[1..] {
      assert forall j :: 0 < j < |x| ==> x[j] == x[1..][j - 1] && y[j] == y[1..][j - 1];
      b := 0;
      assert x == [x[0]] + x[1..] && y == [y[0]] + y[1..];
    } else {
      b := HighestDifference(x[1..], y[1..]);
      assert forall j :: 0 < j < |x| ==> x[j] == x[1..][j - 1] && y[j] == y[1..][j - 1];
      b := b + 1;
    }
  }

  lemma SameWordsAbove(a: seq<Word>, ai: bool, b: seq<Word>, bi: bool, i: nat)
    requires forall k: nat :: k > i ==> Read(a, ai, k) == Read(b, bi, k)
    ensures forall j: nat :: j >= 64 * (i + 1) ==> Has(a, ai, j) == Has(b, bi, j)
  {
    forall j: nat | j >= 64 * (i + 1) ensures Has(a, ai, j) == Has(b, bi, j) {
      assert j / 64 > i;
    }
  }

  /** The highest word where two bitmaps differ decides which set is the higher. */
  lemma WordDecides(a: seq<Word>, ai: bool, b: seq<Word>, bi: bool, i: nat)
    requires Read(a, ai, i) != Read(b, bi, i) && forall k: nat :: k > i ==> Read(a, ai, k) == Read(b, bi, k)
    ensures ToNat(Read(a, ai, i)) < ToNat(Read(b, bi, i)) ==> Higher(Denote(b, bi), Denote(a, ai))
    ensures ToNat(Read(a, ai, i)) >= ToNat(Read(b, bi, i)) ==> Higher(Denote(a, ai), Denote(b, bi))
  {
    var x, y := Read(a, ai, i), Read(b, bi, i);
    var bit := HighestDifference(x, y);
    var m := 64 * i + bit;
    HasBit(a, ai, i, bit);
    HasBit(b, bi, i, bit);
    SameWordsAbove(a, ai, b, bi, i);
    forall j: nat | j > m ensures Has(a, ai, j) == Has(b, bi, j) {
      if j < 64 * (i + 1) {
        assert j / 64 == i && j % 64 == j - 64 * i > bit;
      }
    }
    if y[bit] {
      assert HigherAt(Denote(b, bi), Denote(a, ai), m);
    } else {
      assert HigherAt(Denote(a, ai), Denote(b, bi), m);
    }
  }

  // ----- The comparison.

  /** Words [lo, hi) of both bitmaps from the top, the tail standing for words that are not stored. */
  method CompareWords(set1: Bitmap, set2: Bitmap, lo: nat, hi: nat) returns (r: int)
    requires set1.Valid() && set2.Valid() && lo <= hi
    requires forall k: nat :: k >= hi ==> set1.At(k) == set2.At(k)
    ensures r == 0 ==> forall k: nat :: k >= lo ==> set1.At(k) == set2.At(k)
    ensures r == 0 || (r == 1 && Higher(set1.Set(), set2.Set())) || (r == -1 && Higher(set2.Set(), set1.Set()))
  {
    var i := hi;
    while i > lo
      invariant lo <= i <= hi && forall k: nat :: k >= i ==> set1.At(k) == set2.At(k)
    {
      i := i - 1;
      var val1 := if i < set1.ulongsCount then set1.ulongs[i] else if set1.infinite then Full() else Zero();
      var val2 := if i < set2.ulongsCount then set2.ulongs[i] else if set2.infinite then Full() else Zero();
      assert val1 == set1.At(i) && val2 == set2.At(i);
      if val1 != val2 {
        forall k: nat | k > i
          ensures set1.At(k) == Read(set1.Stored(), set1.infinite, k) == Read(set2.Stored(), set2.infinite, k)
        {
        }
        WordDecides(set1.Stored(), set1.infinite, set2.Stored(), set2.infinite, i);
        return if ToNat(val1) < ToNat(val2) then -1 else 1;
      }
    }
    return 0;
  }

  method Compare(set1: Bitmap, set2: Bitmap) returns (r: int)
    requires set1.Valid() && set2.Valid()
    ensures r == 0 <==> set1.Set() == set2.Set()
    ensures r == 1 <==> Higher(set1.Set(), set2.Set())
    ensures r == -1 <==> Higher(set2.Set(), set1.Set())
  {
    var count1, count2 := set1.ulongsCount, set2.ulongsCount;
    var maxCount := if count1 > count2 then count1 else count2;
    var minCount := count1 + count2 - maxCount;
    if set1.infinite != set2.infinite {
      r := if set1.infinite then 1 else -1;
      TailDecides(set1.Stored(), set1.infinite, set2.Stored(), set2.infinite);
    } else {
      r := 0;
      if count1 != count2 {
        r := CompareWords(set1, set2, minCount, maxCount);
      }
      if r == 0 {
        r := CompareWords(set1, set2, 0, minCount);
      }
      DenoteExt(set1.Stored(), set1.infinite, set2.Stored(), set2.infinite);
      if r == 0 {
        assert forall k: nat :: Read(set1.Stored(), set1.infinite, k) == set1.At(k) == set2.At(k);
      }
    }
    Trichotomy(set1.Set(), set2.Set(), r);
  }

  lemma TailDecides(a: seq<Word>, ai: bool, b: seq<Word>, bi: bool)
    requires ai != bi
    ensures if ai then Higher(Denote(a, ai), Denote(b, bi)) else Higher(Denote(b, bi), Denote(a, ai))
  {
    var n := 64 * (|a| + |b|);
    assert forall j: nat :: j >= n ==> Has(a, ai, j) == ai && Has(b, bi, j) == bi;
    assert if ai then HigherFrom(Denote(a, ai), Denote(b, bi), n) else HigherFrom(Denote(b, bi), Denote(a, ai), n);
  }

  lemma Trichotomy(s: iset<nat>, t: iset<nat>, r: int)
    requires (r == 0 && s == t) || (r == 1 && Higher(s, t)) || (r == -1 && Higher(t, s))
    ensures (r == 0 <==> s == t) && (r == 1 <==> Higher(s, t)) && (r == -1 <==> Higher(t, s))
  {
    if Higher(s, t) {
      NotBothHigher(s, t);
    }
    if Higher(t, s) {
      NotBothHigher(t, s);
    }
  }

  /** No set comes before the empty one. */
  lemma EmptyIsLowest(s: iset<nat>, e: iset<nat>)
    requires e == iset{}
    ensures !Higher(e, s)
  {
    forall n: nat ensures !HigherFrom(e, s, n) {
      assert n !in e;
    }
  }
}
