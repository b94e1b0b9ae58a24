/** hwloc_bitmap_compare_inclusion: one pass over the words of two bitmaps, driven by a five-state
    automaton, decides how the two sets are related. */
module BitmapInclusion {
  import opened Words
  import opened BitSets
  import opened WordwiseOps
  import opened Bitmaps

  datatype Inclusion = Equal | Included | Contains | Intersects | Different

  /** How two sets are related. Nothing is both `Equal` and one of the others: the empty set is equal
      to itself and included in any other set. */
  ghost function Relation(a: iset<nat>, b: iset<nat>): Inclusion {
    if a == b then Equal
    else if a <= b then Included
    else if b <= a then Contains
    else if a * b != iset{} then Intersects
    else Different
  }

  /** What a pass over two sequences of words has seen: something in the first set only, something in
      the second only, something in both. */
  datatype Seen = Seen(only1: bool, only2: bool, both: bool) {
    function With(x: Word, y: Word): Seen {
      Seen(only1 || BitAndNot(x, y) != Zero(), only2 || BitAndNot(y, x) != Zero(), both || BitAnd(x, y) != Zero())
    }

    function Verdict(): Inclusion {
      if !only1 && !only2 then Equal
      else if !only1 then Included
      else if !only2 then Contains
      else if both then Intersects
      else Different
    }
  }

  ghost function SeenUpTo(a: seq<Word>, ai: bool, b: seq<Word>, bi: bool, n: nat): Seen {
    if n == 0 then Seen(false, false, false)
    else SeenUpTo(a, ai, b, bi, n - 1).With(Read(a, ai, n - 1), Read(b, bi, n - 1))
  }

  /** Some word below n has a bit of the first operand but not of the second. */
  ghost predicate OnlyFirst(a: seq<Word>, ai: bool, b: seq<Word>, bi: bool, n: nat) {
    exists k: nat :: k < n && BitAndNot(Read(a, ai, k), Read(b, bi, k)) != Zero()
  }

  ghost predicate InBoth(a: seq<Word>, ai: bool, b: seq<Word>, bi: bool, n: nat) {
    exists k: nat :: k < n && BitAnd(Read(a, ai, k), Read(b, bi, k)) != Zero()
  }

  /** The automaton's tests on two words, as the same three bits. */
  lemma WordTests(x: Word, y: Word)
    ensures x == Zero() <==> BitAndNot(x, y) == Zero() && BitAnd(x, y) == Zero()
    ensures y == Zero() <==> BitAndNot(y, x) == Zero() && BitAnd(x, y) == Zero()
    ensures x == y <==> BitAndNot(x, y) == Zero() && BitAndNot(y, x) == Zero()
    ensures BitAnd(x, y) == x <==> BitAndNot(x, y) == Zero()
    ensures BitAnd(x, y) == y <==> BitAndNot(y, x) == Zero()
  {
    ZeroBits(x);
    ZeroBits(y);
    ZeroBits(BitAnd(x, y));
    ZeroBits(BitAndNot(x, y));
    ZeroBits(BitAndNot(y, x));
    assert forall i :: 0 <= i < 64 ==> BitAnd(x, y)[i] == (x[i] && y[i]);
    assert forall i :: 0 <= i < 64 ==> BitAndNot(x, y)[i] == (x[i] && !y[i]);
    assert forall i :: 0 <= i < 64 ==> BitAndNot(y, x)[i] == (y[i] && !x[i]);
  }

  lemma ZeroBits(w: Word)
    ensures w == Zero() <==> forall i :: 0 <= i < 64 ==> !w[i]
  {
  }

  lemma {:induction false} SeenBits(a: seq<Word>, ai: bool, b: seq<Word>, bi: bool, n: nat)
    ensures SeenUpTo(a, ai, b, bi, n) ==
            Seen(OnlyFirst(a, ai, b, bi, n), OnlyFirst(b, bi, a, ai, n), InBoth(a, ai, b, bi, n))
  {
    if n > 0 {
      SeenBits(a, ai, b, bi, n - 1);
    }
  }

  /** Intersecting is final. */
  lemma {:induction false} StillIntersects(a: seq<Word>, ai: bool, b: seq<Word>, bi: bool, i: nat, n: nat)
    requires i <= n && SeenUpTo(a, ai, b, bi, i).Verdict() == Intersects
    ensures SeenUpTo(a, ai, b, bi, n).Verdict() == Intersects
  {
    if i < n {
      StillIntersects(a, ai, b, bi, i, n - 1);
    }
  }

  /** Enough words tell the sets apart: all the stored ones and one word of tail. */
  lemma VerdictIsRelation(a: seq<Word>, ai: bool, b: seq<Word>, bi: bool, n: nat)
    requires n > |a| && n > |b|
    ensures Relation(Denote(a, ai), Denote(b, bi)) == SeenUpTo(a, ai, b, bi, n).Verdict()
  {
    SeenBits(a, ai, b, bi, n);
    OnlyFirstDenotes(a, ai, b, bi, n);
    OnlyFirstDenotes(b, bi, a, ai, n);
    InBothDenotes(a, ai, b, bi, n);
  }

  lemma OnlyFirstDenotes(a: seq<Word>, ai: bool, b: seq<Word>, bi: bool, n: nat)
    requires n > |a| && n > |b|
    ensures OnlyFirst(a, ai, b, bi, n) <==> !(Denote(a, ai) <= Denote(b, bi))
  {
    if OnlyFirst(a, ai, b, bi, n) {
      var k: nat :| k < n && BitAndNot(Read(a, ai, k), Read(b, bi, k)) != Zero();
      var bit := Ffsl(BitAndNot(Read(a, ai, k), Read(b, bi, k))) - 1;
      HasBit(a, ai, k, bit);
      HasBit(b, bi, k, bit);
      assert 64 * k + bit in Denote(a, ai) && 64 * k + bit !in Denote(b, bi);
    }
    if i :| i in Denote(a, ai) && i !in Denote(b, bi) {
      var k := if i / 64 < n then i / 64 else n - 1;
      assert BitAndNot(Read(a, ai, k), Read(b, bi, k))[i % 64];
    }
  }

  lemma InBothDenotes(a: seq<Word>, ai: bool, b: seq<Word>, bi: bool, n: nat)
    requires n > |a| && n > |b|
    ensures InBoth(a, ai, b, bi, n) <==> Denote(a, ai) * Denote(b, bi) != iset{}
  {
    if InBoth(a, ai, b, bi, n) {
      var k: nat :| k < n && BitAnd(Read(a, ai, k), Read(b, bi, k)) != Zero();
      var bit := Ffsl(BitAnd(Read(a, ai, k), Read(b, bi, k))) - 1;
      HasBit(a, ai, k, bit);
      HasBit(b, bi, k, bit);
      assert 64 * k + bit in Denote(a, ai) * Denote(b, bi);
    }
    if i :| i in Denote(a, ai) * Denote(b, bi) {
      var k := if i / 64 < n then i / 64 else n - 1;
      assert BitAnd(Read(a, ai, k), Read(b, bi, k))[i % 64];
    }
  }

  /** The automaton's state: the verdict so far, and which of the sets is empty so far. */
  predicate Tracks(result: Inclusion, empty1: bool, empty2: bool, seen: Seen) {
    && result == seen.Verdict() && result != Intersects
    && empty1 == !(seen.only1 || seen.both) && empty2 == !(seen.only2 || seen.both)
  }

  /** The automaton's move on one pair of words; `stop` means the answer is final. */
  method OneWord(result: Inclusion, empty1: bool, empty2: bool, val1: Word, val2: Word, ghost seen: Seen)
    returns (next: Inclusion, stop: bool)
    requires Tracks(result, empty1, empty2, seen)
    ensures next == seen.With(val1, val2).Verdict()
    ensures stop <==> next == Intersects
    ensures !stop ==> Tracks(next, empty1 && val1 == Zero(), empty2 && val2 == Zero(), seen.With(val1, val2))
  {
    WordTests(val1, val2);
    next, stop := result, false;
    if val1 == Zero() {
      if val2 == Zero() {
        return;
      }
      if result == Contains {
        if !empty2 {
          return Intersects, true;
        }
        next := Different;
      } else if result == Equal {
        next := Included;
      }
    } else if val2 == Zero() {
      if result == Included {
        if !empty1 {
          return Intersects, true;
        }
        next := Different;
      } else if result == Equal {
        next := Contains;
      }
    } else if val1 == val2 {
      if result == Different {
        return Intersects, true;
      }
    } else if BitAnd(val1, val2) == val1 {
      if result == Contains || result == Different {
        return Intersects, true;
      }
      next := Included;
    } else if BitAnd(val1, val2) == val2 {
      if result == Included || result == Different {
        return Intersects, true;
      }
      next := Contains;
    } else if BitAnd(val1, val2) != Zero() {
      return Intersects, true;
    } else {
      if result == Equal && !empty1 {
        return Intersects, true;
      }
      if result == Included && !empty1 {
        return Intersects, true;
      }
      if result == Contains && !empty2 {
        return Intersects, true;
      }
      next := Different;
    }
  }

  /** What is left after the words: the two infinite tails count like one more pair of words. */
  method Tails(result: Inclusion, empty1: bool, empty2: bool, infinite1: bool, infinite2: bool, ghost seen: Seen)
    returns (next: Inclusion)
    requires Tracks(result, empty1, empty2, seen)
    ensures next == seen.With(if infinite1 then Full() else Zero(), if infinite2 then Full() else Zero()).Verdict()
  {
    WordTests(if infinite1 then Full() else Zero(), if infinite2 then Full() else Zero());
    assert Full() != Zero() by {
      assert Full()[0] && !Zero()[0];
    }
    next := result;
    if !infinite1 {
      if infinite2 {
        if result == Contains {
          if !empty2 {
            return Intersects;
          }
          next := Different;
        } else if result == Equal {
          next := Included;
        }
      }
    } else if !infinite2 {
      if result == Included {
        if !empty1 {
          return Intersects;
        }
        next := Different;
      } else if result == Equal {
        next := Contains;
      }
    } else {
      if result == Different {
        return Intersects;
      }
    }
  }

  method CompareInclusion(set1: Bitmap, set2: Bitmap) returns (result: Inclusion)
    requires set1.Valid() && set2.Valid()
    ensures result == Relation(set1.Set(), set2.Set())
  {
    var maxCount := if set1.ulongsCount > set2.ulongsCount then set1.ulongsCount else set2.ulongsCount;
    result := RunAutomaton(set1, set2, maxCount);
    VerdictIsRelation(set1.Stored(), set1.infinite, set2.Stored(), set2.infinite, maxCount + 1);
  }

  /** The pass itself: all the words that are stored in either bitmap, then the two tails. */
  method RunAutomaton(set1: Bitmap, set2: Bitmap, maxCount: nat) returns (result: Inclusion)
    requires set1.Valid() && set2.Valid()
    requires maxCount == if set1.ulongsCount > set2.ulongsCount then set1.ulongsCount else set2.ulongsCount
    ensures result == SeenUpTo(set1.Stored(), set1.infinite, set2.Stored(), set2.infinite, maxCount + 1).Verdict()
  {
    ghost var a, ai, b, bi := set1.Stored(), set1.infinite, set2.Stored(), set2.infinite;
    var stop, empty1, empty2;
    result, stop, empty1, empty2 := RunOverWords(set1, set2, maxCount);
    if stop {
      StillIntersects(a, ai, b, bi, maxCount, maxCount + 1);
      return;
    }
    OneMoreSeen(a, ai, b, bi, maxCount, if ai then Full() else Zero(), if bi then Full() else Zero());
    result := Tails(result, empty1, empty2, set1.infinite, set2.infinite, SeenUpTo(a, ai, b, bi, maxCount));
  }

  method RunOverWords(set1: Bitmap, set2: Bitmap, n: nat)
    returns (result: Inclusion, stop: bool, empty1: bool, empty2: bool)
    requires set1.Valid() && set2.Valid()
    ensures var seen := SeenUpTo(set1.Stored(), set1.infinite, set2.Stored(), set2.infinite, n);
            if stop then result == Intersects == seen.Verdict() else Tracks(result, empty1, empty2, seen)
  {
    ghost var a, ai, b, bi := set1.Stored(), set1.infinite, set2.Stored(), set2.infinite;
    result, stop, empty1, empty2 := Equal, false, true, true;
    var i := 0;
    while i < n
      invariant i <= n && Tracks(result, empty1, empty2, SeenUpTo(a, ai, b, bi, i))
    {
      var val1 := WordAt(set1, i);
      var val2 := WordAt(set2, i);
      result, stop, empty1, empty2 := OneTurn(result, empty1, empty2, val1, val2, a, ai, b, bi, i);
      if stop {
        StillIntersects(a, ai, b, bi, i + 1, n);
        return;
      }
      i := i + 1;
    }
    stop := false;
  }

  method WordAt(s: Bitmap, i: nat) returns (w: Word)
    requires s.Valid()
    ensures w == Read(s.Stored(), s.infinite, i)
  {
    return if i < s.ulongsCount then s.ulongs[i] else if s.infinite then Full() else Zero();
  }

  method OneTurn(result: Inclusion, empty1: bool, empty2: bool, val1: Word, val2: Word,
                 ghost a: seq<Word>, ghost ai: bool, ghost b: seq<Word>, ghost bi: bool, ghost i: nat)
    returns (next: Inclusion, stop: bool, empty1': bool, empty2': bool)
    requires val1 == Read(a, ai, i) && val2 == Read(b, bi, i)
    requires Tracks(result, empty1, empty2, SeenUpTo(a, ai, b, bi, i))
    ensures stop ==> next == Intersects == SeenUpTo(a, ai, b, bi, i + 1).Verdict()
    ensures !stop ==> Tracks(next, empty1', empty2', SeenUpTo(a, ai, b, bi, i + 1))
  {
    OneMoreSeen(a, ai, b, bi, i, val1, val2);
    next, stop := OneWord(result, empty1, empty2, val1, val2, SeenUpTo(a, ai, b, bi, i));
    empty1', empty2' := empty1 && val1 == Zero(), empty2 && val2 == Zero();
  }

  lemma OneMoreSeen(a: seq<Word>, ai: bool, b: seq<Word>, bi: bool, i: nat, val1: Word, val2: Word)
    requires val1 == Read(a, ai, i) && val2 == Read(b, bi, i)
    ensures SeenUpTo(a, ai, b, bi, i).With(val1, val2) == SeenUpTo(a, ai, b, bi, i + 1)
  {
  }
}
