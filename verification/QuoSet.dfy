/** The k-set computation behind the election of workers (src/quo-set.c): the values that occur in at
    least two of k strictly increasing sets. */
module QuoSet {
  const SUCCESS: int := 0
  const ERR_INVLD_ARG: int := 5

  predicate StrictlyIncreasing(s: seq<int>) {
    forall i, j :: 0 <= i < j < |s| ==> s[i] < s[j]
  }

  /** What the routine accepts as a set. */
  predicate IsSet(s: seq<int>) {
    StrictlyIncreasing(s) && forall i :: 0 <= i < |s| ==> 0 <= s[i]
  }

  ghost predicate InTwo(sets: seq<seq<int>>, v: int) {
    exists a, b :: 0 <= a < |sets| && 0 <= b < |sets| && a != b && v in sets[a] && v in sets[b]
  }

  // ----- One ordered scan.

  /** No element of a below x is above every element of b below x. */
  ghost predicate Reachable(a: seq<int>, b: seq<int>, x: int) {
    forall i :: 0 <= i < |a| && a[i] < x ==> exists j :: 0 <= j < |b| && a[i] <= b[j] < x
  }

  /** What one scan can miss the scan in the other order cannot. */
  lemma TwoScansReach(a: seq<int>, b: seq<int>, x: int)
    ensures Reachable(a, b, x) || Reachable(b, a, x)
  {
    if !Reachable(a, b, x) {
      var i :| 0 <= i < |a| && a[i] < x && forall j :: 0 <= j < |b| ==> !(a[i] <= b[j] < x);
      forall j | 0 <= j < |b| && b[j] < x ensures exists i :: 0 <= i < |a| && b[j] <= a[i] < x {
        assert b[j] <= a[i] < x;
      }
    }
  }

  // ----- The table of marks.

  /** -1 means not taken; otherwise the entry holds its own index. */
  ghost predicate MarksOwnIndex(t: seq<int>) {
    forall v :: 0 <= v < |t| ==> t[v] == -1 || t[v] == v
  }

  ghost function Marked(t: seq<int>): nat {
    if t == [] then 0 else Marked(t[..|t| - 1]) + if t[|t| - 1] != -1 then 1 else 0
  }

  lemma {:induction false} MarkedUpdate(t: seq<int>, v: int)
    requires 0 <= v < |t| && t[v] == -1
    ensures Marked(t[v := v]) == Marked(t) + 1
  {
    var n := |t| - 1;
    if v == n {
      assert t[v := v][..n] == t[..n];
    } else {
      MarkedUpdate(t[..n], v);
      assert t[v := v][..n] == t[..n][v := v];
    }
  }

  method Mark(htab: array<int>, v: int, count: nat) returns (count': nat)
    requires 0 <= v < htab.Length && MarksOwnIndex(htab[..]) && count == Marked(htab[..])
    modifies htab
    ensures MarksOwnIndex(htab[..]) && count' == Marked(htab[..])
    ensures htab[..] == old(htab[..])[v := v]
  {
    count' := count;
    if htab[v] == -1 {
      MarkedUpdate(htab[..], v);
      htab[v] := v;
      count' := count' + 1;
    }
    assert htab[..] == old(htab[..])[v := v];
  }

  // ----- One ordered scan, continued.

  /** Every common value at or after the cursors is at or after (i', j'). */
  ghost predicate NoneSkipped(a: seq<int>, b: seq<int>, i: nat, j: nat, i': nat, j': nat) {
    forall p, q :: i <= p < |a| && j <= q < |b| && a[p] == b[q] ==> i' <= p && j' <= q
  }

  /** The two inner loops: first a's cursor up to b's value, then b's up to a's. */
  method Align(a: seq<int>, b: seq<int>, i: nat, j: nat) returns (i': nat, j': nat)
    requires IsSet(a) && IsSet(b) && i < |a| && j < |b|
    ensures i <= i' <= |a| && j <= j' <= |b| && NoneSkipped(a, b, i, j, i', j')
    ensures i' < |a| && j' < |b| ==> a[i'] <= b[j'] && forall q :: 0 <= q < j' ==> b[q] < a[i']
  {
    i', j' := i, j;
    while i' < |a| && a[i'] < b[j']
      invariant i <= i' <= |a| && NoneSkipped(a, b, i, j, i', j)
    {
      i' := i' + 1;
    }
    if i' == |a| {
      return;
    }
    while j' < |b| && b[j'] < a[i']
      invariant j <= j' <= |b| && NoneSkipped(a, b, i, j, i', j')
      invariant forall q :: 0 <= q < j' ==> b[q] < a[i']
    {
      j' := j' + 1;
    }
  }

  /** After a mismatch both cursors advance: past b[j], but not past a reachable value. */
  lemma SkipsNoReachable(a: seq<int>, b: seq<int>, i: nat, j: nat, p: nat, q: nat)
    requires IsSet(a) && IsSet(b) && i <= p < |a| && j <= q < |b| && a[p] == b[q] && Reachable(a, b, a[p])
    requires a[i] < b[j] && forall q' :: 0 <= q' < j ==> b[q'] < a[i]
    ensures i < p && j < q
  {
    assert forall k :: 0 <= k < |b| && b[k] < b[j] ==> k < j;
  }

  /** What a scan whose cursors stand at (i, j) still has to find. */
  ghost predicate Found(a: seq<int>, b: seq<int>, t: seq<int>, i: nat, j: nat) {
    forall p: nat, q: nat :: p < |a| && q < |b| && a[p] == b[q] && Reachable(a, b, a[p]) ==>
                               Holds(t, a[p]) || (i <= p && j <= q)
  }

  predicate Holds(t: seq<int>, v: int) {
    0 <= v < |t| && t[v] != -1
  }

  lemma FoundAdvance(a: seq<int>, b: seq<int>, t: seq<int>, i: nat, j: nat, i': nat, j': nat)
    requires Found(a, b, t, i, j) && NoneSkipped(a, b, i, j, i', j')
    ensures Found(a, b, t, i', j')
  {
  }

  lemma FoundTurn(a: seq<int>, b: seq<int>, t: seq<int>, t': seq<int>, i: nat, j: nat)
    requires IsSet(a) && IsSet(b) && i < |a| && j < |b|
    requires Found(a, b, t, i, j) && a[i] <= b[j] && forall q :: 0 <= q < j ==> b[q] < a[i]
    requires forall v: int :: Holds(t, v) ==> Holds(t', v)
    requires a[i] == b[j] ==> Holds(t', a[i])
    ensures Found(a, b, t', i + 1, j + 1)
  {
    forall p: nat, q: nat | p < |a| && q < |b| && a[p] == b[q] && Reachable(a, b, a[p])
      ensures Holds(t', a[p]) || (i + 1 <= p && j + 1 <= q)
    {
      if !Holds(t, a[p]) {
        if a[i] < b[j] {
          SkipsNoReachable(a, b, i, j, p, q);
        }
      }
    }
  }

  /** Marks in `htab` the common values that the two cursors meet; both cursors advance after a
      mismatch, so a common value may be skipped. */
  method Scan(a: seq<int>, b: seq<int>, htab: array<int>, count: nat) returns (count': nat)
    requires IsSet(a) && IsSet(b)
    requires forall v :: v in a ==> v < htab.Length
    requires MarksOwnIndex(htab[..]) && count == Marked(htab[..])
    modifies htab
    ensures MarksOwnIndex(htab[..]) && count' == Marked(htab[..])
    ensures forall v: int :: Holds(old(htab[..]), v) ==> Holds(htab[..], v)
    ensures forall v: int :: Holds(htab[..], v) ==> Holds(old(htab[..]), v) || (v in a && v in b)
    ensures forall v: int :: v in a && v in b && Reachable(a, b, v) ==> Holds(htab[..], v)
  {
    count' := count;
    var i, j := 0, 0;
    while i < |a| && j < |b|
      invariant i <= |a| && j <= |b|
      invariant MarksOwnIndex(htab[..]) && count' == Marked(htab[..])
      invariant forall v: int :: Holds(old(htab[..]), v) ==> Holds(htab[..], v)
      invariant forall v: int :: Holds(htab[..], v) ==> Holds(old(htab[..]), v) || (v in a && v in b)
      invariant Found(a, b, htab[..], i, j)
    {
      ghost var t, i0, j0 := htab[..], i, j;
      i, j := Align(a, b, i, j);
      FoundAdvance(a, b, t, i0, j0, i, j);
      if i == |a| || j == |b| {
        break;
      }
      assert a[i] in a && b[j] in b;
      if a[i] == b[j] {
        count' := Mark(htab, a[i], count');
      }
      FoundTurn(a, b, t, htab[..], i, j);
      i, j := i + 1, j + 1;
    }
    forall v: int | v in a && v in b && Reachable(a, b, v) ensures Holds(htab[..], v) {
      var p: nat :| p < |a| && a[p] == v;
      var q: nat :| q < |b| && b[q] == v;
    }
  }

  // ----- The routine.

  ghost predicate AllSets(sets: seq<seq<int>>) {
    forall k :: 0 <= k < |sets| ==> IsSet(sets[k])
  }

  /** The sanity check, which also finds the largest value. */
  method Check(sets: seq<seq<int>>) returns (ok: bool, globalMax: int)
    ensures ok <==> AllSets(sets)
    ensures ok ==> globalMax >= -1 && forall k, v :: 0 <= k < |sets| && v in sets[k] ==> v <= globalMax
  {
    globalMax := -1;
    var set_ := 0;
    while set_ < |sets|
      invariant set_ <= |sets| && AllSets(sets[..set_]) && globalMax >= -1
      invariant forall k, v :: 0 <= k < set_ && v in sets[k] ==> v <= globalMax
    {
      var s := sets[set_];
      var curval, elem := 0, 0;
      while elem < |s|
        invariant elem <= |s| && IsSet(s[..elem]) && globalMax >= -1
        invariant elem > 0 ==> curval == s[elem - 1]
        invariant forall k, v :: 0 <= k < set_ && v in sets[k] ==> v <= globalMax
        invariant forall v :: v in s[..elem] ==> v <= globalMax
      {
        if elem > 0 && curval >= s[elem] {
          NotASet(sets, set_, elem);
          return false, globalMax;
        }
        curval := s[elem];
        if curval < 0 {
          return false, globalMax;
        }
        if globalMax < curval {
          globalMax := curval;
        }
        elem := elem + 1;
      }
      assert s[..elem] == s;
      set_ := set_ + 1;
    }
    assert sets[..set_] == sets;
    return true, globalMax;
  }

  lemma NotASet(sets: seq<seq<int>>, k: nat, i: nat)
    requires k < |sets| && 0 < i < |sets[k]| && sets[k][i - 1] >= sets[k][i]
    ensures !AllSets(sets)
  {
  }

  /** Every ordered pair of sets up to (na, nb) has been scanned. */
  ghost predicate Scanned(sets: seq<seq<int>>, t: seq<int>, na: nat, nb: nat) {
    forall a: nat, b: nat, v: int | a < |sets| && b < |sets| && a != b && (a < na || (a == na && b < nb)) ::
      v in sets[a] && v in sets[b] && Reachable(sets[a], sets[b], v) ==> Holds(t, v)
  }

  /** All pairs scanned: exactly the values of at least two sets are marked. */
  lemma AllScanned(sets: seq<seq<int>>, t: seq<int>)
    requires Scanned(sets, t, |sets|, 0) && forall v: int :: Holds(t, v) ==> InTwo(sets, v)
    ensures forall v: int :: Holds(t, v) <==> InTwo(sets, v)
  {
    forall v: int | InTwo(sets, v) ensures Holds(t, v) {
      var a: nat, b: nat :| a < |sets| && b < |sets| && a != b && v in sets[a] && v in sets[b];
      TwoScansReach(sets[a], sets[b], v);
    }
  }

  method ScanAll(sets: seq<seq<int>>, htab: array<int>) returns (ilen: nat)
    requires AllSets(sets) && forall k, v :: 0 <= k < |sets| && v in sets[k] ==> v < htab.Length
    requires forall v :: 0 <= v < htab.Length ==> htab[v] == -1
    modifies htab
    ensures MarksOwnIndex(htab[..]) && ilen == Marked(htab[..])
    ensures forall v: int :: Holds(htab[..], v) <==> InTwo(sets, v)
  {
    NoneMarked(htab[..]);
    ilen := 0;
    var seta := 0;
    while seta < |sets|
      invariant seta <= |sets|
      invariant MarksOwnIndex(htab[..]) && ilen == Marked(htab[..])
      invariant Scanned(sets, htab[..], seta, 0)
      invariant forall v: int :: Holds(htab[..], v) ==> InTwo(sets, v)
    {
      var setb := 0;
      while setb < |sets|
        invariant setb <= |sets|
        invariant MarksOwnIndex(htab[..]) && ilen == Marked(htab[..])
        invariant Scanned(sets, htab[..], seta, setb)
        invariant forall v: int :: Holds(htab[..], v) ==> InTwo(sets, v)
      {
        if seta != setb {
          ilen := Scan(sets[seta], sets[setb], htab, ilen);
        }
        setb := setb + 1;
      }
      seta := seta + 1;
    }
    AllScanned(sets, htab[..]);
  }

  lemma {:induction false} NoneMarked(t: seq<int>)
    requires forall v :: 0 <= v < |t| ==> t[v] == -1
    ensures Marked(t) == 0
  {
    if t != [] {
      NoneMarked(t[..|t| - 1]);
    }
  }

  lemma {:induction false} MarkedPrefix(t: seq<int>, i: nat)
    requires i <= |t|
    ensures Marked(t[..i]) <= Marked(t)
    ensures i < |t| ==> Marked(t[..i + 1]) == Marked(t[..i]) + if t[i] != -1 then 1 else 0
    decreases |t| - i
  {
    if i < |t| {
      assert t[..i + 1][..i] == t[..i];
      if i + 1 < |t| {
        MarkedPrefix(t, i + 1);
      } else {
        assert t[..i + 1] == t;
      }
    } else {
      assert t[..i] == t;
    }
  }

  /** quo_set_get_k_set_intersection: the strictly sorted values that occur in at least two sets, or
      an error when some input is not strictly increasing and non-negative. */
  method GetKSetIntersection(sets: seq<seq<int>>) returns (rc: int, res: array?<int>, resLen: nat)
    ensures rc == if AllSets(sets) then SUCCESS else ERR_INVLD_ARG
    ensures resLen == if res == null then 0 else res.Length
    ensures rc != SUCCESS ==> res == null
    ensures rc == SUCCESS && res == null ==> forall v :: !InTwo(sets, v)
    ensures rc == SUCCESS && res != null ==> StrictlyIncreasing(res[..]) && forall v :: v in res[..] <==> InTwo(sets, v)
  {
    res, resLen := null, 0;
    if |sets| == 0 {
      return SUCCESS, null, 0;
    }
    var ok, globalMax := Check(sets);
    if !ok {
      return ERR_INVLD_ARG, null, 0;
    }
    var htab := new int[globalMax + 1](_ => -1);
    var ilen := ScanAll(sets, htab);
    if ilen == 0 {
      forall v ensures !InTwo(sets, v) {
        if Holds(htab[..], v) {
          MarkedPrefix(htab[..], v);
          MarkedPrefix(htab[..], v + 1);
        }
      }
      return SUCCESS, null, 0;
    }
    var r := Collect(htab, ilen);
    return SUCCESS, r, ilen;
  }

  /** Copies the marks, in increasing order. */
  method Collect(htab: array<int>, ilen: nat) returns (r: array<int>)
    requires MarksOwnIndex(htab[..]) && ilen == Marked(htab[..])
    ensures fresh(r) && r.Length == ilen && StrictlyIncreasing(r[..])
    ensures forall v :: v in r[..] <==> Holds(htab[..], v)
  {
    r := new int[ilen](_ => 0);
    var i, j := 0, 0;
    ghost var t := htab[..];
    assert t[..|t|] == t;
    while i < htab.Length
      invariant i <= htab.Length && j == Marked(t[..i]) && j <= ilen && htab[..] == t
      invariant StrictlyIncreasing(r[..j])
      invariant forall v :: v in r[..j] <==> Holds(t, v) && v < i
    {
      MarkedPrefix(t, i);
      MarkedPrefix(t, i + 1);
      if htab[i] != -1 {
        assert forall k :: 0 <= k < j ==> r[..j][k] in r[..j];
        r[j] := htab[i];
        assert r[..j + 1] == r[..j] + [i];
        j := j + 1;
      }
      i := i + 1;
    }
    assert r[..j] == r[..];
  }
}
