/** Distance matrices whose objects may disappear (src/hwloc/hwloc/distances.c): the matrix and the arrays
    beside it are compacted in place. */
module Distances {
  /** An object pointer, null when the object is gone. */
  datatype Slot = Gone | Object(id: nat)

  /** The indexes of the objects that are left, in order. */
  function Kept(objs: seq<Slot>): (keep: seq<nat>)
    ensures |keep| <= |objs|
    ensures forall a :: 0 <= a < |keep| ==> keep[a] < |objs| && objs[keep[a]].Object?
    ensures forall a, b :: 0 <= a < b < |keep| ==> keep[a] < keep[b]
  {
    if objs == [] then []
    else
      var last := |objs| - 1;
      Kept(objs[..last]) + if objs[last].Object? then [last] else []
  }

  lemma {:induction false} KeptPrefix(objs: seq<Slot>, i: nat)
    requires i < |objs|
    ensures |Kept(objs[..i])| <= i && |Kept(objs[..i])| <= |Kept(objs)|
    ensures objs[i].Object? ==> |Kept(objs[..i])| < |Kept(objs)| && Kept(objs)[|Kept(objs[..i])|] == i
    ensures |Kept(objs[..i + 1])| == |Kept(objs[..i])| + if objs[i].Object? then 1 else 0
    decreases |objs|
  {
    assert objs[..i + 1][..i] == objs[..i];
    var front := objs[..|objs| - 1];
    if i < |front| {
      KeptPrefix(front, i);
      assert front[..i] == objs[..i];
    } else {
      assert front == objs[..i];
    }
  }

  /** Cell (i, j) of a matrix with rows of n: i * n + j. */
  ghost function Cell(i: nat, j: nat, n: nat): nat {
    if i == 0 then j else n + Cell(i - 1, j, n)
  }

  lemma {:induction false} CellIs(i: nat, j: nat, n: nat)
    ensures Cell(i, j, n) == i * n + j
  {
    if i > 0 {
      CellIs(i - 1, j, n);
      assert i * n == (i - 1) * n + n;
    }
  }

  /** Cells are numbered row by row. */
  lemma {:induction false} CellOrder(a: nat, b: nat, i: nat, j: nat, n: nat)
    requires b < n && (a < i || (a == i && b < j))
    ensures Cell(a, b, n) < Cell(i, j, n)
  {
    if a > 0 {
      CellOrder(a - 1, b, i - 1, j, n);
    } else if i > 0 {
      CellAtLeast(i, j, n);
    }
  }

  lemma {:induction false} CellAtLeast(i: nat, j: nat, n: nat)
    requires i > 0
    ensures Cell(i, j, n) >= n
  {
  }

  /** A cell of a smaller matrix comes before that of a larger one, for the same place or one further on. */
  lemma {:induction false} CellShrinks(newi: nat, newj: nat, m: nat, i: nat, j: nat, n: nat)
    requires m <= n && newi <= i && newj <= j
    ensures Cell(newi, newj, m) <= Cell(i, j, n)
  {
    if newi > 0 {
      CellShrinks(newi - 1, newj, m, i - 1, j, n);
    } else if i > 0 {
      CellShrinks(0, newj, m, i - 1, j, n);
    }
  }

  lemma CellInside(i: nat, j: nat, n: nat)
    requires i < n && j < n
    ensures Cell(i, j, n) < Cell(n, 0, n)
  {
    CellOrder(i, j, n, 0, n);
  }

  /** Place (a, b) comes before (i, j). */
  predicate Earlier(a: nat, b: nat, i: nat, j: nat) {
    a < i || (a == i && b < j)
  }

  ghost predicate Filled(was: seq<int>, now: seq<int>, keep: seq<nat>, n: nat, a: nat, b: nat) {
    a < |keep| && b < |keep| && Cell(a, b, |keep|) < |now| && Cell(keep[a], keep[b], n) < |was| &&
    now[Cell(a, b, |keep|)] == was[Cell(keep[a], keep[b], n)]
  }

  /** The places before (newi, newj) are compacted, and from cell `unread` on nothing has changed. */
  ghost predicate Compacting(was: seq<int>, now: seq<int>, keep: seq<nat>, n: nat, newi: nat, newj: nat, unread: nat) {
    && |now| == |was| == Cell(n, 0, n) && |keep| <= n
    && (forall a: nat, b: nat :: b < |keep| && Earlier(a, b, newi, newj) ==> Filled(was, now, keep, n, a, b))
    && (forall c :: unread <= c < |now| ==> now[c] == was[c])
    && (forall c :: Cell(|keep|, 0, |keep|) <= c < |now| ==> now[c] == was[c])
  }

  /** One cell moves: never to a place still to be read. */
  lemma CellMoves(was: seq<int>, now: seq<int>, keep: seq<nat>, n: nat, newi: nat, newj: nat, i: nat, j: nat)
    requires newi < |keep| && newj < |keep| && newi <= i < n && newj <= j < n && keep[newi] == i && keep[newj] == j
    requires Compacting(was, now, keep, n, newi, newj, Cell(i, j, n))
    ensures var w, r := Cell(newi, newj, |keep|), Cell(i, j, n);
            w <= r < |now| && Compacting(was, now[w := now[r]], keep, n, newi, newj + 1, r + 1)
  {
    var m := |keep|;
    var w, r := Cell(newi, newj, m), Cell(i, j, n);
    CellShrinks(newi, newj, m, i, j, n);
    CellInside(i, j, n);
    CellInside(newi, newj, m);
    var next := now[w := now[r]];
    forall a: nat, b: nat | b < m && Earlier(a, b, newi, newj + 1) ensures Filled(was, next, keep, n, a, b) {
      if Earlier(a, b, newi, newj) {
        assert Filled(was, now, keep, n, a, b);
        CellOrder(a, b, newi, newj, m);
      }
    }
  }

  lemma RowEnds(was: seq<int>, now: seq<int>, keep: seq<nat>, n: nat, newi: nat, unread: nat, later: nat)
    requires Compacting(was, now, keep, n, newi, |keep|, unread) && unread <= later
    ensures Compacting(was, now, keep, n, newi + 1, 0, later)
  {
    forall a: nat, b: nat | b < |keep| && Earlier(a, b, newi + 1, 0) ensures Filled(was, now, keep, n, a, b) {
      assert Earlier(a, b, newi, |keep|);
    }
  }

  /** The array compacted in place, order kept; what is behind it is untouched. */
  ghost predicate Compacted<T>(was: seq<T>, now: seq<T>, keep: seq<nat>) {
    && |now| == |was| && |keep| <= |was|
    && (forall a :: 0 <= a < |keep| ==> keep[a] < |was| && now[a] == was[keep[a]])
    && (forall c :: |keep| <= c < |was| ==> now[c] == was[c])
  }

  ghost predicate IsSubmatrix(was: seq<int>, now: seq<int>, keep: seq<nat>, n: nat) {
    && |now| == |was|
    && (forall a: nat, b: nat :: a < |keep| && b < |keep| ==> Filled(was, now, keep, n, a, b))
    && (forall c :: Cell(|keep|, 0, |keep|) <= c < |now| ==> now[c] == was[c])
  }

  method MoveCell(values: array<int>, n: nat, m: nat, i: nat, j: nat, newi: nat, newj: nat,
                  ghost keep: seq<nat>, ghost was: seq<int>)
    requires m == |keep| && newi < m && newj < m && newi <= i < n && newj <= j < n && keep[newi] == i && keep[newj] == j
    requires Compacting(was, values[..], keep, n, newi, newj, Cell(i, j, n))
    modifies values
    ensures Compacting(was, values[..], keep, n, newi, newj + 1, Cell(i, j, n) + 1)
  {
    CellMoves(was, values[..], keep, n, newi, newj, i, j);
    CellIs(newi, newj, m);
    CellIs(i, j, n);
    ghost var now := values[..];
    values[newi * m + newj] := values[i * n + j];
    assert values[..] == now[Cell(newi, newj, m) := now[Cell(i, j, n)]];
  }

  /** One row of the matrix. */
  method CompactRow(objs: array<Slot>, values: array<int>, n: nat, m: nat, i: nat, newi: nat, ghost was: seq<int>)
    requires objs.Length == n && i < n && objs[i].Object? && m == |Kept(objs[..])| && newi == |Kept(objs[..i])|
    requires Compacting(was, values[..], Kept(objs[..]), n, newi, 0, Cell(i, 0, n))
    modifies values
    ensures Compacting(was, values[..], Kept(objs[..]), n, newi + 1, 0, Cell(i + 1, 0, n))
  {
    ghost var keep := Kept(objs[..]);
    KeptPrefix(objs[..], i);
    assert objs[..][..i] == objs[..i];
    var j, newj := 0, 0;
    while j < n
      invariant j <= n && newj == |Kept(objs[..j])|
      invariant Compacting(was, values[..], keep, n, newi, newj, Cell(i, j, n))
    {
      KeptPrefix(objs[..], j);
      assert objs[..][..j] == objs[..j] && objs[..][..j + 1] == objs[..j + 1];
      NextCell(i, j, n);
      if objs[j].Object? {
        MoveCell(values, n, m, i, j, newi, newj, keep, was);
        newj := newj + 1;
      }
      j := j + 1;
    }
    assert objs[..n] == objs[..];
    NextCell(i, 0, n);
    RowEnds(was, values[..], keep, n, newi, Cell(i, n, n), Cell(i + 1, 0, n));
  }

  lemma {:induction false} NextCell(i: nat, j: nat, n: nat)
    ensures Cell(i, j + 1, n) == Cell(i, j, n) + 1
    ensures Cell(i + 1, 0, n) == Cell(i, n, n)
  {
    CellIs(i, j + 1, n);
    CellIs(i, j, n);
    CellIs(i + 1, 0, n);
    CellIs(i, n, n);
    assert (i + 1) * n == i * n + n;
  }

  method CompactMatrix(objs: array<Slot>, values: array<int>, n: nat, m: nat)
    requires objs.Length == n && m == |Kept(objs[..])| && values.Length == Cell(n, 0, n)
    modifies values
    ensures IsSubmatrix(old(values[..]), values[..], Kept(objs[..]), n)
  {
    ghost var was := values[..];
    ghost var keep := Kept(objs[..]);
    var i, newi := 0, 0;
    while i < n
      invariant i <= n && newi == |Kept(objs[..i])|
      invariant Compacting(was, values[..], keep, n, newi, 0, Cell(i, 0, n))
    {
      KeptPrefix(objs[..], i);
      assert objs[..][..i] == objs[..i] && objs[..][..i + 1] == objs[..i + 1];
      if objs[i].Object? {
        CompactRow(objs, values, n, m, i, newi, was);
        newi := newi + 1;
      } else {
        CellShrinks(i, 0, n, i + 1, 0, n);
      }
      i := i + 1;
    }
    assert objs[..n] == objs[..];
  }

  /** The survivors among the first i are in place, the rest is as it was. */
  ghost predicate Moving<T>(was: seq<T>, now: seq<T>, keep: seq<nat>, newi: nat) {
    && |now| == |was| && newi <= |keep| <= |was|
    && (forall a :: 0 <= a < newi ==> keep[a] < |was| && now[a] == was[keep[a]])
    && (forall c :: newi <= c < |was| ==> now[c] == was[c])
  }

  method MoveTo<T>(a: array<T>, i: nat, newi: nat, ghost was: seq<T>, ghost keep: seq<nat>)
    requires newi <= i < a.Length && newi < |keep| && keep[newi] == i && Moving(was, a[..], keep, newi)
    modifies a
    ensures Moving(was, a[..], keep, newi + 1)
  {
    a[newi] := a[i];
  }

  ghost function Entries(a: array?<int>): seq<int>
    reads a
  {
    if a == null then [] else a[..]
  }

  /** Where the pass over the three arrays stands. */
  ghost predicate AllMoving(
    objs: array<Slot>, indexes: array?<int>, types: array?<int>, was: seq<Slot>, wasIndexes: seq<int>,
    wasTypes: seq<int>, newi: nat)
    reads objs, indexes, types
  {
    && Moving(was, objs[..], Kept(was), newi)
    && (indexes != null ==> Moving(wasIndexes, indexes[..], Kept(was), newi))
    && (types != null ==> Moving(wasTypes, types[..], Kept(was), newi))
  }

  method MoveEntry(
    objs: array<Slot>, indexes: array?<int>, types: array?<int>, i: nat, newi: nat, ghost was: seq<Slot>,
    ghost wasIndexes: seq<int>, ghost wasTypes: seq<int>)
    requires newi <= i < objs.Length && newi < |Kept(was)| && Kept(was)[newi] == i
    requires indexes != null ==> indexes.Length == objs.Length
    requires types != null ==> types.Length == objs.Length && types != indexes
    requires AllMoving(objs, indexes, types, was, wasIndexes, wasTypes, newi)
    modifies objs, indexes, types
    ensures AllMoving(objs, indexes, types, was, wasIndexes, wasTypes, newi + 1)
  {
    MoveTo(objs, i, newi, was, Kept(was));
    if indexes != null {
      MoveTo(indexes, i, newi, wasIndexes, Kept(was));
    }
    if types != null {
      MoveTo(types, i, newi, wasTypes, Kept(was));
    }
  }

  lemma PassStarts(objs: array<Slot>, indexes: array?<int>, types: array?<int>)
    requires indexes != null ==> indexes.Length == objs.Length
    requires types != null ==> types.Length == objs.Length
    ensures AllMoving(objs, indexes, types, objs[..], Entries(indexes), Entries(types), 0)
  {
  }

  lemma PassEnds(
    objs: array<Slot>, indexes: array?<int>, types: array?<int>, was: seq<Slot>, wasIndexes: seq<int>,
    wasTypes: seq<int>)
    requires AllMoving(objs, indexes, types, was, wasIndexes, wasTypes, |Kept(was)|)
    ensures Compacted(was, objs[..], Kept(was))
    ensures indexes != null ==> Compacted(wasIndexes, indexes[..], Kept(was))
    ensures types != null ==> Compacted(wasTypes, types[..], Kept(was))
  {
  }

  /** What is tested is as it was: only entries before it have been written. */
  lemma NotYetMoved(
    objs: array<Slot>, indexes: array?<int>, types: array?<int>, was: seq<Slot>, wasIndexes: seq<int>,
    wasTypes: seq<int>, newi: nat, i: nat)
    requires AllMoving(objs, indexes, types, was, wasIndexes, wasTypes, newi) && newi <= i < objs.Length
    ensures |was| == objs.Length && objs[i] == was[i]
  {
  }

  /** One pass over the objects, which are tested as they are then, moves each that is left and what belongs to
      it. */
  method CompactArrays(objs: array<Slot>, indexes: array?<int>, types: array?<int>)
    requires indexes != null ==> indexes.Length == objs.Length
    requires types != null ==> types.Length == objs.Length && types != indexes
    modifies objs, indexes, types
    ensures Compacted(old(objs[..]), objs[..], Kept(old(objs[..])))
    ensures indexes != null ==> Compacted(old(indexes[..]), indexes[..], Kept(old(objs[..])))
    ensures types != null ==> Compacted(old(types[..]), types[..], Kept(old(objs[..])))
  {
    ghost var was, wasIndexes, wasTypes := objs[..], Entries(indexes), Entries(types);
    var i, newi := 0, 0;
    PassStarts(objs, indexes, types);
    while i < objs.Length
      invariant newi <= i <= objs.Length && newi == |Kept(was[..i])|
      invariant AllMoving(objs, indexes, types, was, wasIndexes, wasTypes, newi)
    {
      NotYetMoved(objs, indexes, types, was, wasIndexes, wasTypes, newi, i);
      KeptPrefix(was, i);
      if objs[i].Object? {
        MoveEntry(objs, indexes, types, i, newi, was, wasIndexes, wasTypes);
        newi := newi + 1;
      }
      i := i + 1;
    }
    assert was[..i] == was;
    PassEnds(objs, indexes, types, was, wasIndexes, wasTypes);
  }

  /** hwloc_internal_distances_restrict: matrix first, then the arrays beside it; the two of them that
      may be absent are null. */
  method Restrict(
    objs: array<Slot>, indexes: array?<int>, types: array?<int>, values: array<int>, n: nat, disappeared: nat)
    requires objs.Length == n && values.Length == Cell(n, 0, n) && n - disappeared == |Kept(objs[..])|
    requires indexes != null ==> indexes.Length == n && indexes != values
    requires types != null ==> types.Length == n && types != values && types != indexes
    modifies objs, indexes, types, values
    ensures IsSubmatrix(old(values[..]), values[..], Kept(old(objs[..])), n)
    ensures Compacted(old(objs[..]), objs[..], Kept(old(objs[..])))
    ensures indexes != null ==> Compacted(old(indexes[..]), indexes[..], Kept(old(objs[..])))
    ensures types != null ==> Compacted(old(types[..]), types[..], Kept(old(objs[..])))
  {
    CompactMatrix(objs, values, n, n - disappeared);
    CompactArrays(objs, indexes, types);
  }

  /** Distances between objects (struct hwloc_internal_distances_s). */
  class Distances {
    var nbobjs: nat
    var objs: array<Slot>
    var indexes: array<int>
    const uniqueType: int
    var types: array?<int>
    var values: array<int>
    var objsValid: bool

    /** As they are added: the objects are not looked up yet. */
    constructor (uniqueType: int, indexes: array<int>, types: array?<int>, values: array<int>)
      requires values.Length == Cell(indexes.Length, 0, indexes.Length) && indexes != values
      requires types != null ==> types.Length == indexes.Length && types != values && types != indexes
      ensures Full() && nbobjs == indexes.Length && !objsValid && fresh(objs)
      ensures this.indexes == indexes && this.types == types && this.values == values && this.uniqueType == uniqueType
    {
      this.nbobjs := indexes.Length;
      this.objs := new Slot[indexes.Length](_ => Gone);
      this.uniqueType, this.indexes, this.types, this.values := uniqueType, indexes, types, values;
      this.objsValid := false;
    }

    /** Freshly cached distances: as many cells as the objects need. */
    ghost predicate Full()
      reads this
    {
      && objs.Length == nbobjs == indexes.Length && values.Length == Cell(nbobjs, 0, nbobjs) && indexes != values
      && (types != null ==> types.Length == nbobjs && types != values && types != indexes)
    }

    /** hwloc_internal_distances_refresh_one: looks every object up again, and forgets those that are gone;
        distances between fewer than two objects are to be dropped. */
    method RefreshOne(lookup: (int, int) -> Slot) returns (rc: int, ghost found: seq<Slot>)
      requires Full()
      modifies this`nbobjs, this`objsValid, objs, indexes, types, values
      ensures old(objsValid) ==>
                rc == 0 && nbobjs == old(nbobjs) && objs[..] == old(objs[..]) && values[..] == old(values[..])
      ensures old(objsValid) ==> indexes[..] == old(indexes[..]) && Entries(types) == old(Entries(types))
      ensures !old(objsValid) ==> |found| == old(nbobjs)
      ensures !old(objsValid) ==>
                forall i :: 0 <= i < |found| ==>
                              found[i] == lookup(if types == null then uniqueType else old(types[i]), old(indexes[i]))
      ensures !old(objsValid) ==>
                var keep := Kept(found);
                if |keep| < 2 then rc == -1
                else
                  && rc == 0 && objsValid && nbobjs == |keep|
                  && Compacted(found, objs[..], keep)
                  && Compacted(old(indexes[..]), indexes[..], keep)
                  && (types != null ==> Compacted(old(types[..]), types[..], keep))
                  && IsSubmatrix(old(values[..]), values[..], keep, old(nbobjs))
      ensures !old(objsValid) && rc == 0 ==>
                forall k :: 0 <= k < nbobjs ==>
                              objs[k].Object? &&
                              objs[k] == lookup(if types == null then uniqueType else types[k], indexes[k])
    {
      if objsValid {
        return 0, [];
      }
      rc, found := RefreshStale(lookup);
    }

    method RefreshStale(lookup: (int, int) -> Slot) returns (rc: int, ghost found: seq<Slot>)
      requires Full()
      modifies this`nbobjs, this`objsValid, objs, indexes, types, values
      ensures found == old(Lookups(lookup))
      ensures rc == if |Kept(found)| < 2 then -1 else 0
      ensures rc == 0 ==> objsValid && nbobjs == |Kept(found)|
      ensures rc == 0 ==> Compacted(found, objs[..], Kept(found))
      ensures rc == 0 ==> Compacted(old(indexes[..]), indexes[..], Kept(found))
      ensures rc == 0 && types != null ==> Compacted(old(types[..]), types[..], Kept(found))
      ensures rc == 0 ==> IsSubmatrix(old(values[..]), values[..], Kept(found), old(nbobjs))
      ensures rc == 0 ==>
                forall k :: 0 <= k < nbobjs ==>
                              objs[k].Object? &&
                              objs[k] == lookup(if types == null then uniqueType else types[k], indexes[k])
    {
      found := Lookups(lookup);
      var disappeared := LookUpAll(lookup);
      if nbobjs - disappeared < 2 {
        return -1, found;
      }
      ForgetGone(lookup, disappeared, found);
      objsValid := true;
      return 0, found;
    }

    /** Those that are left stand beside the type and index under which they were found. */
    method ForgetGone(lookup: (int, int) -> Slot, disappeared: nat, ghost found: seq<Slot>)
      requires Full() && nbobjs - disappeared == |Kept(found)| && objs[..] == found
      requires forall i :: 0 <= i < nbobjs ==>
                             found[i] == lookup(if types == null then uniqueType else types[i], indexes[i])
      modifies this`nbobjs, objs, indexes, types, values
      ensures nbobjs == |Kept(found)|
      ensures Compacted(found, objs[..], Kept(found))
      ensures Compacted(old(indexes[..]), indexes[..], Kept(found))
      ensures types != null ==> Compacted(old(types[..]), types[..], Kept(found))
      ensures IsSubmatrix(old(values[..]), values[..], Kept(found), old(nbobjs))
      ensures forall k :: 0 <= k < nbobjs ==>
                            objs[k].Object? &&
                            objs[k] == lookup(if types == null then uniqueType else types[k], indexes[k])
    {
      Forget(disappeared);
    }

    method Forget(disappeared: nat)
      requires Full() && nbobjs - disappeared == |Kept(objs[..])|
      modifies this`nbobjs, objs, indexes, types, values
      ensures nbobjs == old(nbobjs) - disappeared
      ensures Compacted(old(objs[..]), objs[..], Kept(old(objs[..])))
      ensures Compacted(old(indexes[..]), indexes[..], Kept(old(objs[..])))
      ensures types != null ==> Compacted(old(types[..]), types[..], Kept(old(objs[..])))
      ensures IsSubmatrix(old(values[..]), values[..], Kept(old(objs[..])), old(nbobjs))
    {
      if disappeared > 0 {
        Restrict(objs, indexes, types, values, nbobjs, disappeared);
        nbobjs := nbobjs - disappeared;
      } else {
        NothingGone(objs[..]);
        AllFilled(values[..], Kept(objs[..]), nbobjs);
      }
    }

    function Lookups(lookup: (int, int) -> Slot): (s: seq<Slot>)
      requires Full()
      reads this, indexes, types
      ensures |s| == nbobjs
      ensures forall i :: 0 <= i < nbobjs ==>
                            s[i] == lookup(if types == null then uniqueType else types[i], indexes[i])
    {
      seq(nbobjs, i requires 0 <= i < nbobjs && Full() reads this, indexes, types => lookup(TypeOf(i), indexes[i]))
    }

    /** Either the type all objects share or their own. */
    function TypeOf(i: nat): int
      requires Full() && i < nbobjs
      reads this, types
    {
      if types == null then uniqueType else types[i]
    }

    method LookUpAll(lookup: (int, int) -> Slot) returns (disappeared: nat)
      requires Full()
      modifies objs
      ensures objs[..] == old(Lookups(lookup))
      ensures nbobjs - disappeared == |Kept(objs[..])|
    {
      disappeared := 0;
      ghost var found := Lookups(lookup);
      for i := 0 to nbobjs
        invariant objs[..i] == found[..i] && i - disappeared == |Kept(found[..i])|
      {
        KeptPrefix(found, i);
        objs[i] := lookup(TypeOf(i), indexes[i]);
        if objs[i] == Gone {
          disappeared := disappeared + 1;
        }
      }
      assert found[..nbobjs] == found && objs[..nbobjs] == objs[..];
    }
  }

  lemma {:induction false} NothingGone(objs: seq<Slot>)
    requires |Kept(objs)| == |objs|
    ensures forall a :: 0 <= a < |objs| ==> Kept(objs)[a] == a
  {
    if objs != [] {
      NothingGone(objs[..|objs| - 1]);
    }
  }

  lemma AllFilled(values: seq<int>, keep: seq<nat>, n: nat)
    requires |keep| == n && |values| == Cell(n, 0, n) && forall a :: 0 <= a < n ==> keep[a] == a
    ensures IsSubmatrix(values, values, keep, n)
  {
    forall a: nat, b: nat | a < n && b < n ensures Filled(values, values, keep, n, a, b) {
      CellInside(a, b, n);
    }
  }
}
