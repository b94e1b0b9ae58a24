/** The array of CPU kinds of a topology, grown and split in place. */
module CpuKinds {
  import opened Words
  import opened Bitmaps
  import opened BitmapQueries
  import opened BitmapInclusion
  import opened KindPartition

  const FLAG_OVERWRITE: nat := 1
  const EINVAL: int := 22
  const ENOENT: int := 2
  const EXDEV: int := 18

  /** struct hwloc_internal_cpukind_s, without its ranking value. */
  datatype Kind = Kind(cpuset: Bitmap?, efficiency: int, forced: int, infos: seq<Info>)

  const ZEROED: Kind := Kind(null, 0, 0, [])

  ghost predicate ShowsKind(k: Kind, v: KindView)
    reads k.cpuset
  {
    k.cpuset != null && k.cpuset.Valid() && v == KindView(k.cpuset.Set(), k.efficiency, k.forced, k.infos)
  }

  /** The first |v| slots own distinct bitmaps, all in `repr`, and stand for v; the slots after them
      are still zeroed. */
  ghost predicate Shows(kinds: seq<Kind>, v: seq<KindView>, repr: set<Bitmap>)
    reads repr
  {
    && |v| <= |kinds|
    && (forall i :: 0 <= i < |v| ==> kinds[i].cpuset in repr && ShowsKind(kinds[i], v[i]))
    && (forall i, j :: 0 <= i < j < |v| ==> kinds[i].cpuset != kinds[j].cpuset)
    && (forall i :: |v| <= i < |kinds| ==> kinds[i] == ZEROED)
  }

  /** What the five answers of the comparison mean for a kind. */
  lemma Cases(k: KindView, r: Registration)
    requires NonEmpty(k) && r.cpus != iset{}
    ensures var res := Relation(r.cpus, k.cpus);
            if res == Intersects || res == Included then
              Splits(k, r) && Kept(k, r) == k.(cpus := k.cpus - r.cpus)
            else if res == Contains || res == Equal then
              !Splits(k, r) &&
              Kept(k, r) == k.(infos := AddInfos(k.infos, r.infos),
              forced := if r.overwrite || k.forced == EFFICIENCY_UNKNOWN then r.forced else k.forced)
            else !Splits(k, r) && Kept(k, r) == k && r.cpus - k.cpus == r.cpus
  {
    var p: nat :| p in k.cpus;
    if k.cpus <= r.cpus {
      assert p in k.cpus * r.cpus;
    } else if k.cpus * r.cpus == iset{} {
      assert forall q :: q in r.cpus ==> q !in k.cpus * r.cpus;
    }
  }

  ghost predicate Meets(k: KindView, s: iset<nat>) {
    exists p: nat :: p in s && p in k.cpus
  }

  /** Kinds being disjoint, the first kind that meets the cpuset settles the lookup. */
  lemma LookupCases(v: seq<KindView>, s: iset<nat>, k: nat)
    requires Partition(v) && k < |v| && s != iset{}
    ensures var res := Relation(s, v[k].cpus);
            (res == Equal || res == Included <==> s <= v[k].cpus) && (res == Different <==> !Meets(v[k], s))
    ensures Meets(v[k], s) ==> forall i :: 0 <= i < |v| && s <= v[i].cpus ==> i == k
  {
    var q: nat :| q in s;
    var p: nat :| p in v[k].cpus;
    assert Meets(v[k], s) <==> v[k].cpus * s != iset{} by {
      if Meets(v[k], s) {
        var m: nat :| m in s && m in v[k].cpus;
        assert m in v[k].cpus * s;
      }
    }
    assert s * v[k].cpus == v[k].cpus * s;
    if Meets(v[k], s) {
      var m: nat :| m in s && m in v[k].cpus;
      forall i: nat | i < |v| && s <= v[i].cpus ensures i == k {
        assert In(v, i, m) && In(v, k, m);
      }
    }
  }

  lemma LookupMiss(v: seq<KindView>, s: iset<nat>)
    requires s != iset{} && forall i :: 0 <= i < |v| ==> !Meets(v[i], s)
    ensures forall i :: 0 <= i < |v| ==> !(s <= v[i].cpus)
  {
    var q: nat :| q in s;
  }

  class Topology {
    var kinds: seq<Kind>
    var nrKinds: nat
    var nrAllocated: nat
    ghost var view: seq<KindView>
    ghost var repr: set<Bitmap>

    ghost predicate Valid()
      reads this, repr
    {
      nrKinds == |view| && nrAllocated == |kinds| && Shows(kinds, view, repr)
    }

    constructor ()
      ensures Valid() && view == [] && repr == {}
    {
      kinds, nrKinds, nrAllocated, view, repr := [], 0, 0, [], {};
    }

    /** hwloc_internal_cpukinds_register. The topology becomes the owner of `cpuset`. */
    method RegisterKind(cpuset: Bitmap, forced: int, infos: seq<Info>, flags: nat) returns (rc: int, errno: int)
      requires Valid() && Partition(view)
      requires cpuset.Valid() && cpuset !in repr
      modifies this, cpuset, repr
      ensures Valid() && Partition(view) && fresh(repr - old(repr) - {cpuset})
      ensures rc == -1 <==> old(cpuset.Set()) == iset{} || flags > 1
      ensures rc == -1 ==> errno == EINVAL == 22 && view == old(view)
      ensures rc != -1 ==> rc == 0
      ensures rc != -1 ==>
                view == Register(old(view), Registration(old(cpuset.Set()), forced, infos, flags == 1))
    {
      RegisterPartitions(view, Registration(cpuset.Set(), forced, infos, flags == FLAG_OVERWRITE));
      var empty := IsZero(cpuset);
      if empty {
        return -1, EINVAL;
      }
      if flags > FLAG_OVERWRITE {
        return -1, EINVAL;
      }
      Reserve();
      Insert(cpuset, forced, infos, flags == FLAG_OVERWRITE);
      return 0, 0;
    }

    method CompareWithKind(cpuset: Bitmap, k: nat) returns (res: Inclusion)
      requires Valid() && Partition(view) && k < nrKinds
      requires cpuset.Valid() && cpuset.Set() != iset{}
      ensures var s := cpuset.Set();
              && (res == Equal || res == Included <==> s <= view[k].cpus)
              && (res == Different <==> !Meets(view[k], s))
              && (Meets(view[k], s) ==> forall i :: 0 <= i < |view| && s <= view[i].cpus ==> i == k)
    {
      assert ShowsKind(kinds[k], view[k]);
      res := CompareInclusion(cpuset, kinds[k].cpuset);
      LookupCases(view, cpuset.Set(), k);
    }

    /** hwloc_cpukinds_get_by_cpuset: the kind that holds the whole cpuset, or why there is none. */
    method GetByCpuset(cpuset: Bitmap?, flags: nat) returns (id: int, errno: int)
      requires Valid() && Partition(view)
      requires cpuset != null ==> cpuset.Valid()
      ensures flags != 0 || cpuset == null || cpuset.Set() == iset{} <==> id == -1 && errno == EINVAL == 22
      ensures id != -1 ==> 0 <= id < |view|
      ensures errno != EINVAL && cpuset != null ==>
                forall i :: 0 <= i < |view| ==> (id == i <==> cpuset.Set() <= view[i].cpus)
      ensures errno != EINVAL && id == -1 && cpuset != null ==>
                errno == if exists i :: 0 <= i < |view| && Meets(view[i], cpuset.Set()) then 18 else 2
    {
      if flags != 0 {
        return -1, EINVAL;
      }
      if cpuset == null {
        return -1, EINVAL;
      }
      var empty := IsZero(cpuset);
      if empty {
        return -1, EINVAL;
      }
      id, errno := Search(cpuset);
    }

    /** The kinds in turn, until the cpuset meets one. */
    method Search(cpuset: Bitmap) returns (id: int, errno: int)
      requires Valid() && Partition(view) && cpuset.Valid() && cpuset.Set() != iset{}
      ensures -1 <= id < |view|
      ensures errno == if id != -1 then 0
                       else if exists i :: 0 <= i < |view| && Meets(view[i], cpuset.Set()) then EXDEV
                       else ENOENT
      ensures forall i :: 0 <= i < |view| ==> (id == i <==> cpuset.Set() <= view[i].cpus)
    {
      var k := 0;
      ghost var s := cpuset.Set();
      while k < nrKinds
        invariant k <= nrKinds
        invariant forall i :: 0 <= i < k ==> !Meets(view[i], s)
      {
        var res := CompareWithKind(cpuset, k);
        if res == Equal || res == Included {
          return k, 0;
        } else if res == Intersects || res == Contains {
          return -1, EXDEV;
        }
        k := k + 1;
      }
      LookupMiss(view, s);
      return -1, ENOENT;
    }

    /** Room for 2N+1 kinds: a power of two, at least 8; fresh slots are zeroed. */
    method Reserve()
      requires Valid()
      modifies this`kinds, this`nrAllocated
      ensures Valid() && 2 * nrKinds + 1 <= |kinds|
    {
      var max := 2 * nrKinds + 1;
      var bits := FlslNat(max - 1) + 1;
      max := Pow2(bits);
      if max < 8 {
        max := 8;
      }
      if max > nrAllocated {
        kinds := kinds + seq(max - nrAllocated, _ => ZEROED);
        nrAllocated := max;
      }
    }

    method Insert(cpuset: Bitmap, forced: int, infos: seq<Info>, overwrite: bool)
      requires Valid() && Partition(view) && 2 * nrKinds + 1 <= |kinds|
      requires cpuset.Valid() && cpuset !in repr && cpuset.Set() != iset{}
      modifies this, cpuset, repr
      ensures Valid() && fresh(repr - old(repr) - {cpuset})
      ensures view == Register(old(view), Registration(old(cpuset.Set()), forced, infos, overwrite))
    {
      ghost var r := Registration(cpuset.Set(), forced, infos, overwrite);
      assert Left(view, r, 0) == r.cpus;
      var newnr := PassOver(cpuset, forced, infos, overwrite, r);
      AddRemaining(newnr, cpuset, forced, infos, r);
    }

    /** After the pass: what is left of the cpuset becomes a kind of its own. */
    method AddRemaining(newnr: nat, cpuset: Bitmap, forced: int, infos: seq<Info>, ghost r: Registration)
      requires nrAllocated == |kinds| && newnr < |kinds| && Passing(|view|, newnr, cpuset, r)
      requires r.forced == forced && r.infos == infos
      modifies this
      ensures repr == old(repr) || repr == old(repr) + {cpuset}
      ensures Valid() && view == Register(old(view), r)
    {
      Finish(view, r);
      var empty := IsZero(cpuset);
      if empty {
        Publish(newnr, Register(view, r));
      } else {
        AppendKind(newnr, cpuset, forced, infos, Progress(view, r, |view|));
        Publish(newnr + 1, Register(view, r));
      }
    }

    method Publish(newnr: nat, ghost cur: seq<KindView>)
      requires Shows(kinds, cur, repr) && newnr == |cur| && nrAllocated == |kinds|
      modifies this`nrKinds, this`view
      ensures Valid() && view == cur
    {
      nrKinds, view := newnr, cur;
    }

    /** The final new kind, with the PUs that were in no kind. */
    method AppendKind(newnr: nat, cpuset: Bitmap, forced: int, infos: seq<Info>, ghost cur: seq<KindView>)
      requires Shows(kinds, cur, repr) && |cur| == newnr < |kinds|
      requires cpuset.Valid() && cpuset !in repr
      modifies this`kinds, this`repr
      ensures |kinds| == |old(kinds)| && repr == old(repr) + {cpuset}
      ensures Shows(kinds, cur + [KindView(cpuset.Set(), EFFICIENCY_UNKNOWN, forced, AddInfos([], infos))], repr)
    {
      var merged := AddInfosTo([], infos);
      kinds := kinds[newnr := Kind(cpuset, EFFICIENCY_UNKNOWN, forced, merged)];
      repr := repr + {cpuset};
    }

    /** Where the pass stands after i turns. */
    ghost predicate Passing(i: nat, newnr: nat, cpuset: Bitmap, r: Registration)
      reads this, cpuset, repr
    {
      && i <= |view| && newnr == |Progress(view, r, i)| <= |kinds|
      && Shows(kinds, Progress(view, r, i), repr) && cpuset !in repr
      && cpuset.Valid() && cpuset.Set() == Left(view, r, i)
    }

    /** The loop over the existing kinds. */
    method PassOver(cpuset: Bitmap, forced: int, infos: seq<Info>, overwrite: bool, ghost r: Registration)
      returns (newnr: nat)
      requires Partition(view) && nrKinds == |view| && 2 * nrKinds + 1 <= |kinds|
      requires r.forced == forced && r.infos == infos && r.overwrite == overwrite
      requires Passing(0, nrKinds, cpuset, r) && cpuset.Set() != iset{}
      modifies this`kinds, this`repr, cpuset, repr
      ensures |kinds| == |old(kinds)| && fresh(repr - old(repr))
      ensures Passing(nrKinds, newnr, cpuset, r)
    {
      newnr := nrKinds;
      var i, empty := 0, false;
      while i < nrKinds && !empty
        invariant i <= nrKinds && |kinds| == |old(kinds)| && fresh(repr - old(repr))
        invariant Passing(if empty then nrKinds else i, newnr, cpuset, r)
        invariant !empty ==> cpuset.Set() != iset{}
      {
        newnr, empty := TurnAndTest(i, newnr, cpuset, forced, infos, overwrite, r);
        i := i + 1;
      }
    }

    /** A turn, and the test that ends the pass early. */
    method TurnAndTest(
      i: nat, newnr: nat, cpuset: Bitmap, forced: int, infos: seq<Info>, overwrite: bool, ghost r: Registration)
      returns (newnr': nat, empty: bool)
      requires Partition(view) && i < |view| <= newnr < |kinds|
      requires Passing(i, newnr, cpuset, r) && cpuset.Set() != iset{}
      requires r.forced == forced && r.infos == infos && r.overwrite == overwrite
      modifies this`kinds, this`repr, cpuset, repr
      ensures |kinds| == |old(kinds)| && fresh(repr - old(repr))
      ensures Passing(if empty then |view| else i + 1, newnr', cpuset, r)
      ensures !empty ==> cpuset.Set() != iset{}
    {
      newnr' := TurnAt(i, newnr, cpuset, forced, infos, overwrite, r);
      empty := IsZero(cpuset);
      if empty {
        Stop(view, r, i + 1, |view|);
      }
    }

    method TurnAt(
      i: nat, newnr: nat, cpuset: Bitmap, forced: int, infos: seq<Info>, overwrite: bool, ghost r: Registration)
      returns (newnr': nat)
      requires Partition(view) && i < |view| <= newnr < |kinds|
      requires Passing(i, newnr, cpuset, r) && cpuset.Set() != iset{}
      requires r.forced == forced && r.infos == infos && r.overwrite == overwrite
      modifies this`kinds, this`repr, cpuset, repr
      ensures |kinds| == |old(kinds)| && fresh(repr - old(repr))
      ensures Passing(i + 1, newnr', cpuset, r)
    {
      ghost var cur, r' := Progress(view, r, i), r.(cpus := Left(view, r, i));
      ProgressAhead(view, r, i, i);
      assert ShowsKind(kinds[i], cur[i]);
      Turn(view, r, i);
      Cases(view[i], r');
      var res := CompareInclusion(cpuset, kinds[i].cpuset);
      newnr' := newnr;
      if res == Intersects || res == Included {
        SplitAt(i, newnr, cpuset, forced, infos, cur, r');
        assert Progress(view, r, i + 1) == cur[i := cur[i].(cpus := cur[i].cpus - r'.cpus)] + [SplitOff(cur[i], r')];
        newnr' := newnr + 1;
      } else if res == Contains || res == Equal {
        AbsorbAt(i, cpuset, forced, infos, overwrite, cur);
        assert Progress(view, r, i + 1) == cur[i := Kept(view[i], r')];
      } else {
        assert Progress(view, r, i + 1) == cur;
      }
    }

    /** Kind i is split: what it shares with `cpuset` becomes a new kind in slot `newnr`. */
    method SplitAt(
      i: nat, newnr: nat, cpuset: Bitmap, forced: int, infos: seq<Info>, ghost cur: seq<KindView>,
      ghost r: Registration)
      requires Shows(kinds, cur, repr) && i < |cur| == newnr < |kinds|
      requires cpuset.Valid() && cpuset !in repr
      requires r.cpus == cpuset.Set() && r.forced == forced && r.infos == infos
      modifies this`kinds, this`repr, cpuset, repr
      ensures |kinds| == |old(kinds)| && fresh(repr - old(repr)) && cpuset !in repr
      ensures Shows(kinds, cur[i := cur[i].(cpus := cur[i].cpus - r.cpus)] + [SplitOff(cur[i], r)], repr)
      ensures cpuset.Valid() && cpuset.Set() == r.cpus - cur[i].cpus
    {
      var merged := AddInfosTo([], kinds[i].infos);
      merged := AddInfosTo(merged, infos);
      assert ShowsKind(kinds[i], cur[i]);
      var b := SplitCpuset(kinds[i].cpuset, cpuset);
      kinds := kinds[newnr := Kind(b, EFFICIENCY_UNKNOWN, forced, merged)];
      repr := repr + {b};
      ghost var cur' := cur[i := cur[i].(cpus := cur[i].cpus - r.cpus)] + [SplitOff(cur[i], r)];
      forall k | 0 <= k < |cur'| ensures ShowsKind(kinds[k], cur'[k]) {
        if k < newnr && k != i {
          assert old(ShowsKind(kinds[k], cur[k])) && kinds[k].cpuset != kinds[i].cpuset;
        }
      }
    }

    /** Kind i lies within `cpuset`: it takes the new infos and, unless it is known, the efficiency. */
    method AbsorbAt(i: nat, cpuset: Bitmap, forced: int, infos: seq<Info>, overwrite: bool, ghost cur: seq<KindView>)
      requires Shows(kinds, cur, repr) && i < |cur|
      requires cpuset.Valid() && cpuset !in repr
      modifies this`kinds, cpuset
      ensures |kinds| == |old(kinds)|
      ensures
        var value := if overwrite || cur[i].forced == EFFICIENCY_UNKNOWN then forced else cur[i].forced;
        Shows(kinds, cur[i := cur[i].(infos := AddInfos(cur[i].infos, infos), forced := value)], repr)
      ensures cpuset.Valid() && cpuset.Set() == old(cpuset.Set()) - cur[i].cpus
    {
      assert ShowsKind(kinds[i], cur[i]);
      var kind := kinds[i];
      var merged := AddInfosTo(kind.infos, infos);
      kind := kind.(infos := merged);
      if overwrite || kind.forced == EFFICIENCY_UNKNOWN {
        kind := kind.(forced := forced);
      }
      kinds := kinds[i := kind];
      AndNot(cpuset, cpuset, kind.cpuset);
      forall k | 0 <= k < |cur| && k != i ensures ShowsKind(kinds[k], cur[k]) {
        assert old(ShowsKind(kinds[k], cur[k]));
      }
    }
  }

  /** Moves the PUs that `cpuset` shares with `old` to a new bitmap. */
  method SplitCpuset(kept: Bitmap, cpuset: Bitmap) returns (b: Bitmap)
    requires kept.Valid() && cpuset.Valid() && kept != cpuset
    modifies kept, cpuset
    ensures fresh(b) && b.Valid() && kept.Valid() && cpuset.Valid()
    ensures b.Set() == old(kept.Set()) * old(cpuset.Set())
    ensures kept.Set() == old(kept.Set()) - old(cpuset.Set())
    ensures cpuset.Set() == old(cpuset.Set()) - old(kept.Set())
  {
    b := new Bitmap();
    And(b, cpuset, kept);
    AndNot(kept, kept, b);
    AndNot(cpuset, cpuset, b);
  }

  method AddInfosTo(infos: seq<Info>, more: seq<Info>) returns (r: seq<Info>)
    ensures r == AddInfos(infos, more)
  {
    r := infos;
    var i := 0;
    while i < |more|
      invariant i <= |more| && r == AddInfos(infos, more[..i])
    {
      assert more[..i + 1][..i] == more[..i];
      if more[i] !in r {
        r := r + [more[i]];
      }
      i := i + 1;
    }
    assert more[..i] == more;
  }
}
