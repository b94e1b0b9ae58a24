/** Applying differences to a topology in place (src/hwloc/hwloc/diff.c). */
module DiffApply {
  import opened DiffTheory
  import opened DiffRollback

  class Object {
    const isNuma: bool
    const parent: Object?
    var localMemory: U64
    var totalMemory: U64
    var name: Option<string>
    var infos: seq<Info>

    constructor (
      isNuma: bool, parent: Object?, localMemory: U64, totalMemory: U64, name: Option<string>, infos: seq<Info>)
      ensures this.isNuma == isNuma && this.parent == parent
      ensures Attributes() == Attrs(localMemory, totalMemory, name, infos)
    {
      this.isNuma, this.parent := isNuma, parent;
      this.localMemory, this.totalMemory, this.name, this.infos := localMemory, totalMemory, name, infos;
    }

    function Attributes(): Attrs
      reads this
    {
      Attrs(localMemory, totalMemory, name, infos)
    }
  }

  class Topology {
    const levels: map<(int, nat), Object>
    var isLoaded: bool
    var adopted: bool
    ghost const objs: seq<Object>
    ghost const shape: Shape
    ghost const repr: set<Object>

    constructor (
      levels: map<(int, nat), Object>, isLoaded: bool, adopted: bool, ghost objs: seq<Object>, ghost shape: Shape)
      ensures this.levels == levels && this.objs == objs && this.shape == shape && this.isLoaded == isLoaded &&
              this.adopted == adopted
      ensures repr == set o | o in objs
    {
      this.levels, this.isLoaded, this.adopted := levels, isLoaded, adopted;
      this.objs, this.shape, this.repr := objs, shape, set o | o in objs;
    }

    ghost predicate Valid() {
      && WellShaped(shape) && |objs| == |shape.parents|
      && repr == (set o | o in objs)
      && (forall i, j :: 0 <= i < j < |objs| ==> objs[i] != objs[j])
      && (forall i :: 0 <= i < |objs| ==> objs[i].isNuma == shape.numa[i])
      && (forall i :: 0 <= i < |objs| ==> objs[i].parent == ParentOf(i))
      && levels.Keys == shape.at.Keys
      && (forall a :: a in levels ==> levels[a] == objs[shape.at[a]])
    }

    ghost function ParentOf(i: int): Object?
      requires WellShaped(shape) && |objs| == |shape.parents| && 0 <= i < |objs|
    {
      if shape.parents[i] == -1 then null else objs[shape.parents[i]]
    }

    ghost function State(): (a: seq<Attrs>)
      reads objs
      ensures |a| == |objs| && forall i :: 0 <= i < |a| ==> a[i] == objs[i].Attributes()
    {
      seq(|objs|, i requires 0 <= i < |objs| reads objs => objs[i].Attributes())
    }
  }

  lemma {:induction false} BelowIsLarger(sh: Shape, x: nat, k: nat)
    requires WellShaped(sh) && k < |sh.parents| && Above(sh, x, k)
    ensures x <= k
    decreases k
  {
    if x != k {
      BelowIsLarger(sh, x, sh.parents[k]);
    }
  }

  /** The ancestors of k form a chain: those before j are above j. */
  lemma {:induction false} AboveIsChain(sh: Shape, x: nat, j: nat, k: nat)
    requires WellShaped(sh) && k < |sh.parents| && Above(sh, x, k) && Above(sh, j, k) && x <= j
    ensures j < |sh.parents| && Above(sh, x, j)
    decreases k
  {
    BelowIsLarger(sh, j, k);
    if j != k {
      if x == k {
        BelowIsLarger(sh, j, k);
      } else {
        AboveIsChain(sh, x, j, sh.parents[k]);
      }
    }
  }

  /** The state when the walk up from k has reached j (-1 past the root). */
  ghost function Walked(sh: Shape, a: seq<Attrs>, k: nat, j: int, diff: int): (b: seq<Attrs>)
    requires WellShaped(sh) && |a| == |sh.parents| && k < |a|
    ensures |b| == |a|
    ensures forall x :: 0 <= x < |a| ==>
                          b[x] == if Above(sh, x, k) && x > j then a[x].(total := Plus(a[x].total, diff)) else a[x]
  {
    seq(|a|, x requires 0 <= x < |a| =>
      if Above(sh, x, k) && x > j then a[x].(total := Plus(a[x].total, diff)) else a[x])
  }

  lemma WalkStarts(sh: Shape, a: seq<Attrs>, k: nat, diff: int)
    requires WellShaped(sh) && |a| == |sh.parents| && k < |a|
    ensures Above(sh, k, k) && Walked(sh, a, k, k, diff) == a
  {
    NoneBelow(sh, k);
  }

  lemma WalkStep(sh: Shape, a: seq<Attrs>, k: nat, j: nat, diff: int)
    requires WellShaped(sh) && |a| == |sh.parents| && k < |a| && j <= k && Above(sh, j, k)
    ensures Walked(sh, a, k, j, diff)[j] == a[j]
    ensures Walked(sh, a, k, sh.parents[j], diff) ==
            Walked(sh, a, k, j, diff)[j := a[j].(total := Plus(a[j].total, diff))]
    ensures sh.parents[j] >= 0 ==> Above(sh, sh.parents[j], k)
  {
    NextAbove(sh, k, j);
  }

  lemma WalkEnds(sh: Shape, a: seq<Attrs>, e: Entry, mid: seq<Attrs>, k: nat, diff: int, end: seq<Attrs>)
    requires WellShaped(sh) && |a| == |sh.parents| && CanStep(sh, a, e) && e.change.Size? && k == Target(sh, e)
    requires mid == a[k := a[k].(local := e.change.becomes)] && diff == e.change.becomes - e.change.was
    requires end == Walked(sh, mid, k, -1, diff)
    ensures end == StateAfter(sh, a, e)
  {
    var b := Step(sh, a, e);
    forall x | 0 <= x < |a| ensures end[x] == b[x] {
      assert b[x] == StepAt(sh, a[x], e, x);
    }
  }

  lemma NoneBelow(sh: Shape, k: nat)
    requires WellShaped(sh) && k < |sh.parents|
    ensures forall x: nat :: x > k ==> !Above(sh, x, k)
  {
    forall x: nat | x > k ensures !Above(sh, x, k) {
      if Above(sh, x, k) {
        BelowIsLarger(sh, x, k);
      }
    }
  }

  lemma NextAbove(sh: Shape, k: nat, j: nat)
    requires WellShaped(sh) && k < |sh.parents| && Above(sh, j, k)
    ensures j < |sh.parents|
    ensures forall x: nat :: x > sh.parents[j] && Above(sh, x, k) ==> x >= j
    ensures sh.parents[j] >= 0 ==> Above(sh, sh.parents[j], k)
    decreases k
  {
    BelowIsLarger(sh, j, k);
    forall x: nat | x > sh.parents[j] && Above(sh, x, k) ensures x >= j {
      if x < j {
        AboveIsChain(sh, x, j, k);
        BelowIsLarger(sh, x, sh.parents[j]);
      }
    }
    if sh.parents[j] >= 0 {
      AboveTransitive(sh, sh.parents[j], j, k);
    }
  }

  lemma {:induction false} AboveTransitive(sh: Shape, x: nat, j: nat, k: nat)
    requires WellShaped(sh) && k < |sh.parents| && j < |sh.parents| && Above(sh, j, k) && Above(sh, x, j)
    ensures Above(sh, x, k)
    decreases k
  {
    if j != k {
      AboveTransitive(sh, x, j, sh.parents[k]);
    }
  }

  // ----- Assignments to one object.

  method SetTotal(t: Topology, obj: Object, total: U64, ghost k: nat)
    requires t.Valid() && k < |t.objs| && obj == t.objs[k]
    modifies t.repr
    ensures t.State() == old(t.State())[k := old(t.State())[k].(total := total)]
  {
    obj.totalMemory := total;
  }

  method SetLocal(t: Topology, obj: Object, local: U64, ghost k: nat)
    requires t.Valid() && k < |t.objs| && obj == t.objs[k]
    modifies t.repr
    ensures t.State() == old(t.State())[k := old(t.State())[k].(local := local)]
  {
    obj.localMemory := local;
  }

  method SetName(t: Topology, obj: Object, name: string, ghost k: nat)
    requires t.Valid() && k < |t.objs| && obj == t.objs[k]
    modifies t.repr
    ensures t.State() == old(t.State())[k := old(t.State())[k].(name := Some(name))]
  {
    obj.name := Some(name);
  }

  method SetInfo(t: Topology, obj: Object, i: nat, info: Info, ghost k: nat)
    requires t.Valid() && k < |t.objs| && obj == t.objs[k] && i < |obj.infos|
    modifies t.repr
    ensures t.State() == old(t.State())[k := old(t.State())[k].(infos := old(obj.infos)[i := info])]
  {
    obj.infos := obj.infos[i := info];
  }

  // ----- Entries.

  /** Walking up the parents of object k, itself included. */
  method AddToTotals(t: Topology, obj: Object, diff: int, ghost k: nat, ghost a: seq<Attrs>)
    requires t.Valid() && k < |t.objs| && obj == t.objs[k] && a == t.State()
    modifies t.repr
    ensures t.State() == Walked(t.shape, a, k, -1, diff)
  {
    var tmp: Object? := obj;
    ghost var j: int := k;
    WalkStarts(t.shape, a, k, diff);
    while tmp != null
      invariant -1 <= j <= k && tmp == (if j == -1 then null else t.objs[j])
      invariant j >= 0 ==> Above(t.shape, j, k)
      invariant t.State() == Walked(t.shape, a, k, j, diff)
      decreases j
    {
      WalkStep(t.shape, a, k, j, diff);
      assert tmp.Attributes() == t.State()[j];
      SetTotal(t, tmp, Plus(tmp.totalMemory, diff), j);
      tmp := tmp.parent;
      j := t.shape.parents[j];
    }
  }

  /** Only the addressed object changes, unless it is its size. */
  lemma StepIsLocal(sh: Shape, a: seq<Attrs>, e: Entry, v: Attrs)
    requires WellShaped(sh) && |a| == |sh.parents| && CanStep(sh, a, e) && !e.change.Size?
    requires v == Changed(a[Target(sh, e)], e.change, true, true)
    ensures Step(sh, a, e) == a[Target(sh, e) := v]
  {
    var b, k := Step(sh, a, e), Target(sh, e);
    forall x | 0 <= x < |a| ensures b[x] == a[k := v][x] {
      assert b[x] == StepAt(sh, a[x], e, x);
    }
  }

  method ApplySize(t: Topology, obj: Object, e: Entry, ghost k: nat) returns (ok: bool)
    requires t.Valid() && e.ObjAttr? && e.change.Size? && Addresses(t.shape, e) && k == Target(t.shape, e) &&
             obj == t.objs[k]
    modifies t.repr
    ensures ok == CanStep(t.shape, old(t.State()), e)
    ensures t.State() == StateAfter(t.shape, old(t.State()), e)
  {
    ghost var a := t.State();
    assert a[k] == obj.Attributes();
    if !obj.isNuma || obj.localMemory != e.change.was {
      return false;
    }
    GrowBy(t, obj, e, k, a);
    return true;
  }

  method GrowBy(t: Topology, obj: Object, e: Entry, ghost k: nat, ghost a: seq<Attrs>)
    requires t.Valid() && a == t.State() && CanStep(t.shape, a, e) && e.change.Size? && k == Target(t.shape, e) &&
             obj == t.objs[k]
    modifies t.repr
    ensures t.State() == StateAfter(t.shape, a, e)
  {
    ghost var mid := a[k := a[k].(local := e.change.becomes)];
    SetLocal(t, obj, e.change.becomes, k);
    var diff := e.change.becomes - e.change.was;
    AddToTotals(t, obj, diff, k, mid);
    WalkEnds(t.shape, a, e, mid, k, diff, t.State());
  }

  method ApplyName(t: Topology, obj: Object, e: Entry, ghost k: nat) returns (ok: bool)
    requires t.Valid() && e.ObjAttr? && e.change.Rename? && Addresses(t.shape, e) && k == Target(t.shape, e) &&
             obj == t.objs[k]
    modifies t.repr
    ensures ok == CanStep(t.shape, old(t.State()), e)
    ensures t.State() == StateAfter(t.shape, old(t.State()), e)
  {
    ghost var a := t.State();
    assert a[k] == obj.Attributes();
    if obj.name == None || obj.name.value != e.change.before {
      return false;
    }
    StepIsLocal(t.shape, a, e, a[k].(name := Some(e.change.after)));
    SetName(t, obj, e.change.after, k);
    return true;
  }

  method ApplyInfo(t: Topology, obj: Object, e: Entry, ghost k: nat) returns (ok: bool)
    requires t.Valid() && e.ObjAttr? && e.change.InfoValue? && Addresses(t.shape, e) && k == Target(t.shape, e) &&
             obj == t.objs[k]
    modifies t.repr
    ensures ok == CanStep(t.shape, old(t.State()), e)
    ensures t.State() == StateAfter(t.shape, old(t.State()), e)
  {
    ghost var a := t.State();
    assert a[k] == obj.Attributes();
    var i := FindInfo(obj.infos, e.change.name, e.change.from);
    if i == |obj.infos| {
      return false;
    }
    StepIsLocal(t.shape, a, e, a[k].(infos := obj.infos[i := Info(e.change.name, e.change.to)]));
    SetInfo(t, obj, i, Info(e.change.name, e.change.to), k);
    return true;
  }

  method FindInfo(infos: seq<Info>, name: string, value: string) returns (i: nat)
    ensures i == Find(infos, name, value)
  {
    i := 0;
    while i < |infos|
      invariant 0 <= i <= |infos| && i <= Find(infos, name, value)
    {
      if infos[i].name == name && infos[i].value == value {
        assert infos[i] == Info(name, value);
        return i;
      }
      i := i + 1;
    }
  }

  /** hwloc_apply_diff_one. */
  method ApplyOne(t: Topology, diff: Entry, reverse: bool) returns (ok: bool)
    requires t.Valid()
    modifies t.repr
    ensures ok == CanStep(t.shape, old(t.State()), Oriented(diff, reverse))
    ensures t.State() == StateAfter(t.shape, old(t.State()), Oriented(diff, reverse))
    ensures !reverse ==> Forwards(t.shape, old(t.State()), diff, ok, t.State())
    ensures reverse ==> Backwards(t.shape, old(t.State()), diff, ok, t.State())
    ensures ok ==> diff.ObjAttr? && (diff.depth, diff.index) in t.levels && !diff.change.OtherChange?
    ensures ok && diff.change.Size? ==> t.levels[(diff.depth, diff.index)].isNuma
  {
    if reverse {
      TriedBackwards(t.shape, t.State(), diff);
    } else {
      TriedForwards(t.shape, t.State(), diff);
    }
    ok := ApplyOriented(t, Oriented(diff, reverse));
  }

  method ApplyOriented(t: Topology, e: Entry) returns (ok: bool)
    requires t.Valid()
    modifies t.repr
    ensures ok == CanStep(t.shape, old(t.State()), e)
    ensures t.State() == StateAfter(t.shape, old(t.State()), e)
  {
    if e.OtherEntry? || (e.depth, e.index) !in t.levels {
      return false;
    }
    var obj := t.levels[(e.depth, e.index)];
    ghost var k := Target(t.shape, e);
    if e.change.Size? {
      ok := ApplySize(t, obj, e, k);
    } else if e.change.Rename? {
      ok := ApplyName(t, obj, e, k);
    } else if e.change.InfoValue? {
      ok := ApplyInfo(t, obj, e, k);
    } else {
      ok := false;
    }
  }

  /** The entries before the one that failed are undone, first one first; what does not fit is passed over. */
  method Cancel(t: Topology, diff: seq<Entry>, n: nat, reverse: bool)
    requires t.Valid() && n <= |diff|
    modifies t.repr
    ensures t.State() == Undone(t.shape, old(t.State()), OrientAll(diff, reverse)[..n])
  {
    ghost var es, was := OrientAll(diff, reverse), t.State();
    ghost var now := was;
    for i := 0 to n
      invariant now == t.State() && now == Undone(t.shape, was, es[..i])
    {
      assert es[..i + 1][..i] == es[..i];
      CancelOne(t, diff[i], reverse);
      now := StateAfter(t.shape, now, Flip(es[i]));
    }
  }

  method CancelOne(t: Topology, e: Entry, reverse: bool)
    requires t.Valid()
    modifies t.repr
    ensures t.State() == StateAfter(t.shape, old(t.State()), Flip(Oriented(e, reverse)))
  {
    FlipTwice(e, reverse);
    var ok := ApplyOne(t, e, !reverse);
  }

  /** hwloc_topology_diff_apply: all entries, or the negated position (from 1) of the first that does not
      fit, and then what undoing the entries before it leaves: everything as before exactly when undoing leads
      each attribute back to the values it held. Not in reverse, an entry of the list is applied as it stands;
      in reverse, its outcome becomes what it starts from. */
  method Apply(t: Topology, diff: seq<Entry>, reverse: bool, otherFlags: bool) returns (rc: int)
    requires t.Valid()
    modifies t.repr
    ensures !t.isLoaded || t.adopted || otherFlags ==> rc == -1 && t.State() == old(t.State())
    ensures t.isLoaded && !t.adopted && !otherFlags ==>
              var es, a := OrientAll(diff, reverse), old(t.State());
              && (rc == 0 ==> Applied(t.shape, a, es) == Some(t.State()))
              && (rc == 0 <==> Applied(t.shape, a, es).Some?)
              && (rc != 0 ==> FirstFailure(t.shape, a, es, -rc))
              && (rc != 0 ==> t.State() == RolledBack(t.shape, a, es[..-rc - 1]))
              && (rc != 0 ==> (t.State() == a <==> AllReturn(t.shape, a, es[..-rc - 1])))
    ensures t.isLoaded && !t.adopted && !otherFlags && !reverse ==>
              var a := old(t.State());
              && (rc == 0 ==> Applied(t.shape, a, diff) == Some(t.State()))
              && (rc != 0 ==> FirstFailure(t.shape, a, diff, -rc))
              && (rc != 0 ==> t.State() == RolledBack(t.shape, a, diff[..-rc - 1]))
    ensures t.isLoaded && !t.adopted && !otherFlags && reverse ==>
              BackwardsTo(t.shape, old(t.State()), diff, -rc, t.State())
  {
    if !t.isLoaded || t.adopted || otherFlags {
      return -1;
    }
    rc := ApplyLoaded(t, diff, reverse);
  }

  method ApplyLoaded(t: Topology, diff: seq<Entry>, reverse: bool) returns (rc: int)
    requires t.Valid()
    modifies t.repr
    ensures rc == 0 ==> Applied(t.shape, old(t.State()), OrientAll(diff, reverse)) == Some(t.State())
    ensures rc == 0 <==> Applied(t.shape, old(t.State()), OrientAll(diff, reverse)).Some?
    ensures rc != 0 ==> FirstFailure(t.shape, old(t.State()), OrientAll(diff, reverse), -rc)
    ensures rc != 0 ==> t.State() == RolledBack(t.shape, old(t.State()), OrientAll(diff, reverse)[..-rc - 1])
    ensures rc != 0 ==>
              (t.State() == old(t.State()) <==>
               AllReturn(t.shape, old(t.State()), OrientAll(diff, reverse)[..-rc - 1]))
    ensures !reverse ==> OrientAll(diff, reverse) == diff
    ensures reverse ==> BackwardsTo(t.shape, old(t.State()), diff, -rc, t.State())
  {
    rc := ApplyAll(t, diff, reverse);
    ApplyEnds(t.shape, old(t.State()), diff, reverse, rc, t.State());
  }

  lemma ApplyEnds(sh: Shape, a: seq<Attrs>, diff: seq<Entry>, reverse: bool, rc: int, b: seq<Attrs>)
    requires WellShaped(sh) && |a| == |sh.parents|
    requires rc == 0 ==> Applied(sh, a, OrientAll(diff, reverse)) == Some(b)
    requires rc != 0 ==> FirstFailure(sh, a, OrientAll(diff, reverse), -rc)
    requires rc != 0 ==> b == RolledBack(sh, a, OrientAll(diff, reverse)[..-rc - 1])
    ensures rc != 0 ==> (b == a <==> AllReturn(sh, a, OrientAll(diff, reverse)[..-rc - 1]))
    ensures !reverse ==> OrientAll(diff, reverse) == diff
    ensures reverse ==> BackwardsTo(sh, a, diff, -rc, b)
  {
    if !reverse {
      assert OrientAll(diff, reverse) == diff;
    } else {
      assert OrientAll(diff, reverse) == FlipAll(diff);
      if rc == 0 {
        BackwardsAll(sh, a, diff);
      } else {
        BackwardsUntil(sh, a, diff, -rc);
      }
    }
    if rc != 0 {
      RolledBackExactly(sh, a, OrientAll(diff, reverse)[..-rc - 1]);
    }
  }

  method ApplyAll(t: Topology, diff: seq<Entry>, reverse: bool) returns (rc: int)
    requires t.Valid()
    modifies t.repr
    ensures var es, a := OrientAll(diff, reverse), old(t.State());
            && (rc == 0 ==> Applied(t.shape, a, es) == Some(t.State()))
            && (rc == 0 <==> Applied(t.shape, a, es).Some?)
            && (rc != 0 ==> FirstFailure(t.shape, a, es, -rc))
            && (rc != 0 ==> t.State() == RolledBack(t.shape, a, es[..-rc - 1]))
  {
    ghost var es, a := OrientAll(diff, reverse), t.State();
    ghost var now := a;
    var nr := 0;
    while nr < |diff|
      invariant nr <= |diff| && now == t.State() && Applied(t.shape, a, es[..nr]) == Some(now)
    {
      AppliedOneMore(t.shape, a, es, nr, now);
      var ok := ApplyOne(t, diff[nr], reverse);
      if !ok {
        AppliedPrefix(t.shape, a, es, nr + 1);
        assert FirstFailure(t.shape, a, es, nr + 1);
        Cancel(t, diff, nr, reverse);
        return -(nr + 1);
      }
      now := Step(t.shape, now, es[nr]);
      nr := nr + 1;
    }
    assert es[..nr] == es;
    return 0;
  }

  /** Entry number nr, from 1, is the first that does not fit when its turn comes. */
  ghost predicate FirstFailure(sh: Shape, a: seq<Attrs>, es: seq<Entry>, nr: int) {
    && WellShaped(sh) && |a| == |sh.parents| && 1 <= nr <= |es|
    && Applied(sh, a, es[..nr - 1]).Some?
    && !CanStep(sh, Applied(sh, a, es[..nr - 1]).value, es[nr - 1])
  }
}
