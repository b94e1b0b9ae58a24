/** Differences between two topologies, applied entry by entry (src/hwloc/hwloc/diff.c): what an entry
    does, what undoes it, and what it leaves alone. */
module DiffTheory {
  const MODULUS: int := 0x1_0000_0000_0000_0000

  type U64 = x: nat | x < MODULUS

  datatype Option<T> = None | Some(value: T)

  datatype Info = Info(name: string, value: string)

  /** What entries can change in an object. */
  datatype Attrs = Attrs(local: U64, total: U64, name: Option<string>, infos: seq<Info>)

  datatype Change =
    | Size(was: U64, becomes: U64)
    | Rename(before: string, after: string)
    | InfoValue(name: string, from: string, to: string)
    | OtherChange

  datatype Entry = ObjAttr(depth: int, index: nat, change: Change) | OtherEntry

  /** The objects, parents before children (-1 is the parent of the root), and where to find them. */
  datatype Shape = Shape(parents: seq<int>, numa: seq<bool>, at: map<(int, nat), nat>)

  predicate WellShaped(sh: Shape) {
    && |sh.numa| == |sh.parents|
    && (forall k :: 0 <= k < |sh.parents| ==> -1 <= sh.parents[k] < k)
    && (forall a :: a in sh.at ==> sh.at[a] < |sh.parents|)
  }

  /** x is k or one of its ancestors. */
  predicate Above(sh: Shape, x: nat, k: nat)
    requires WellShaped(sh) && k < |sh.parents|
    decreases k
  {
    x == k || (sh.parents[k] >= 0 && Above(sh, x, sh.parents[k]))
  }

  /** The entry the other way round. */
  function Flip(e: Entry): Entry {
    if e.OtherEntry? then e
    else if e.change.Size? then e.(change := Size(e.change.becomes, e.change.was))
    else if e.change.Rename? then e.(change := Rename(e.change.after, e.change.before))
    else if e.change.InfoValue? then e.(change := InfoValue(e.change.name, e.change.to, e.change.from))
    else e
  }

  function Oriented(e: Entry, reverse: bool): Entry {
    if reverse then Flip(e) else e
  }

  lemma FlipTwice(e: Entry, reverse: bool)
    ensures Flip(Oriented(e, reverse)) == Oriented(e, !reverse)
  {
  }

  /** The first info of that name and value. */
  function Find(infos: seq<Info>, name: string, value: string): (i: nat)
    ensures i <= |infos|
    ensures i < |infos| ==> infos[i] == Info(name, value)
    ensures forall j :: 0 <= j < i ==> infos[j] != Info(name, value)
  {
    if infos == [] || infos[0] == Info(name, value) then 0 else 1 + Find(infos[1..], name, value)
  }

  predicate Addresses(sh: Shape, e: Entry) {
    e.ObjAttr? && (e.depth, e.index) in sh.at
  }

  function Target(sh: Shape, e: Entry): nat
    requires Addresses(sh, e)
  {
    sh.at[(e.depth, e.index)]
  }

  /** Whether object k is as the entry says. */
  predicate Fits(numa: bool, v: Attrs, change: Change) {
    match change
    case Size(was, _) => numa && v.local == was
    case Rename(was, _) => v.name == Some(was)
    case InfoValue(name, from, _) => Find(v.infos, name, from) < |v.infos|
    case OtherChange => false
  }

  function Plus(a: U64, b: int): U64 {
    (a + b) % MODULUS
  }

  /** The addressed object, and for a size those above it. */
  function Changed(v: Attrs, change: Change, isTarget: bool, isAbove: bool): Attrs {
    match change
    case Size(was, becomes) =>
      v.(local := if isTarget then becomes else v.local,
      total := if isAbove then Plus(v.total, becomes - was) else v.total)
    case Rename(_, becomes) => if isTarget then v.(name := Some(becomes)) else v
    case InfoValue(name, from, to) =>
      var i := Find(v.infos, name, from);
      if isTarget && i < |v.infos| then v.(infos := v.infos[i := Info(name, to)]) else v
    case OtherChange => v
  }

  predicate CanStep(sh: Shape, a: seq<Attrs>, e: Entry)
    requires WellShaped(sh) && |a| == |sh.parents|
  {
    Addresses(sh, e) && Fits(sh.numa[Target(sh, e)], a[Target(sh, e)], e.change)
  }

  function StepAt(sh: Shape, v: Attrs, e: Entry, x: nat): Attrs
    requires WellShaped(sh) && x < |sh.parents| && Addresses(sh, e)
  {
    Changed(v, e.change, x == Target(sh, e), Above(sh, x, Target(sh, e)))
  }

  function Step(sh: Shape, a: seq<Attrs>, e: Entry): (b: seq<Attrs>)
    requires WellShaped(sh) && |a| == |sh.parents| && CanStep(sh, a, e)
    ensures |b| == |a| && forall x :: 0 <= x < |a| ==> b[x] == StepAt(sh, a[x], e, x)
  {
    seq(|a|, x requires 0 <= x < |a| => StepAt(sh, a[x], e, x))
  }

  // ----- One entry.

  predicate UniqueNames(infos: seq<Info>) {
    forall i, j :: 0 <= i < j < |infos| ==> infos[i].name != infos[j].name
  }

  predicate AllUnique(a: seq<Attrs>) {
    forall x :: 0 <= x < |a| ==> UniqueNames(a[x].infos)
  }

  lemma FindInUpdated(infos: seq<Info>, i: nat, value: string, name: string, other: string)
    requires i < |infos| && infos[i].name != name
    ensures Find(infos[i := infos[i].(value := value)], name, other) == Find(infos, name, other)
  {
    var after := infos[i := infos[i].(value := value)];
    assert forall k :: 0 <= k < |infos| ==> (after[k] == Info(name, other) <==> infos[k] == Info(name, other));
  }

  lemma PlusBack(a: U64, d: int)
    requires -MODULUS < d < MODULUS
    ensures Plus(Plus(a, d), -d) == a
  {
    var b := a + d;
    assert Plus(a, d) == if b < 0 then b + MODULUS else if b >= MODULUS then b - MODULUS else b;
  }

  lemma PlusCommutes(a: U64, d: int, e: int)
    requires -MODULUS < d < MODULUS && -MODULUS < e < MODULUS
    ensures Plus(Plus(a, d), e) == Plus(Plus(a, e), d)
  {
    var b, c := a + d, a + e;
    assert Plus(a, d) == if b < 0 then b + MODULUS else if b >= MODULUS then b - MODULUS else b;
    assert Plus(a, e) == if c < 0 then c + MODULUS else if c >= MODULUS then c - MODULUS else c;
  }

  /** No info before the one that changes is already as that one becomes. */
  predicate FoundAgain(infos: seq<Info>, change: Change) {
    change.InfoValue? ==> Info(change.name, change.to) !in infos[..Find(infos, change.name, change.from)]
  }

  lemma InfoFoundAgain(infos: seq<Info>, name: string, from: string, to: string)
    requires Find(infos, name, from) < |infos|
    ensures var i := Find(infos, name, from);
            var after := infos[i := Info(name, to)];
            var j := Find(after, name, to);
            j < |after| && (after[j := Info(name, from)] == infos <==> Info(name, to) !in infos[..i])
  {
    var i := Find(infos, name, from);
    var after := infos[i := Info(name, to)];
    var j := Find(after, name, to);
    if Info(name, to) in infos[..i] {
      var k :| 0 <= k < i && infos[k] == Info(name, to);
      assert after[k] == Info(name, to) && j <= k;
      assert infos[j] == after[j] == Info(name, to);
    } else {
      assert after[i] == Info(name, to) && forall k :: 0 <= k < i ==> infos[..i][k] == after[k];
    }
  }

  lemma ChangedBack(v: Attrs, change: Change, flipped: Change, numa: bool, isTarget: bool, isAbove: bool)
    requires isTarget ==> Fits(numa, v, change)
    requires ObjAttr(0, 0, flipped) == Flip(ObjAttr(0, 0, change))
    ensures Changed(Changed(v, change, isTarget, isAbove), flipped, isTarget, isAbove) == v <==>
            (isTarget ==> FoundAgain(v.infos, change))
    ensures isTarget ==> Fits(numa, Changed(v, change, isTarget, isAbove), flipped)
  {
    if change.Size? {
      PlusBack(v.total, change.becomes - change.was);
    } else if change.InfoValue? && isTarget {
      InfoFoundAgain(v.infos, change.name, change.from, change.to);
    }
  }

  /** Undoing what was just done succeeds, and restores everything if and only if an info that changed is
      found again. */
  lemma StepUndoneExactly(sh: Shape, a: seq<Attrs>, e: Entry)
    requires WellShaped(sh) && |a| == |sh.parents| && CanStep(sh, a, e)
    ensures CanStep(sh, Step(sh, a, e), Flip(e))
    ensures Step(sh, Step(sh, a, e), Flip(e)) == a <==> FoundAgain(a[Target(sh, e)].infos, e.change)
  {
    var b, k := Step(sh, a, e), Target(sh, e);
    assert Addresses(sh, Flip(e)) && Target(sh, Flip(e)) == k;
    forall x | 0 <= x < |a|
      ensures StepAt(sh, b[x], Flip(e), x) == a[x] <==> (x == k ==> FoundAgain(a[k].infos, e.change))
    {
      ChangedBack(a[x], e.change, Flip(e).change, sh.numa[x], x == k, Above(sh, x, k));
    }
    ChangedBack(a[k], e.change, Flip(e).change, sh.numa[k], true, true);
    var c := Step(sh, b, Flip(e));
    assert c == a <==> forall x :: 0 <= x < |a| ==> c[x] == a[x];
  }

  /** So it always does where the infos of an object have different names. */
  lemma StepUndone(sh: Shape, a: seq<Attrs>, e: Entry)
    requires WellShaped(sh) && |a| == |sh.parents| && AllUnique(a) && CanStep(sh, a, e)
    ensures CanStep(sh, Step(sh, a, e), Flip(e)) && Step(sh, Step(sh, a, e), Flip(e)) == a
  {
    StepUndoneExactly(sh, a, e);
    var infos := a[Target(sh, e)].infos;
    assert UniqueNames(infos);
  }

  // ----- Two entries.

  /** They change different attributes: of different objects, of different kinds, or infos of different names. */
  predicate Distinct(sh: Shape, e: Entry, f: Entry) {
    Addresses(sh, e) && Addresses(sh, f) && Target(sh, e) == Target(sh, f) ==> DifferentAttributes(e.change, f.change)
  }

  predicate DifferentAttributes(c: Change, d: Change) {
    match c
    case Size(_, _) => !d.Size?
    case Rename(_, _) => !d.Rename?
    case InfoValue(name, _, _) => !d.InfoValue? || d.name != name
    case OtherChange => true
  }

  /** The one does not matter to whether the other fits. */
  lemma FitsStill(v: Attrs, c: Change, d: Change, numa: bool, isTarget: bool, isAbove: bool)
    requires isTarget ==> DifferentAttributes(c, d)
    ensures Fits(numa, Changed(v, c, isTarget, isAbove), d) == Fits(numa, v, d)
  {
    if isTarget && c.InfoValue? && d.InfoValue? {
      var i := Find(v.infos, c.name, c.from);
      if i < |v.infos| {
        FindInUpdated(v.infos, i, c.to, d.name, d.from);
      }
    }
  }

  lemma ChangedCommutes(v: Attrs, c: Change, ct: bool, ca: bool, d: Change, dt: bool, da: bool)
    requires ct && dt ==> DifferentAttributes(c, d)
    ensures Changed(Changed(v, c, ct, ca), d, dt, da) == Changed(Changed(v, d, dt, da), c, ct, ca)
  {
    if c.Size? && d.Size? {
      PlusCommutes(v.total, c.becomes - c.was, d.becomes - d.was);
    } else if c.InfoValue? && d.InfoValue? && ct && dt {
      var i, j := Find(v.infos, c.name, c.from), Find(v.infos, d.name, d.from);
      if i < |v.infos| {
        FindInUpdated(v.infos, i, c.to, d.name, d.from);
      }
      if j < |v.infos| {
        FindInUpdated(v.infos, j, d.to, c.name, c.from);
      }
    }
  }

  /** Two entries for different attributes can be applied in either order. */
  lemma StepsCommute(sh: Shape, a: seq<Attrs>, e: Entry, f: Entry)
    requires WellShaped(sh) && |a| == |sh.parents| && Distinct(sh, e, f)
    requires CanStep(sh, a, e) && CanStep(sh, Step(sh, a, e), f)
    ensures CanStep(sh, a, f) && CanStep(sh, Step(sh, a, f), e)
    ensures Step(sh, Step(sh, a, f), e) == Step(sh, Step(sh, a, e), f)
  {
    var k, l := Target(sh, e), Target(sh, f);
    FitsStill(a[l], e.change, f.change, sh.numa[l], l == k, Above(sh, l, k));
    DifferentIsSymmetric(e.change, f.change);
    FitsStill(a[k], f.change, e.change, sh.numa[k], k == l, Above(sh, k, l));
    forall x | 0 <= x < |a|
      ensures StepAt(sh, StepAt(sh, a[x], e, x), f, x) == StepAt(sh, StepAt(sh, a[x], f, x), e, x)
    {
      ChangedCommutes(a[x], e.change, x == k, Above(sh, x, k), f.change, x == l, Above(sh, x, l));
    }
  }

  lemma DifferentIsSymmetric(c: Change, d: Change)
    ensures !c.OtherChange? && !d.OtherChange? ==> (DifferentAttributes(c, d) <==> DifferentAttributes(d, c))
    ensures d.OtherChange? ==> DifferentAttributes(c, d)
  {
  }

  // ----- Lists of entries.

  /** All entries in turn, if each fits when its turn comes. */
  function Applied(sh: Shape, a: seq<Attrs>, es: seq<Entry>): (r: Option<seq<Attrs>>)
    requires WellShaped(sh) && |a| == |sh.parents|
    ensures r.Some? ==> |r.value| == |a|
    decreases |es|
  {
    if es == [] then Some(a)
    else if CanStep(sh, a, es[0]) then Applied(sh, Step(sh, a, es[0]), es[1..])
    else None
  }

  lemma {:induction false} AppliedOneMore(sh: Shape, a: seq<Attrs>, es: seq<Entry>, n: nat, b: seq<Attrs>)
    requires WellShaped(sh) && |a| == |sh.parents| && n < |es| && Applied(sh, a, es[..n]) == Some(b)
    ensures |b| == |a|
    ensures Applied(sh, a, es[..n + 1]) == if CanStep(sh, b, es[n]) then Some(Step(sh, b, es[n])) else None
    decreases n
  {
    if n == 0 {
      assert es[..1][1..] == [];
    } else {
      assert es[..n][1..] == es[1..][..n - 1] && es[..n + 1][1..] == es[1..][..n];
      AppliedOneMore(sh, Step(sh, a, es[0]), es[1..], n - 1, b);
    }
  }

  lemma {:induction false} AppliedPrefix(sh: Shape, a: seq<Attrs>, es: seq<Entry>, n: nat)
    requires WellShaped(sh) && |a| == |sh.parents| && n <= |es| && Applied(sh, a, es[..n]) == None
    ensures Applied(sh, a, es) == None
    decreases n
  {
    if n > 0 && CanStep(sh, a, es[0]) {
      assert es[..n][1..] == es[1..][..n - 1];
      AppliedPrefix(sh, Step(sh, a, es[0]), es[1..], n - 1);
    }
  }

  /** The new state, unless the entry does not fit: then the old one. */
  function StateAfter(sh: Shape, a: seq<Attrs>, e: Entry): (b: seq<Attrs>)
    requires WellShaped(sh) && |a| == |sh.parents|
    ensures |b| == |a|
  {
    if CanStep(sh, a, e) then Step(sh, a, e) else a
  }

  /** Undoing the entries es, first one first, as far as each fits when its turn comes. */
  function Undone(sh: Shape, a: seq<Attrs>, es: seq<Entry>): (b: seq<Attrs>)
    requires WellShaped(sh) && |a| == |sh.parents|
    ensures |b| == |a|
  {
    if es == [] then a else StateAfter(sh, Undone(sh, a, es[..|es| - 1]), Flip(es[|es| - 1]))
  }

  function FlipAll(es: seq<Entry>): (fs: seq<Entry>)
    ensures |fs| == |es| && forall i :: 0 <= i < |es| ==> fs[i] == Flip(es[i])
  {
    seq(|es|, i requires 0 <= i < |es| => Flip(es[i]))
  }

  function OrientAll(es: seq<Entry>, reverse: bool): (fs: seq<Entry>)
    ensures |fs| == |es| && forall i :: 0 <= i < |es| ==> fs[i] == Oriented(es[i], reverse)
  {
    seq(|es|, i requires 0 <= i < |es| => Oriented(es[i], reverse))
  }

  predicate PairwiseDistinct(sh: Shape, es: seq<Entry>) {
    forall i, j :: 0 <= i < j < |es| ==> Distinct(sh, es[i], es[j])
  }

  // ----- Total memory.

  /** The local memory at x and below, over the first n objects. */
  function MemoryBelow(sh: Shape, a: seq<Attrs>, x: nat, n: nat): nat
    requires WellShaped(sh) && n <= |a| == |sh.parents|
  {
    if n == 0 then 0 else MemoryBelow(sh, a, x, n - 1) + if Above(sh, x, n - 1) then a[n - 1].local else 0
  }

  ghost predicate TotalsRight(sh: Shape, a: seq<Attrs>)
    requires WellShaped(sh) && |a| == |sh.parents|
  {
    forall x :: 0 <= x < |a| ==> a[x].total == MemoryBelow(sh, a, x, |a|) % 0x1_0000_0000_0000_0000
  }

  lemma {:induction false} MemoryAfter(sh: Shape, a: seq<Attrs>, e: Entry, x: nat, n: nat)
    requires WellShaped(sh) && n <= |a| == |sh.parents| && CanStep(sh, a, e)
    ensures MemoryBelow(sh, Step(sh, a, e), x, n) ==
            MemoryBelow(sh, a, x, n) +
            if e.change.Size? && Target(sh, e) < n && Above(sh, x, Target(sh, e)) then e.change.becomes - e.change.was
            else 0
  {
    if n > 0 {
      MemoryAfter(sh, a, e, x, n - 1);
    }
  }

  lemma PlusMod(a: int, d: int)
    ensures ((a % MODULUS) + d) % MODULUS == (a + d) % MODULUS
  {
    var q := a / MODULUS;
    assert a == MODULUS * q + a % MODULUS;
    var b := a % MODULUS + d;
    assert a + d == MODULUS * q + b;
    assert b == MODULUS * (b / MODULUS) + b % MODULUS;
  }

  /** Each object's total stays the sum of the local memories below it, modulo 2^64. */
  lemma StepKeepsTotals(sh: Shape, a: seq<Attrs>, e: Entry)
    requires WellShaped(sh) && |a| == |sh.parents| && TotalsRight(sh, a) && CanStep(sh, a, e)
    ensures TotalsRight(sh, Step(sh, a, e))
  {
    var b := Step(sh, a, e);
    forall x | 0 <= x < |a| ensures b[x].total == MemoryBelow(sh, b, x, |b|) % MODULUS {
      MemoryAfter(sh, a, e, x, |a|);
      if e.change.Size? {
        PlusMod(MemoryBelow(sh, a, x, |a|), e.change.becomes - e.change.was);
      }
    }
  }

  lemma {:induction false} AppliedKeepsTotals(sh: Shape, a: seq<Attrs>, es: seq<Entry>)
    requires WellShaped(sh) && |a| == |sh.parents| && TotalsRight(sh, a) && Applied(sh, a, es).Some?
    ensures TotalsRight(sh, Applied(sh, a, es).value)
    decreases |es|
  {
    if es != [] {
      StepKeepsTotals(sh, a, es[0]);
      AppliedKeepsTotals(sh, Step(sh, a, es[0]), es[1..]);
    }
  }
}
