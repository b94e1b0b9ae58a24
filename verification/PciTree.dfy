/** PCI objects ordered by bus id and nested by bus range: what inserting them one by one builds, and
    what looking a bus id up finds (src/hwloc/hwloc/pci-common.c). */
module PciTree {
  /** A PCI device or PCI-to-PCI bridge (the pcidev and bridge attributes of struct hwloc_obj), with the
      pointers that place it in the tree. */
  class PciObj {
    const domain: nat
    const bus: nat
    const dev: nat
    const func: nat
    const isBridge: bool
    const secondary: nat
    const subordinate: nat
    var parent: PciObj?
    var nextSibling: PciObj?
    var ioFirstChild: PciObj?

    constructor (domain: nat, bus: nat, dev: nat, func: nat, isBridge: bool, secondary: nat, subordinate: nat)
      ensures parent == null && nextSibling == null && ioFirstChild == null
    {
      this.domain, this.bus, this.dev, this.func := domain, bus, dev, func;
      this.isBridge, this.secondary, this.subordinate := isBridge, secondary, subordinate;
      parent, nextSibling, ioFirstChild := null, null, null;
    }
  }

  datatype Comparison = LOWER | HIGHER | INCLUDED | SUPERSET | EQUAL

  predicate Contains(b: PciObj, domain: nat, bus: nat) {
    b.isBridge && b.domain == domain && b.secondary <= bus <= b.subordinate
  }

  /** x's bus is in b's range. */
  predicate Below(x: PciObj, b: PciObj) {
    Contains(b, x.domain, x.bus)
  }

  /** hwloc_pci_compare_busids. */
  function CompareBusids(a: PciObj, b: PciObj): Comparison {
    if a.domain < b.domain then LOWER
    else if a.domain > b.domain then HIGHER
    else if Below(b, a) then SUPERSET
    else if Below(a, b) then INCLUDED
    else if a.bus < b.bus then LOWER
    else if a.bus > b.bus then HIGHER
    else if a.dev < b.dev then LOWER
    else if a.dev > b.dev then HIGHER
    else if a.func < b.func then LOWER
    else if a.func > b.func then HIGHER
    else EQUAL
  }

  datatype Tree = Node(obj: PciObj, kids: seq<Tree>)

  ghost function Objs(f: seq<Tree>): set<PciObj> {
    if f == [] then {} else {f[0].obj} + Objs(f[0].kids) + Objs(f[1..])
  }

  /** hwloc_pci_add_object on the list of siblings f. */
  function Add(f: seq<Tree>, added: PciObj): seq<Tree> {
    if f == [] then [Node(added, [])]
    else match CompareBusids(added, f[0].obj)
         case HIGHER => [f[0]] + Add(f[1..], added)
         case INCLUDED => [Node(f[0].obj, Add(f[0].kids, added))] + f[1..]
         case EQUAL => f
         case _ =>
           if added.isBridge then
             var (kept, moved) := Sweep(f, added);
             [Node(added, moved)] + kept
           else [Node(added, [])] + f
  }

  /** The siblings after a new bridge: those that stay and those that move below it. */
  function Sweep(f: seq<Tree>, added: PciObj): (seq<Tree>, seq<Tree>) {
    if f == [] then ([], [])
    else if CompareBusids(added, f[0].obj) == LOWER then
      if f[0].obj.domain > added.domain || f[0].obj.bus > added.subordinate then (f, [])
      else var (kept, moved) := Sweep(f[1..], added); ([f[0]] + kept, moved)
    else var (kept, moved) := Sweep(f[1..], added); (kept, [f[0]] + moved)
  }

  function AddAll(f: seq<Tree>, s: seq<PciObj>): seq<Tree>
    decreases s
  {
    if s == [] then f else AddAll(Add(f, s[0]), s[1..])
  }

  // ----- Well-formed sets of objects.

  /** The lexicographic order of bus ids. */
  predicate IdLess(a: PciObj, b: PciObj) {
    a.domain < b.domain || (a.domain == b.domain &&
                            (a.bus < b.bus || (a.bus == b.bus &&
                                               (a.dev < b.dev || (a.dev == b.dev && a.func < b.func)))))
  }

  ghost predicate DistinctIds(s: set<PciObj>) {
    forall a, b :: a in s && b in s && a != b ==> IdLess(a, b) || IdLess(b, a)
  }

  /** A bridge leads to higher buses: what the source checks when it reads a range. */
  ghost predicate LeadOn(s: set<PciObj>) {
    forall b :: b in s && b.isBridge ==> b.bus < b.secondary <= b.subordinate
  }

  ghost predicate Consistent(s: set<PciObj>) {
    DistinctIds(s) && LeadOn(s)
  }

  /** Of two bridges that hold a bus, one lies in the other's range. */
  ghost predicate Decided(s: set<PciObj>, domain: nat, bus: nat) {
    forall b, c :: b in s && c in s && b != c && Contains(b, domain, bus) && Contains(c, domain, bus) ==>
                     Below(b, c) || Below(c, b)
  }

  /** A bridge in another's range holds the bus only if that does. */
  ghost predicate Closed(s: set<PciObj>, domain: nat, bus: nat) {
    forall b, c :: b in s && c in s && Below(b, c) && Contains(b, domain, bus) ==> Contains(c, domain, bus)
  }

  /** That is so for the bus of every object. What ranges do on buses that nobody uses does not matter. */
  ghost predicate Nested(s: set<PciObj>) {
    forall x :: x in s ==> Decided(s, x.domain, x.bus)
  }

  ghost predicate Transitive(s: set<PciObj>) {
    forall x :: x in s ==> Closed(s, x.domain, x.bus)
  }

  ghost predicate Coherent(s: set<PciObj>) {
    Consistent(s) && Transitive(s)
  }

  ghost predicate WellFormed(s: set<PciObj>) {
    Coherent(s) && Nested(s)
  }

  lemma BelowTransitive(s: set<PciObj>, x: PciObj, b: PciObj, c: PciObj)
    requires Transitive(s) && x in s && b in s && c in s && Below(x, b) && Below(b, c)
    ensures Below(x, c)
  {
    assert Closed(s, x.domain, x.bus);
  }

  /** On a consistent set, the comparison's five answers. */
  lemma Comparisons(s: set<PciObj>, a: PciObj, b: PciObj)
    requires Consistent(s) && a in s && b in s && a != b
    ensures CompareBusids(a, b) == SUPERSET <==> Below(b, a)
    ensures CompareBusids(a, b) == INCLUDED <==> Below(a, b)
    ensures CompareBusids(a, b) == LOWER <==> IdLess(a, b) && !Below(b, a)
    ensures CompareBusids(a, b) == HIGHER <==> IdLess(b, a) && !Below(a, b)
    ensures Below(a, b) ==> IdLess(b, a)
  {
    assert IdLess(a, b) || IdLess(b, a);
  }

  // ----- What insertion keeps.

  /** Siblings strictly increase and none lies in another's range; everything below a node is in its
      range. */
  ghost predicate Ordered(f: seq<Tree>) {
    && (forall i, j :: 0 <= i < j < |f| ==> Before(f[i].obj, f[j].obj))
    && (forall t :: t in f ==> NodeOrdered(t))
  }

  ghost predicate NodeOrdered(t: Tree) {
    AllBelow(t.kids, t.obj) && Ordered(t.kids)
  }

  /** a may stand before b among siblings. */
  predicate Before(a: PciObj, b: PciObj) {
    IdLess(a, b) && !Below(a, b) && !Below(b, a)
  }

  ghost predicate AllBelow(f: seq<Tree>, b: PciObj) {
    forall x :: x in Objs(f) ==> Below(x, b)
  }

  lemma {:induction false} ObjsAppend(f: seq<Tree>, g: seq<Tree>)
    ensures Objs(f + g) == Objs(f) + Objs(g)
  {
    if f == [] {
      assert f + g == g;
    } else {
      assert (f + g)[1..] == f[1..] + g;
      ObjsAppend(f[1..], g);
    }
  }

  lemma {:induction false} ObjsAt(f: seq<Tree>, i: nat)
    requires i < |f|
    ensures f[i].obj in Objs(f) && Objs(f[i].kids) <= Objs(f)
  {
    if i > 0 {
      ObjsAt(f[1..], i - 1);
    }
  }

  lemma {:induction false} ObjsWhere(f: seq<Tree>, x: PciObj) returns (i: nat)
    requires x in Objs(f)
    ensures i < |f| && (x == f[i].obj || x in Objs(f[i].kids))
  {
    if x == f[0].obj || x in Objs(f[0].kids) {
      i := 0;
    } else {
      i := ObjsWhere(f[1..], x);
      i := i + 1;
    }
  }

  lemma OrderedCons(t: Tree, f: seq<Tree>)
    requires Ordered(f) && NodeOrdered(t)
    requires forall i :: 0 <= i < |f| ==> Before(t.obj, f[i].obj)
    ensures Ordered([t] + f)
  {
  }

  lemma OrderedTail(f: seq<Tree>)
    requires Ordered(f) && f != []
    ensures Ordered(f[1..]) && NodeOrdered(f[0])
    ensures forall i :: 0 <= i < |f[1..]| ==> Before(f[0].obj, f[1..][i].obj)
  {
    assert f[0] in f;
  }

  /** The sweep stops early without missing a sibling in the new bridge's range. */
  lemma {:induction false} SweepMembers(s: set<PciObj>, f: seq<Tree>, added: PciObj)
    requires Consistent(s) && Objs(f) <= s && added in s && added !in Objs(f) && added.isBridge
    requires Ordered(f)
    requires forall i :: 0 <= i < |f| ==> IdLess(added, f[i].obj)
    ensures forall t :: t in Sweep(f, added).0 ==> t in f && !Below(t.obj, added)
    ensures forall t :: t in Sweep(f, added).1 ==> t in f && Below(t.obj, added)
  {
    if f != [] {
      assert f[0].obj in Objs(f);
      Comparisons(s, added, f[0].obj);
      OrderedTail(f);
      if CompareBusids(added, f[0].obj) == LOWER &&
         (f[0].obj.domain > added.domain || f[0].obj.bus > added.subordinate) {
        forall t | t in f ensures !Below(t.obj, added) {
          var i :| 0 <= i < |f| && f[i] == t;
          assert i > 0 ==> IdLess(f[0].obj, f[i].obj);
        }
      } else {
        SweepMembers(s, f[1..], added);
      }
    }
  }

  lemma {:induction false} SweepOrdered(f: seq<Tree>, added: PciObj)
    requires Ordered(f)
    ensures Ordered(Sweep(f, added).0) && Ordered(Sweep(f, added).1)
    ensures forall t :: t in Sweep(f, added).0 ==> t in f
    ensures forall t :: t in Sweep(f, added).1 ==> t in f
    ensures Objs(Sweep(f, added).0) + Objs(Sweep(f, added).1) == Objs(f)
  {
    if f != [] {
      OrderedTail(f);
      SweepOrdered(f[1..], added);
      var kept, moved := Sweep(f[1..], added).0, Sweep(f[1..], added).1;
      forall i | 0 <= i < |kept| ensures Before(f[0].obj, kept[i].obj) {
        assert kept[i] in kept && kept[i] in f[1..];
      }
      forall i | 0 <= i < |moved| ensures Before(f[0].obj, moved[i].obj) {
        assert moved[i] in moved && moved[i] in f[1..];
      }
      OrderedCons(f[0], kept);
      OrderedCons(f[0], moved);
      ObjsAppend([f[0]], kept);
      ObjsAppend([f[0]], moved);
    }
  }

  /** A sibling of Add's result is the new object, or stood in its place before. */
  lemma {:induction false} AddRoots(f: seq<Tree>, added: PciObj, i: nat)
    requires i < |Add(f, added)|
    ensures Add(f, added)[i].obj == added || exists j :: 0 <= j < |f| && f[j].obj == Add(f, added)[i].obj
  {
    if f != [] {
      match CompareBusids(added, f[0].obj)
      case HIGHER =>
        if i > 0 {
          AddRoots(f[1..], added, i - 1);
          if j :| 0 <= j < |f[1..]| && f[1..][j].obj == Add(f[1..], added)[i - 1].obj {
            assert f[j + 1].obj == Add(f, added)[i].obj;
          }
        }
      case INCLUDED =>
        assert Add(f, added)[i].obj == f[i].obj;
      case EQUAL =>
      case _ =>
        if added.isBridge && i > 0 {
          SweepKeeps(f, added, i - 1);
        } else if i > 0 {
          assert Add(f, added)[i] == f[i - 1];
        }
    }
  }

  lemma {:induction false} SweepKeeps(f: seq<Tree>, added: PciObj, i: nat)
    requires i < |Sweep(f, added).0|
    ensures exists j :: 0 <= j < |f| && f[j].obj == Sweep(f, added).0[i].obj
  {
    var kept := Sweep(f[1..], added).0;
    if CompareBusids(added, f[0].obj) == LOWER {
      if f[0].obj.domain > added.domain || f[0].obj.bus > added.subordinate || i == 0 {
        assert Sweep(f, added).0[i] == f[i];
      } else {
        SweepKeeps(f[1..], added, i - 1);
        var j :| 0 <= j < |f[1..]| && f[1..][j].obj == kept[i - 1].obj;
        assert f[j + 1].obj == Sweep(f, added).0[i].obj;
      }
    } else {
      SweepKeeps(f[1..], added, i);
      var j :| 0 <= j < |f[1..]| && f[1..][j].obj == kept[i].obj;
      assert f[j + 1].obj == Sweep(f, added).0[i].obj;
    }
  }

  /** After an insertion further on, the first sibling still comes before all. */
  lemma HeadStays(f: seq<Tree>, added: PciObj)
    requires Ordered(f) && f != [] && Before(f[0].obj, added)
    requires Ordered(Add(f[1..], added)) && Objs(Add(f[1..], added)) == Objs(f[1..]) + {added}
    ensures Ordered([f[0]] + Add(f[1..], added)) && Objs([f[0]] + Add(f[1..], added)) == Objs(f) + {added}
  {
    var head, rest, g := f[0], f[1..], Add(f[1..], added);
    OrderedTail(f);
    forall i | 0 <= i < |g| ensures Before(head.obj, g[i].obj) {
      AddRoots(rest, added, i);
      if g[i].obj != added {
        var j :| 0 <= j < |rest| && rest[j].obj == g[i].obj;
        assert f[j + 1].obj == g[i].obj;
      }
    }
    OrderedCons(head, g);
    ObjsAppend([head], g);
  }

  /** The first sibling takes the new object in. */
  lemma HeadTakes(f: seq<Tree>, added: PciObj, kids: seq<Tree>)
    requires Ordered(f) && f != [] && Below(added, f[0].obj)
    requires Ordered(kids) && Objs(kids) == Objs(f[0].kids) + {added}
    ensures Ordered([Node(f[0].obj, kids)] + f[1..]) && Objs([Node(f[0].obj, kids)] + f[1..]) == Objs(f) + {added}
  {
    var t, rest := Node(f[0].obj, kids), f[1..];
    OrderedTail(f);
    OrderedCons(t, rest);
    ObjsAppend([t], rest);
  }

  /** One insertion keeps the tree ordered and adds exactly the new object. */
  lemma {:induction false} AddKeepsOrder(s: set<PciObj>, f: seq<Tree>, added: PciObj)
    requires Coherent(s) && Objs(f) <= s && added in s && added !in Objs(f)
    requires Ordered(f)
    ensures Ordered(Add(f, added)) && Objs(Add(f, added)) == Objs(f) + {added}
    decreases f
  {
    if f != [] {
      var head := f[0];
      assert head.obj in Objs(f);
      Comparisons(s, added, head.obj);
      OrderedTail(f);
      match CompareBusids(added, head.obj)
      case HIGHER =>
        AddKeepsOrder(s, f[1..], added);
        HeadStays(f, added);
      case INCLUDED =>
        AddKeepsOrder(s, head.kids, added);
        HeadTakes(f, added, Add(head.kids, added));
      case EQUAL =>
      case _ =>
        forall i | 0 <= i < |f| ensures IdLess(added, f[i].obj) {
          assert i > 0 ==> IdLess(head.obj, f[i].obj);
        }
        AddInFront(s, f, added);
    }
  }

  lemma AddInFront(s: set<PciObj>, f: seq<Tree>, added: PciObj)
    requires Coherent(s) && Objs(f) <= s && added in s && added !in Objs(f)
    requires Ordered(f) && forall i :: 0 <= i < |f| ==> IdLess(added, f[i].obj)
    ensures var (kept, moved) := if added.isBridge then Sweep(f, added) else (f, []);
            Ordered([Node(added, moved)] + kept) && Objs([Node(added, moved)] + kept) == Objs(f) + {added}
  {
    var (kept, moved) := if added.isBridge then Sweep(f, added) else (f, []);
    if added.isBridge {
      SweepMembers(s, f, added);
      SweepOrdered(f, added);
    }
    forall i | 0 <= i < |kept|
      ensures Before(added, kept[i].obj)
    {
      assert kept[i] in kept;
      var j :| 0 <= j < |f| && f[j] == kept[i];
      ObjsAt(f, j);
      Comparisons(s, added, f[j].obj);
      Comparisons(s, f[j].obj, added);
    }
    forall x | x in Objs(moved) ensures Below(x, added) {
      var i := ObjsWhere(moved, x);
      assert moved[i] in moved;
      var j :| 0 <= j < |f| && f[j] == moved[i];
      ObjsAt(f, j);
      if x != moved[i].obj {
        assert AllBelow(f[j].kids, f[j].obj);
        BelowTransitive(s, x, f[j].obj, added);
      }
    }
    OrderedCons(Node(added, moved), kept);
    ObjsAppend([Node(added, moved)], kept);
  }

  // ----- An ordered tree is determined by its objects.

  ghost predicate IsRoot(s: set<PciObj>, x: PciObj) {
    x in s && forall b :: b in s ==> !Below(x, b)
  }

  /** The siblings at the top of an ordered tree are the objects that lie in no bridge's range. */
  lemma RootsAre(s: set<PciObj>, f: seq<Tree>, i: nat, x: PciObj)
    requires Coherent(s) && Objs(f) <= s && Ordered(f) && i < |f|
    requires x == f[i].obj || x in Objs(f[i].kids)
    ensures IsRoot(Objs(f), x) <==> x == f[i].obj
  {
    ObjsAt(f, i);
    assert f[i] in f && NodeOrdered(f[i]);
    if x == f[i].obj {
      forall b | b in Objs(f) ensures !Below(x, b) {
        var j := ObjsWhere(f, b);
        ObjsAt(f, j);
        NotInSibling(s, f, i, j, b);
      }
    }
  }

  lemma NotInSibling(s: set<PciObj>, f: seq<Tree>, i: nat, j: nat, b: PciObj)
    requires Coherent(s) && Objs(f) <= s && Ordered(f) && i < |f| && j < |f|
    requires b == f[j].obj || b in Objs(f[j].kids)
    ensures !Below(f[i].obj, b)
  {
    ObjsAt(f, i);
    ObjsAt(f, j);
    assert f[j] in f && NodeOrdered(f[j]);
    assert i < j ==> Before(f[i].obj, f[j].obj);
    assert j < i ==> Before(f[j].obj, f[i].obj);
    assert Closed(s, f[i].obj.domain, f[i].obj.bus);
  }

  /** What is below the first sibling, and what is not. */
  lemma BelowFirst(s: set<PciObj>, f: seq<Tree>, x: PciObj)
    requires WellFormed(s) && Objs(f) <= s && Ordered(f) && f != [] && x in Objs(f)
    ensures x in Objs(f[0].kids) <==> Below(x, f[0].obj)
    ensures x in Objs(f[1..]) <==> x != f[0].obj && !Below(x, f[0].obj)
  {
    assert Decided(s, x.domain, x.bus);
    OrderedTail(f);
    assert f[0].obj in Objs(f);
    if x in Objs(f[1..]) {
      var j := ObjsWhere(f[1..], x);
      ObjsAt(f, j + 1);
      assert f[j + 1] in f && NodeOrdered(f[j + 1]) && Before(f[0].obj, f[j + 1].obj);
    }
  }

  /** Two ordered trees with the same objects are the same tree. */
  lemma {:induction false} Canonical(s: set<PciObj>, f: seq<Tree>, g: seq<Tree>)
    requires WellFormed(s) && Objs(f) == Objs(g) <= s && Ordered(f) && Ordered(g)
    ensures f == g
    decreases f
  {
    assert f != [] ==> f[0].obj in Objs(f);
    assert g != [] ==> g[0].obj in Objs(g);
    if f != [] {
      SameFirst(s, f, g);
      OrderedTail(f);
      OrderedTail(g);
      forall x | x in Objs(f)
        ensures x in Objs(f[0].kids) <==> x in Objs(g[0].kids)
        ensures x in Objs(f[1..]) <==> x in Objs(g[1..])
      {
        BelowFirst(s, f, x);
        BelowFirst(s, g, x);
      }
      Canonical(s, f[0].kids, g[0].kids);
      Canonical(s, f[1..], g[1..]);
      assert f == [f[0]] + f[1..] && g == [g[0]] + g[1..];
    }
  }

  lemma SameFirst(s: set<PciObj>, f: seq<Tree>, g: seq<Tree>)
    requires Coherent(s) && Objs(f) == Objs(g) <= s && Ordered(f) && Ordered(g) && f != [] && g != []
    ensures f[0].obj == g[0].obj
  {
    FirstIsRoot(s, f);
    FirstIsRoot(s, g);
    RootNotBeforeFirst(s, f, g[0].obj);
    RootNotBeforeFirst(s, g, f[0].obj);
  }

  lemma FirstIsRoot(s: set<PciObj>, f: seq<Tree>)
    requires Coherent(s) && Objs(f) <= s && Ordered(f) && f != []
    ensures IsRoot(Objs(f), f[0].obj)
  {
    RootsAre(s, f, 0, f[0].obj);
  }

  lemma RootNotBeforeFirst(s: set<PciObj>, f: seq<Tree>, x: PciObj)
    requires Coherent(s) && Objs(f) <= s && Ordered(f) && f != [] && IsRoot(Objs(f), x)
    ensures !IdLess(x, f[0].obj)
  {
    var i := ObjsWhere(f, x);
    RootsAre(s, f, i, x);
    if i > 0 {
      assert Before(f[0].obj, f[i].obj);
    }
  }

  // ----- Whole runs of insertions.

  ghost function SetOf(s: seq<PciObj>): set<PciObj> {
    set x | x in s
  }

  predicate Distinct(s: seq<PciObj>) {
    forall i, j :: 0 <= i < j < |s| ==> s[i] != s[j]
  }

  lemma {:induction false} AddAllKeepsOrder(w: set<PciObj>, f: seq<Tree>, s: seq<PciObj>)
    requires Coherent(w) && Objs(f) + SetOf(s) <= w && Objs(f) !! SetOf(s) && Distinct(s)
    requires Ordered(f)
    ensures Ordered(AddAll(f, s)) && Objs(AddAll(f, s)) == Objs(f) + SetOf(s)
    decreases s
  {
    if s != [] {
      var g := Add(f, s[0]);
      assert s[0] in SetOf(s);
      AddKeepsOrder(w, f, s[0]);
      assert SetOf(s) == {s[0]} + SetOf(s[1..]) by {
        assert s == [s[0]] + s[1..];
      }
      forall x | x in SetOf(s[1..]) ensures x != s[0] {
        var i :| 0 <= i < |s[1..]| && s[1..][i] == x;
        assert s[i + 1] == x;
      }
      AddAllKeepsOrder(w, g, s[1..]);
    }
  }

  /** Siblings everywhere go up by domain, then bus, then device, then function, and everything below a bridge is
      on a bus of its range. */
  ghost predicate InBusOrder(f: seq<Tree>) {
    && (forall i, j :: 0 <= i < j < |f| ==>
                         var a, b := f[i].obj, f[j].obj;
                         || a.domain < b.domain
                         || (a.domain == b.domain && a.bus < b.bus)
                         || (a.domain == b.domain && a.bus == b.bus && a.dev < b.dev)
                         || (a.domain == b.domain && a.bus == b.bus && a.dev == b.dev && a.func < b.func))
    && forall t :: t in f ==>
                     && InBusOrder(t.kids)
                     && forall x :: x in Objs(t.kids) ==>
                                      t.obj.isBridge && t.obj.domain == x.domain &&
                                      t.obj.secondary <= x.bus <= t.obj.subordinate
  }

  lemma {:induction false} OrderedByBus(f: seq<Tree>)
    requires Ordered(f)
    ensures InBusOrder(f)
    decreases f
  {
    forall i, j | 0 <= i < j < |f| ensures Before(f[i].obj, f[j].obj) {
    }
    forall t | t in f ensures NodeOrdered(t) && InBusOrder(t.kids) {
      OrderedByBus(t.kids);
    }
  }

  /** So it is after any run of insertions. */
  lemma InsertedInBusOrder(s: seq<PciObj>)
    requires Distinct(s) && Coherent(SetOf(s))
    ensures InBusOrder(AddAll([], s)) && Objs(AddAll([], s)) == SetOf(s)
  {
    AddAllKeepsOrder(SetOf(s), [], s);
    OrderedByBus(AddAll([], s));
  }

  /** Whatever the order in which the objects are discovered, the same tree is built. */
  lemma InsertionOrderIrrelevant(s: seq<PciObj>, s': seq<PciObj>)
    requires Distinct(s) && Distinct(s') && SetOf(s) == SetOf(s') && WellFormed(SetOf(s))
    ensures AddAll([], s) == AddAll([], s')
  {
    AddAllKeepsOrder(SetOf(s), [], s);
    AddAllKeepsOrder(SetOf(s), [], s');
    Canonical(SetOf(s), AddAll([], s), AddAll([], s'));
  }

  /** Nested ranges alone do not give that: with two sibling bridges on the same bus, the range of one
      within the other's, the order in which they come decides where a device ends up. */
  lemma OrderMattersWithoutBuses(a: PciObj, b: PciObj, x: PciObj)
    requires a.domain == b.domain == x.domain == 0
    requires a.isBridge && a.bus == 0 && a.dev == 1 && a.func == 0 && a.secondary == 1 && a.subordinate == 10
    requires b.isBridge && b.bus == 0 && b.dev == 2 && b.func == 0 && b.secondary == 2 && b.subordinate == 3
    requires !x.isBridge && x.bus == 2 && x.dev == 0 && x.func == 0
    ensures Coherent({a, b, x}) && !Nested({a, b, x})
    ensures AddAll([], [a, b, x]) == [Node(a, [Node(x, [])]), Node(b, [])]
    ensures AddAll([], [x, b, a]) == [Node(a, []), Node(b, [Node(x, [])])]
  {
    assert !Decided({a, b, x}, x.domain, x.bus);
    var na, nb, nx := Node(a, []), Node(b, []), Node(x, []);
    var bx := Node(b, [nx]);
    assert Add([], a) == [na] && Add([], x) == [nx];
    assert Add([na], b) == [na, nb] by { assert [na][1..] == [] && Add([], b) == [nb]; }
    assert Add([na, nb], x) == [Node(a, [nx]), nb] by { assert [na, nb][1..] == [nb]; }
    assert Add([nx], b) == [bx] by {
      assert CompareBusids(b, x) == SUPERSET;
      assert [nx][1..] == [] && Sweep([], b) == ([], []);
      assert [nx] + [] == [nx];
      assert Sweep([nx], b) == ([], [nx]);
    }
    assert Add([bx], a) == [na, bx] by { assert Sweep([bx], a) == ([bx], []); }
    assert [a, b, x][1..] == [b, x] && [b, x][1..] == [x] && [x, b, a][1..] == [b, a] && [b, a][1..] == [a];
    assert [x][1..] == [] && [a][1..] == [];
    assert AddAll([], [a, b, x]) == AddAll([na], [b, x]) == AddAll([na, nb], [x]) == AddAll([Node(a, [nx]), nb], []);
    assert AddAll([], [x, b, a]) == AddAll([nx], [b, a]) == AddAll([bx], [a]) == AddAll([na, bx], []);
  }

  // ----- Parents.

  /** The innermost bridge of s whose range holds a bus. */
  ghost predicate IsInnermost(s: set<PciObj>, domain: nat, bus: nat, p: PciObj) {
    p in s && Contains(p, domain, bus) && forall b :: b in s && Contains(b, domain, bus) ==> b == p || Below(p, b)
  }

  /** The node of f, itself below `above`, whose children include x. */
  ghost function ParentIn(above: PciObj?, f: seq<Tree>, x: PciObj): PciObj?
    decreases f
  {
    if f == [] then above
    else if x == f[0].obj then above
    else if x in Objs(f[0].kids) then ParentIn(f[0].obj, f[0].kids, x)
    else ParentIn(above, f[1..], x)
  }

  /** Each object hangs below the innermost bridge that holds its bus, or at the top if none does. */
  lemma {:induction false} ParentIsInnermost(s: set<PciObj>, above: PciObj?, f: seq<Tree>, x: PciObj)
    requires WellFormed(s) && Objs(f) <= s && Ordered(f) && x in Objs(f)
    ensures var p := ParentIn(above, f, x);
            if exists b :: b in Objs(f) && Below(x, b) then p != null && IsInnermost(Objs(f), x.domain, x.bus, p)
            else p == above
    decreases f
  {
    var head := f[0];
    OrderedTail(f);
    BelowFirst(s, f, x);
    assert head.obj in Objs(f);
    if x == head.obj {
      FirstIsRoot(s, f);
    } else if x in Objs(head.kids) {
      ParentIsInnermost(s, head.obj, head.kids, x);
      var p := ParentIn(head.obj, head.kids, x);
      forall b | b in Objs(f) && Below(x, b) ensures b == p || Below(p, b) {
        InnerOrFirst(s, f, x.domain, x.bus, b);
      }
    } else {
      ParentIsInnermost(s, above, f[1..], x);
      forall b | b in Objs(f) && Below(x, b) ensures b in Objs(f[1..]) {
        if b == head.obj {
        } else if b in Objs(head.kids) {
          BelowTransitive(s, x, b, head.obj);
        }
      }
    }
  }

  /** A bridge that holds a bus in the first sibling's range is that sibling or below it. */
  lemma InnerOrFirst(s: set<PciObj>, f: seq<Tree>, domain: nat, bus: nat, b: PciObj)
    requires WellFormed(s) && Objs(f) <= s && Ordered(f) && f != []
    requires Contains(f[0].obj, domain, bus) && b in Objs(f) && Contains(b, domain, bus) && Decided(s, domain, bus)
    ensures b == f[0].obj || (b in Objs(f[0].kids) && Below(b, f[0].obj))
  {
    assert f[0].obj in Objs(f);
    if b != f[0].obj {
      FirstIsRoot(s, f);
      BelowFirst(s, f, b);
    }
  }

  // ----- Lookup.

  predicate HasId(x: PciObj, domain: nat, bus: nat, dev: nat, func: nat) {
    x.domain == domain && x.bus == bus && x.dev == dev && x.func == func
  }

  /** hwloc__pci_find_by_busid, among the children f of `parent`. */
  function FindByBusid(parent: PciObj, f: seq<Tree>, domain: nat, bus: nat, dev: nat, func: nat): PciObj {
    if f == [] then parent
    else
      var child := f[0].obj;
      if HasId(child, domain, bus, dev, func) then child
      else if child.domain > domain || (child.domain == domain && child.bus > bus) then parent
      else if Contains(child, domain, bus) then FindByBusid(child, f[0].kids, domain, bus, dev, func)
      else FindByBusid(parent, f[1..], domain, bus, dev, func)
  }

  /** The first sibling has the lowest bus, so the search may give up on a higher one. */
  lemma FirstIsLowest(s: set<PciObj>, f: seq<Tree>, x: PciObj)
    requires Consistent(s) && Objs(f) <= s && Ordered(f) && x in Objs(f)
    ensures f[0].obj.domain < x.domain || (f[0].obj.domain == x.domain && f[0].obj.bus <= x.bus)
  {
    var i := ObjsWhere(f, x);
    ObjsAt(f, i);
    assert f[i] in f && NodeOrdered(f[i]);
    assert i > 0 ==> Before(f[0].obj, f[i].obj);
  }

  /** What a lookup answers, in terms of the objects alone: the object if it is there, otherwise the
      innermost bridge that holds its bus, otherwise the object the search started from. */
  ghost predicate Answers(s: set<PciObj>, parent: PciObj, domain: nat, bus: nat, dev: nat, func: nat, r: PciObj) {
    if exists x :: x in s && HasId(x, domain, bus, dev, func) then r in s && HasId(r, domain, bus, dev, func)
    else if exists b :: b in s && Contains(b, domain, bus) then IsInnermost(s, domain, bus, r)
    else r == parent
  }

  lemma {:induction false} FindAnswers(
    s: set<PciObj>, parent: PciObj, f: seq<Tree>, domain: nat, bus: nat, dev: nat, func: nat)
    requires WellFormed(s) && Objs(f) <= s && Ordered(f) && Decided(s, domain, bus) && Closed(s, domain, bus)
    ensures Answers(Objs(f), parent, domain, bus, dev, func, FindByBusid(parent, f, domain, bus, dev, func))
    decreases f
  {
    if f != [] {
      var child := f[0].obj;
      assert child in Objs(f);
      OrderedTail(f);
      if HasId(child, domain, bus, dev, func) {
      } else if child.domain > domain || (child.domain == domain && child.bus > bus) {
        forall x | x in Objs(f) ensures !HasId(x, domain, bus, dev, func) && !Contains(x, domain, bus) {
          FirstIsLowest(s, f, x);
        }
      } else if Contains(child, domain, bus) {
        FindAnswers(s, child, f[0].kids, domain, bus, dev, func);
        forall x | x in Objs(f) && HasId(x, domain, bus, dev, func) ensures x in Objs(f[0].kids) {
          BelowFirst(s, f, x);
        }
        forall b | b in Objs(f) && Contains(b, domain, bus)
          ensures b == child || (b in Objs(f[0].kids) && Below(b, child))
        {
          InnerOrFirst(s, f, domain, bus, b);
        }
        forall b | b in Objs(f[0].kids) ensures Below(b, child) {
        }
      } else {
        FindAnswers(s, parent, f[1..], domain, bus, dev, func);
        forall x | x in Objs(f) && (HasId(x, domain, bus, dev, func) || Contains(x, domain, bus))
          ensures x in Objs(f[1..])
        {
          BelowFirst(s, f, x);
        }
      }
    }
  }

  /** Two bridges that hold an unused bus and lie beside each other leave no innermost one. */
  lemma NoInnermost(s: set<PciObj>, domain: nat, bus: nat, p: PciObj)
    requires WellFormed(s) && IsInnermost(s, domain, bus, p)
    ensures Decided(s, domain, bus)
  {
    assert Decided(s, p.domain, p.bus);
  }

  lemma {:induction false} FindWithin(parent: PciObj, f: seq<Tree>, domain: nat, bus: nat, dev: nat, func: nat)
    ensures FindByBusid(parent, f, domain, bus, dev, func) in Objs(f) + {parent}
    decreases f
  {
    if f != [] {
      FindWithin(f[0].obj, f[0].kids, domain, bus, dev, func);
      FindWithin(parent, f[1..], domain, bus, dev, func);
    }
  }

  /** The search goes down only through bridges that hold the bus. */
  lemma {:induction false} FindPath(
    s: set<PciObj>, parent: PciObj, f: seq<Tree>, domain: nat, bus: nat, dev: nat, func: nat, c: PciObj)
    requires WellFormed(s) && Objs(f) <= s && Ordered(f) && parent !in Objs(f) && c in Objs(f)
    requires var r := FindByBusid(parent, f, domain, bus, dev, func); r != parent && Below(r, c)
    ensures Contains(c, domain, bus)
    decreases f
  {
    var r, child := FindByBusid(parent, f, domain, bus, dev, func), f[0].obj;
    OrderedTail(f);
    BelowFirst(s, f, c);
    assert child in Objs(f);
    FindWithin(parent, f, domain, bus, dev, func);
    BelowFirst(s, f, r);
    FirstIsRoot(s, f);
    if HasId(child, domain, bus, dev, func) {
    } else if Contains(child, domain, bus) {
      FindWithin(child, f[0].kids, domain, bus, dev, func);
      NotBelowItself(s, child);
      if r != child && c in Objs(f[0].kids) {
        FindPath(s, child, f[0].kids, domain, bus, dev, func, c);
      }
    } else {
      FindWithin(parent, f[1..], domain, bus, dev, func);
      if c == child {
      } else if c in Objs(f[1..]) {
        FindPath(s, parent, f[1..], domain, bus, dev, func, c);
      } else {
        BelowTransitive(s, r, c, child);
      }
    }
  }

  lemma NotBelowItself(s: set<PciObj>, b: PciObj)
    requires Consistent(s) && b in s
    ensures !Below(b, b)
  {
  }

  /** Looking up in the tree built from any sequence of discovered objects: an object that was inserted is
      found, and otherwise the answer is as it should be exactly when the ranges are as they should be on the
      bus looked up. */
  lemma LookupAfterInsertions(s: seq<PciObj>, parent: PciObj, domain: nat, bus: nat, dev: nat, func: nat)
    requires Distinct(s) && WellFormed(SetOf(s))
    ensures
      var w, found := SetOf(s), FindByBusid(parent, AddAll([], s), domain, bus, dev, func);
      && (Decided(w, domain, bus) && Closed(w, domain, bus) ==> Answers(w, parent, domain, bus, dev, func, found))
      && (parent !in s && Answers(w, parent, domain, bus, dev, func, found) ==>
            Decided(w, domain, bus) && Closed(w, domain, bus))
    ensures (exists x :: x in s && HasId(x, domain, bus, dev, func)) ==>
              Decided(SetOf(s), domain, bus) && Closed(SetOf(s), domain, bus)
  {
    var w, f := SetOf(s), AddAll([], s);
    AddAllKeepsOrder(w, [], s);
    assert forall x :: x in s <==> x in w;
    var r := FindByBusid(parent, f, domain, bus, dev, func);
    if Decided(w, domain, bus) && Closed(w, domain, bus) {
      FindAnswers(w, parent, f, domain, bus, dev, func);
    } else {
      assert exists b :: b in w && Contains(b, domain, bus);
      if parent !in s && IsInnermost(w, domain, bus, r) {
        NoInnermost(w, domain, bus, r);
        InnermostClosed(w, parent, f, domain, bus, dev, func);
      }
    }
  }

  /** If the search ends at the innermost bridge over a bus, every bridge above one that holds the bus does. */
  lemma InnermostClosed(s: set<PciObj>, parent: PciObj, f: seq<Tree>, domain: nat, bus: nat, dev: nat, func: nat)
    requires WellFormed(s) && Objs(f) == s && Ordered(f) && parent !in s
    requires IsInnermost(s, domain, bus, FindByBusid(parent, f, domain, bus, dev, func))
    ensures Closed(s, domain, bus)
  {
    var r := FindByBusid(parent, f, domain, bus, dev, func);
    forall b, c | b in s && c in s && Below(b, c) && Contains(b, domain, bus) ensures Contains(c, domain, bus) {
      if b != r {
        BelowTransitive(s, r, b, c);
      }
      FindPath(s, parent, f, domain, bus, dev, func, c);
    }
  }

  /** Each object discovered hangs below the innermost discovered bridge that holds its bus. */
  lemma ParentAfterInsertions(s: seq<PciObj>, x: PciObj)
    requires Distinct(s) && WellFormed(SetOf(s)) && x in s
    ensures var p := ParentIn(null, AddAll([], s), x);
            if p == null then forall b :: b in s ==> !Below(x, b) else IsInnermost(SetOf(s), x.domain, x.bus, p)
  {
    var f := AddAll([], s);
    AddAllKeepsOrder(SetOf(s), [], s);
    assert x in SetOf(s);
    ParentIsInnermost(SetOf(s), null, f, x);
    assert forall b :: b in s <==> b in SetOf(s);
  }
}
