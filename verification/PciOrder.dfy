/** Exactly when the order in which PCI objects are discovered does not matter, and exactly when every one of them
    is found again. */
module PciOrder {
  import opened PciTree
  import opened PciInsert

  /** x stands somewhere below p in f. */
  ghost predicate Under(f: seq<Tree>, p: PciObj, x: PciObj) {
    f != [] && ((f[0].obj == p && x in Objs(f[0].kids)) || Under(f[0].kids, p, x) || Under(f[1..], p, x))
  }

  lemma {:induction false} UnderWithin(f: seq<Tree>, p: PciObj, x: PciObj)
    requires Under(f, p, x)
    ensures p in Objs(f) && x in Objs(f)
    decreases f
  {
    if Under(f[0].kids, p, x) {
      UnderWithin(f[0].kids, p, x);
    } else if Under(f[1..], p, x) {
      UnderWithin(f[1..], p, x);
    }
  }

  // ----- Insertion leaves the objects that are there below what they are below, and below nothing else.

  lemma UnderCons(t: Tree, f: seq<Tree>, p: PciObj, x: PciObj)
    ensures Under([t] + f, p, x) <==> (t.obj == p && x in Objs(t.kids)) || Under(t.kids, p, x) || Under(f, p, x)
  {
    assert ([t] + f)[1..] == f;
  }

  lemma {:induction false} UnderSweep(f: seq<Tree>, added: PciObj, p: PciObj, x: PciObj)
    requires Under(f, p, x)
    ensures Under(Sweep(f, added).0, p, x) || Under(Sweep(f, added).1, p, x)
  {
    var kept, moved := Sweep(f[1..], added).0, Sweep(f[1..], added).1;
    if Under(f[1..], p, x) {
      UnderSweep(f[1..], added, p, x);
    }
    UnderCons(f[0], kept, p, x);
    UnderCons(f[0], moved, p, x);
  }

  lemma {:induction false} UnderStays(f: seq<Tree>, added: PciObj, p: PciObj, x: PciObj)
    requires NoDup(f) && added !in Objs(f) && Under(f, p, x)
    ensures Under(Add(f, added), p, x)
    decreases f
  {
    var head, rest := f[0], f[1..];
    NoDupTail(f);
    match CompareBusids(added, head.obj)
    case HIGHER =>
      if Under(rest, p, x) {
        UnderStays(rest, added, p, x);
      }
      UnderCons(head, Add(rest, added), p, x);
    case INCLUDED =>
      if Under(head.kids, p, x) {
        UnderStays(head.kids, added, p, x);
      }
      AddNoDup(head.kids, added);
      UnderCons(Node(head.obj, Add(head.kids, added)), rest, p, x);
    case EQUAL =>
    case _ =>
      if added.isBridge {
        UnderSweep(f, added, p, x);
        UnderCons(Node(added, Sweep(f, added).1), Sweep(f, added).0, p, x);
      } else {
        UnderCons(Node(added, []), f, p, x);
      }
  }

  lemma {:induction false} UnderSwept(f: seq<Tree>, added: PciObj, p: PciObj, x: PciObj)
    requires Under(Sweep(f, added).0, p, x) || Under(Sweep(f, added).1, p, x)
    ensures Under(f, p, x)
  {
    if f != [] {
      var kept, moved := Sweep(f[1..], added).0, Sweep(f[1..], added).1;
      UnderCons(f[0], kept, p, x);
      UnderCons(f[0], moved, p, x);
      if Under(kept, p, x) || Under(moved, p, x) {
        UnderSwept(f[1..], added, p, x);
      }
    }
  }

  lemma {:induction false} UnderBefore(f: seq<Tree>, added: PciObj, p: PciObj, x: PciObj)
    requires NoDup(f) && added !in Objs(f) && p in Objs(f) && x in Objs(f) && Under(Add(f, added), p, x)
    ensures Under(f, p, x)
    decreases f
  {
    var head, rest := f[0], f[1..];
    NoDupTail(f);
    match CompareBusids(added, head.obj)
    case HIGHER =>
      UnderCons(head, Add(rest, added), p, x);
      AddNoDup(rest, added);
      if Under(Add(rest, added), p, x) {
        UnderWithin(Add(rest, added), p, x);
        UnderBefore(rest, added, p, x);
      }
    case INCLUDED =>
      UnderCons(Node(head.obj, Add(head.kids, added)), rest, p, x);
      AddNoDup(head.kids, added);
      if Under(Add(head.kids, added), p, x) {
        UnderWithin(Add(head.kids, added), p, x);
        UnderBefore(head.kids, added, p, x);
      }
    case EQUAL =>
    case _ =>
      if added.isBridge {
        UnderCons(Node(added, Sweep(f, added).1), Sweep(f, added).0, p, x);
        UnderSwept(f, added, p, x);
      } else {
        UnderCons(Node(added, []), f, p, x);
      }
  }

  /** So it is with any number of insertions, and no object comes to stand in two places. */
  lemma {:induction false} UnderStaysAll(f: seq<Tree>, s: seq<PciObj>)
    requires NoDup(f) && Distinct(s) && Objs(f) !! SetOf(s)
    ensures NoDup(AddAll(f, s)) && Objs(f) <= Objs(AddAll(f, s))
    ensures forall p, x :: p in Objs(f) && x in Objs(f) ==> (Under(f, p, x) <==> Under(AddAll(f, s), p, x))
    decreases s
  {
    if s != [] {
      assert s[0] in SetOf(s);
      AddNoDup(f, s[0]);
      forall p, x | p in Objs(f) && x in Objs(f) ensures Under(f, p, x) <==> Under(Add(f, s[0]), p, x) {
        if Under(f, p, x) {
          UnderStays(f, s[0], p, x);
        }
        if Under(Add(f, s[0]), p, x) {
          UnderBefore(f, s[0], p, x);
        }
      }
      forall y | y in SetOf(s[1..]) ensures y in SetOf(s) && y != s[0] {
        var i :| 0 <= i < |s[1..]| && s[1..][i] == y;
        assert s[i + 1] == y;
      }
      UnderStaysAll(Add(f, s[0]), s[1..]);
    }
  }

  lemma {:induction false} AddAllAppend(f: seq<Tree>, a: seq<PciObj>, b: seq<PciObj>)
    ensures AddAll(f, a + b) == AddAll(AddAll(f, a), b)
    decreases a
  {
    if a == [] {
      assert a + b == b;
    } else {
      assert (a + b)[1..] == a[1..] + b;
      AddAllAppend(Add(f, a[0]), a[1..], b);
    }
  }

  // ----- Two bridges beside each other that hold the same object.

  ghost predicate Clash(s: set<PciObj>, x: PciObj, b: PciObj, c: PciObj) {
    x in s && b in s && c in s && Below(x, b) && Below(x, c) && IdLess(b, c) && !Below(b, c) && !Below(c, b)
  }

  lemma ClashCompares(s: set<PciObj>, x: PciObj, b: PciObj, c: PciObj)
    requires Consistent(s) && Clash(s, x, b, c)
    ensures x != b && x != c && b != c
    ensures CompareBusids(x, b) == INCLUDED && CompareBusids(c, x) == SUPERSET
    ensures CompareBusids(c, b) == HIGHER && CompareBusids(b, c) == LOWER
  {
    Comparisons(s, x, b);
    Comparisons(s, c, x);
    Comparisons(s, b, c);
    Comparisons(s, c, b);
  }

  /** With the bridges first, the object goes below the first of them. */
  lemma BridgesFirst(s: set<PciObj>, x: PciObj, b: PciObj, c: PciObj)
    requires Consistent(s) && Clash(s, x, b, c)
    ensures AddAll([], [b, c, x]) == [Node(b, [Node(x, [])]), Node(c, [])]
  {
    ClashCompares(s, x, b, c);
    assert [Node(b, [])][1..] == [] && [Node(b, []), Node(c, [])][1..] == [Node(c, [])];
    var one, two, three := [Node(b, [])], [Node(b, []), Node(c, [])], [Node(b, [Node(x, [])]), Node(c, [])];
    assert [Node(b, [])] + [Node(c, [])] == two && [Node(b, [Node(x, [])])] + [Node(c, [])] == three;
    assert Add([], b) == one && Add([], c) == [Node(c, [])] && Add([], x) == [Node(x, [])];
    assert Add(one, c) == two && Add(two, x) == three;
    assert [b, c, x][1..] == [c, x] && [c, x][1..] == [x] && [x][1..] == [];
    assert AddAll([], [b, c, x]) == AddAll(one, [c, x]) == AddAll(two, [x]) == AddAll(three, []);
  }

  /** With the object first and the bridges backwards, it goes below the other. */
  lemma ObjectFirst(s: set<PciObj>, x: PciObj, b: PciObj, c: PciObj)
    requires Consistent(s) && Clash(s, x, b, c)
    ensures AddAll([], [x, c, b]) == [Node(b, []), Node(c, [Node(x, [])])]
  {
    ClashCompares(s, x, b, c);
    var one, two := [Node(x, [])], [Node(c, [Node(x, [])])];
    var three := [Node(b, []), Node(c, [Node(x, [])])];
    assert one[1..] == [] && two[1..] == [];
    assert Sweep([], c) == ([], []) && Sweep([], b) == ([], []);
    assert Sweep(one, c) == ([], one) by { assert one + [] == one; }
    assert Sweep(two, b) == (two, []) by { assert two + [] == two; }
    assert Add([], x) == one && Add(one, c) == two && Add(two, b) == three;
    assert [x, c, b][1..] == [c, b] && [c, b][1..] == [b] && [b][1..] == [];
    assert AddAll([], [x, c, b]) == AddAll(one, [c, b]) == AddAll(two, [b]) == AddAll(three, []);
  }

  /** The objects of a set in some order. */
  lemma {:induction false} Listing(s: set<PciObj>) returns (l: seq<PciObj>)
    ensures Distinct(l) && SetOf(l) == s
    decreases |s|
  {
    l := [];
    if s != {} {
      var x :| x in s;
      var rest := Listing(s - {x});
      l := [x] + rest;
      assert forall y :: y in rest <==> y in SetOf(rest);
    }
  }

  /** Three objects of a set, and then the others. */
  lemma StartingWith(s: set<PciObj>, a: PciObj, b: PciObj, c: PciObj, rest: seq<PciObj>)
    requires a in s && b in s && c in s && a != b && b != c && a != c
    requires Distinct(rest) && SetOf(rest) == s - {a, b, c}
    ensures Distinct([a, b, c] + rest) && SetOf([a, b, c] + rest) == s
  {
    assert forall y :: y in rest <==> y in SetOf(rest);
  }

  lemma SmallTrees(x: PciObj, b: PciObj, c: PciObj)
    requires x != b && x != c && b != c
    ensures var f := [Node(b, [Node(x, [])]), Node(c, [])];
            NoDup(f) && Objs(f) == {x, b, c} && !Under(f, c, x)
    ensures var f := [Node(b, []), Node(c, [Node(x, [])])];
            NoDup(f) && Objs(f) == {x, b, c} && Under(f, c, x)
    ensures var f := [Node(c, [Node(b, [])]), Node(x, [])];
            NoDup(f) && Objs(f) == {x, b, c} && !Under(f, c, x)
    ensures var f := [Node(c, [Node(b, [Node(x, [])])])];
            NoDup(f) && Objs(f) == {x, b, c} && Under(f, c, x)
  {
    Leaf(x);
    Leaf(b);
    Leaf(c);
    Pair(Node(b, [Node(x, [])]), Node(c, []));
    Pair(Node(b, []), Node(c, [Node(x, [])]));
    Pair(Node(c, [Node(b, [])]), Node(x, []));
    assert [Node(c, [Node(b, [Node(x, [])])])][1..] == [];
    assert [Node(b, [Node(x, [])])][1..] == [];
  }

  lemma Leaf(x: PciObj)
    ensures NoDup([Node(x, [])]) && Objs([Node(x, [])]) == {x}
    ensures forall p, y :: !Under([Node(x, [])], p, y)
  {
    var none: seq<Tree> := [];
    assert [Node(x, [])][1..] == none && Objs(none) == {} && forall p, y :: !Under(none, p, y);
  }

  lemma Pair(t: Tree, u: Tree)
    ensures [t, u][1..] == [u] && [u][1..] == []
    ensures Objs([t, u]) == {t.obj} + Objs(t.kids) + {u.obj} + Objs(u.kids)
  {
    var none: seq<Tree> := [];
    assert [u][1..] == none && Objs(none) == {};
    assert [t, u][1..] == [u];
  }

  /** After two different starts on the same three objects the trees differ for good, if in one of them x is
      below c and in the other it is not. */
  lemma StartMatters(
    f: seq<Tree>, g: seq<Tree>, c: PciObj, x: PciObj, a: seq<PciObj>, b: seq<PciObj>, rest: seq<PciObj>)
    requires NoDup(f) && NoDup(g) && Objs(f) == Objs(g) && c in Objs(f) && x in Objs(f)
    requires Distinct(rest) && Objs(f) !! SetOf(rest) && Under(f, c, x) && !Under(g, c, x)
    requires AddAll([], a) == f && AddAll([], b) == g
    ensures Under(AddAll([], a + rest), c, x) && NoDup(AddAll([], a + rest))
    ensures AddAll([], a + rest) != AddAll([], b + rest)
  {
    AddAllAppend([], a, rest);
    AddAllAppend([], b, rest);
    UnderStaysAll(f, rest);
    UnderStaysAll(g, rest);
  }

  /** Then the two orders build different trees, whatever comes afterwards. */
  lemma ClashMatters(s: set<PciObj>, x: PciObj, b: PciObj, c: PciObj, rest: seq<PciObj>)
    requires Consistent(s) && Clash(s, x, b, c) && Distinct(rest) && SetOf(rest) == s - {x, b, c}
    ensures AddAll([], [x, c, b] + rest) != AddAll([], [b, c, x] + rest)
    ensures Under(AddAll([], [x, c, b] + rest), c, x) && NoDup(AddAll([], [x, c, b] + rest))
  {
    ClashCompares(s, x, b, c);
    BridgesFirst(s, x, b, c);
    ObjectFirst(s, x, b, c);
    SmallTrees(x, b, c);
    var f, g := [Node(b, []), Node(c, [Node(x, [])])], [Node(b, [Node(x, [])]), Node(c, [])];
    StartMatters(f, g, c, x, [x, c, b], [b, c, x], rest);
  }

  // ----- A bridge in another's range that leads to an object outside it.

  ghost predicate Leak(s: set<PciObj>, x: PciObj, b: PciObj, c: PciObj) {
    x in s && b in s && c in s && Below(x, b) && Below(b, c) && !Below(x, c)
  }

  lemma LeakCompares(s: set<PciObj>, x: PciObj, b: PciObj, c: PciObj)
    requires Consistent(s) && Leak(s, x, b, c)
    ensures x != b && x != c && b != c
    ensures CompareBusids(b, c) == INCLUDED && CompareBusids(x, c) == HIGHER
    ensures CompareBusids(x, b) == INCLUDED && CompareBusids(c, b) == SUPERSET
  {
    Comparisons(s, b, c);
    Comparisons(s, x, c);
    Comparisons(s, x, b);
    Comparisons(s, c, b);
  }

  /** From the outside in, the object is left outside. */
  lemma OutsideIn(s: set<PciObj>, x: PciObj, b: PciObj, c: PciObj)
    requires Consistent(s) && Leak(s, x, b, c)
    ensures AddAll([], [c, b, x]) == [Node(c, [Node(b, [])]), Node(x, [])]
  {
    LeakCompares(s, x, b, c);
    var one, two, three := [Node(c, [])], [Node(c, [Node(b, [])])], [Node(c, [Node(b, [])]), Node(x, [])];
    assert one[1..] == [] && two[1..] == [] && [Node(c, [Node(b, [])])] + [] == two && two + [Node(x, [])] == three;
    assert Add([], c) == one && Add([], b) == [Node(b, [])] && Add([], x) == [Node(x, [])];
    assert Add(one, b) == two && Add(two, x) == three;
    assert [c, b, x][1..] == [b, x] && [b, x][1..] == [x] && [x][1..] == [];
    assert AddAll([], [c, b, x]) == AddAll(one, [b, x]) == AddAll(two, [x]) == AddAll(three, []);
  }

  /** From the inside out, it is taken along. */
  lemma InsideOut(s: set<PciObj>, x: PciObj, b: PciObj, c: PciObj)
    requires Consistent(s) && Leak(s, x, b, c)
    ensures AddAll([], [b, x, c]) == [Node(c, [Node(b, [Node(x, [])])])]
  {
    LeakCompares(s, x, b, c);
    var one, two, three := [Node(b, [])], [Node(b, [Node(x, [])])], [Node(c, [Node(b, [Node(x, [])])])];
    assert one[1..] == [] && two[1..] == [] && Sweep([], c) == ([], []);
    assert Sweep(two, c) == ([], two) by { assert two + [] == two; }
    assert [Node(c, two)] + [] == three;
    assert Add([], b) == one && Add([], x) == [Node(x, [])] && Add(one, x) == two && Add(two, c) == three;
    assert [b, x, c][1..] == [x, c] && [x, c][1..] == [c] && [c][1..] == [];
    assert AddAll([], [b, x, c]) == AddAll(one, [x, c]) == AddAll(two, [c]) == AddAll(three, []);
  }

  lemma LeakMatters(s: set<PciObj>, x: PciObj, b: PciObj, c: PciObj, rest: seq<PciObj>)
    requires Consistent(s) && Leak(s, x, b, c) && Distinct(rest) && SetOf(rest) == s - {x, b, c}
    ensures AddAll([], [b, x, c] + rest) != AddAll([], [c, b, x] + rest)
    ensures Under(AddAll([], [b, x, c] + rest), c, x) && NoDup(AddAll([], [b, x, c] + rest))
  {
    LeakCompares(s, x, b, c);
    OutsideIn(s, x, b, c);
    InsideOut(s, x, b, c);
    SmallTrees(x, b, c);
    var f, g := [Node(c, [Node(b, [Node(x, [])])])], [Node(c, [Node(b, [])]), Node(x, [])];
    StartMatters(f, g, c, x, [b, x, c], [c, b, x], rest);
  }

  /** Disjoint ranges do not prevent that: the inner bridge need only be on a bus of the outer one. */
  lemma OrderMattersOutside(c: PciObj, b: PciObj, x: PciObj)
    requires c.domain == b.domain == x.domain == 0 && c.dev == b.dev == x.dev == 0 && c.func == b.func == x.func == 0
    requires c.isBridge && c.bus == 0 && c.secondary == 1 && c.subordinate == 5
    requires b.isBridge && b.bus == 5 && b.secondary == 6 && b.subordinate == 9
    requires !x.isBridge && x.bus == 7
    ensures Consistent({c, b, x}) && Nested({c, b, x}) && !Transitive({c, b, x})
    ensures AddAll([], [c, b, x]) == [Node(c, [Node(b, [])]), Node(x, [])]
    ensures AddAll([], [b, x, c]) == [Node(c, [Node(b, [Node(x, [])])])]
  {
    assert Leak({c, b, x}, x, b, c);
    assert !Closed({c, b, x}, x.domain, x.bus);
    OutsideIn({c, b, x}, x, b, c);
    InsideOut({c, b, x}, x, b, c);
  }

  // ----- The condition.

  /** l is s in some order. */
  ghost predicate Lists(l: seq<PciObj>, s: set<PciObj>) {
    Distinct(l) && SetOf(l) == s
  }

  /** The order is irrelevant if and only if bus ids are distinct and, on the bus of every object, the bridges
      that hold it lie in one another's range, and a bridge above one that holds it does too. */
  lemma OrderIrrelevantExactly(s: set<PciObj>)
    requires LeadOn(s)
    ensures WellFormed(s) <==>
            forall l: seq<PciObj>, l': seq<PciObj> :: Lists(l, s) && Lists(l', s) ==> AddAll([], l) == AddAll([], l')
  {
    if WellFormed(s) {
      forall l: seq<PciObj>, l': seq<PciObj> | Lists(l, s) && Lists(l', s) ensures AddAll([], l) == AddAll([], l') {
        InsertionOrderIrrelevant(l, l');
      }
    } else {
      var l, l' := OrdersThatDiffer(s);
    }
  }

  lemma OrdersThatDiffer(s: set<PciObj>) returns (l: seq<PciObj>, l': seq<PciObj>)
    requires LeadOn(s) && !WellFormed(s)
    ensures Lists(l, s) && Lists(l', s) && AddAll([], l) != AddAll([], l')
  {
    if !DistinctIds(s) {
      var a, b, rest := FindTwins(s);
      FirstTwinStays(s, a, b, rest);
      FirstTwinStays(s, b, a, rest);
      l, l' := [a, b] + rest, [b, a] + rest;
    } else if !Transitive(s) {
      var x, b, c := FindLeak(s);
      LeakCompares(s, x, b, c);
      var rest := Listing(s - {x, b, c});
      assert {b, x, c} == {c, b, x} == {x, b, c};
      StartingWith(s, b, x, c, rest);
      StartingWith(s, c, b, x, rest);
      LeakMatters(s, x, b, c, rest);
      l, l' := [b, x, c] + rest, [c, b, x] + rest;
    } else {
      var x, b, c := FindClash(s);
      ClashCompares(s, x, b, c);
      var rest := Listing(s - {x, b, c});
      assert {b, c, x} == {x, c, b} == {x, b, c};
      StartingWith(s, b, c, x, rest);
      StartingWith(s, x, c, b, rest);
      ClashMatters(s, x, b, c, rest);
      l, l' := [x, c, b] + rest, [b, c, x] + rest;
    }
  }

  ghost predicate Twins(a: PciObj, b: PciObj) {
    a != b && !IdLess(a, b) && !IdLess(b, a)
  }

  lemma FindTwins(s: set<PciObj>) returns (a: PciObj, b: PciObj, rest: seq<PciObj>)
    requires !DistinctIds(s)
    ensures a in s && b in s && Twins(a, b) && Lists(rest, s - {a, b})
  {
    a, b :| a in s && b in s && Twins(a, b);
    rest := Listing(s - {a, b});
  }

  /** Of two objects with one bus id, the second is dropped. */
  lemma FirstTwinStays(s: set<PciObj>, a: PciObj, b: PciObj, rest: seq<PciObj>)
    requires LeadOn(s) && a in s && b in s && Twins(a, b) && Lists(rest, s - {a, b})
    ensures Lists([a, b] + rest, s)
    ensures a in Objs(AddAll([], [a, b] + rest)) && b !in Objs(AddAll([], [a, b] + rest))
  {
    assert forall y :: y in rest <==> y in SetOf(rest);
    var one := [Node(a, [])];
    Leaf(a);
    assert CompareBusids(b, a) == EQUAL && Add([], a) == one && Add(one, b) == one;
    assert [a, b][1..] == [b] && [b][1..] == [];
    assert AddAll([], [a, b]) == AddAll(one, [b]) == AddAll(one, []);
    AddAllAppend([], [a, b], rest);
    UnderStaysAll(one, rest);
    InsertedFrom(one, rest);
  }

  lemma FindLeak(s: set<PciObj>) returns (x: PciObj, b: PciObj, c: PciObj)
    requires !Transitive(s)
    ensures Leak(s, x, b, c)
  {
    x :| x in s && !Closed(s, x.domain, x.bus);
    b, c :| b in s && c in s && Below(b, c) && Below(x, b) && !Below(x, c);
  }

  lemma FindClash(s: set<PciObj>) returns (x: PciObj, b: PciObj, c: PciObj)
    requires Consistent(s) && !Nested(s)
    ensures Clash(s, x, b, c)
  {
    x :| x in s && !Decided(s, x.domain, x.bus);
    b, c :| b in s && c in s && b != c && Below(x, b) && Below(x, c) && !Below(b, c) && !Below(c, b);
    if !IdLess(b, c) {
      b, c := c, b;
    }
  }

  // ----- Looking up what was inserted.

  function Lookup(parent: PciObj, f: seq<Tree>, x: PciObj): PciObj {
    FindByBusid(parent, f, x.domain, x.bus, x.dev, x.func)
  }

  lemma LookupWithin(parent: PciObj, f: seq<Tree>, x: PciObj)
    ensures Lookup(parent, f, x) in Objs(f) + {parent}
  {
    FindWithin(parent, f, x.domain, x.bus, x.dev, x.func);
  }

  /** What is below the first sibling is found only there, and only if that holds its bus. */
  lemma FoundBelow(s: set<PciObj>, parent: PciObj, f: seq<Tree>, x: PciObj)
    requires Consistent(s) && Objs(f) <= s && NoDup(f) && parent != x && f != [] && x in Objs(f[0].kids)
    requires Lookup(parent, f, x) == x
    ensures f[0].obj != x && Below(x, f[0].obj) && Lookup(f[0].obj, f[0].kids, x) == x
  {
    NoDupTail(f);
    LookupWithin(parent, f[1..], x);
  }

  /** What is further on is found only there, and only if the first sibling does not hold its bus. */
  lemma FoundBeyond(s: set<PciObj>, parent: PciObj, f: seq<Tree>, x: PciObj)
    requires Consistent(s) && Objs(f) <= s && NoDup(f) && parent != x && f != [] && x in Objs(f[1..])
    requires Lookup(parent, f, x) == x
    ensures !Below(x, f[0].obj) && Lookup(parent, f[1..], x) == x
  {
    NoDupTail(f);
    assert f[0].obj in Objs(f);
    LookupWithin(f[0].obj, f[0].kids, x);
  }

  /** An object is found only if all that it stands below holds its bus. */
  lemma {:induction false} FoundThrough(s: set<PciObj>, parent: PciObj, f: seq<Tree>, p: PciObj, x: PciObj)
    requires Consistent(s) && Objs(f) <= s && NoDup(f) && parent != x && Under(f, p, x) && Lookup(parent, f, x) == x
    ensures Below(x, p)
    decreases f
  {
    NoDupTail(f);
    UnderWithin(f, p, x);
    if x in Objs(f[0].kids) {
      OnlyHere(f, p, x);
      FoundBelow(s, parent, f, x);
      if p != f[0].obj {
        FoundThrough(s, f[0].obj, f[0].kids, p, x);
      }
    } else {
      RootsAbove(f, p, x);
      OnlyThere(f, p, x);
      FoundBeyond(s, parent, f, x);
      FoundThrough(s, parent, f[1..], p, x);
    }
  }

  /** The first of some siblings stands below nothing among them. */
  lemma RootsAbove(f: seq<Tree>, p: PciObj, x: PciObj)
    requires NoDup(f) && Under(f, p, x)
    ensures x != f[0].obj
  {
    NoDupTail(f);
    if Under(f[0].kids, p, x) {
      UnderWithin(f[0].kids, p, x);
    } else if Under(f[1..], p, x) {
      UnderWithin(f[1..], p, x);
    }
  }

  lemma OnlyHere(f: seq<Tree>, p: PciObj, x: PciObj)
    requires NoDup(f) && f != [] && x in Objs(f[0].kids) && Under(f, p, x)
    ensures p == f[0].obj || Under(f[0].kids, p, x)
  {
    NoDupTail(f);
    if Under(f[1..], p, x) {
      UnderWithin(f[1..], p, x);
    }
  }

  lemma OnlyThere(f: seq<Tree>, p: PciObj, x: PciObj)
    requires NoDup(f) && f != [] && x in Objs(f[1..]) && Under(f, p, x)
    ensures Under(f[1..], p, x)
  {
    NoDupTail(f);
    if Under(f[0].kids, p, x) {
      UnderWithin(f[0].kids, p, x);
    }
  }

  /** Of the clashing bridges that hold x, none are further out. */
  ghost predicate Outermost(s: set<PciObj>, x: PciObj, b: PciObj, c: PciObj) {
    && Clash(s, x, b, c)
    && forall b', c' :: b' in s && c' in s && Clash(s, x, b', c') ==> b.bus + c.bus <= b'.bus + c'.bus
  }

  lemma OutermostClash(s: set<PciObj>, x: PciObj, b: PciObj, c: PciObj) returns (b': PciObj, c': PciObj)
    requires Clash(s, x, b, c)
    ensures Outermost(s, x, b', c')
    decreases b.bus + c.bus
  {
    if Outermost(s, x, b, c) {
      b', c' := b, c;
    } else {
      b', c' :| b' in s && c' in s && Clash(s, x, b', c') && b'.bus + c'.bus < b.bus + c.bus;
      b', c' := OutermostClash(s, x, b', c');
    }
  }

  /** The siblings that clashing bridges are, or are below, clash. */
  lemma SiblingsClash(s: set<PciObj>, x: PciObj, b: PciObj, c: PciObj, p: PciObj, q: PciObj)
    requires Coherent(s) && Clash(s, x, b, c) && p in s && q in s && Before(q, p)
    requires (b == p || Below(b, p)) && (c == q || Below(c, q))
    ensures !Outermost(s, x, b, c)
  {
    if b != p {
      BelowTransitive(s, x, b, p);
    }
    if c != q {
      BelowTransitive(s, x, c, q);
    }
    assert Clash(s, x, q, p);
  }

  lemma SecondNotFirst(s: set<PciObj>, f: seq<Tree>, x: PciObj, b: PciObj, c: PciObj)
    requires Coherent(s) && Objs(f) <= s && NoDup(f) && Ordered(f) && Outermost(s, x, b, c)
    requires f != [] && (c == f[0].obj || c in Objs(f[0].kids))
    ensures b !in Objs(f[1..])
  {
    OrderedTail(f);
    assert f[0].obj in Objs(f);
    if b in Objs(f[1..]) {
      var k := ObjsWhere(f[1..], b);
      ObjsAt(f, k + 1);
      assert f[k + 1] in f && NodeOrdered(f[k + 1]);
      SiblingsClash(s, x, b, c, f[k + 1].obj, f[0].obj);
    }
  }

  /** x, below the second of two outermost clashing bridges, is searched for below the first. */
  lemma {:induction false} FirstHidesSecond(
    s: set<PciObj>, parent: PciObj, f: seq<Tree>, x: PciObj, b: PciObj, c: PciObj)
    requires Coherent(s) && Objs(f) <= s && NoDup(f) && Ordered(f) && parent != x && Outermost(s, x, b, c)
    requires b in Objs(f) && Under(f, c, x)
    ensures Lookup(parent, f, x) != x
    decreases f
  {
    NoDupTail(f);
    OrderedTail(f);
    UnderWithin(f, c, x);
    if Lookup(parent, f, x) == x {
      RootsAbove(f, c, x);
      if x in Objs(f[0].kids) {
        OnlyHere(f, c, x);
        SecondBelowFirst(s, f, x, b, c);
        FoundBelow(s, parent, f, x);
        FirstHidesSecond(s, f[0].obj, f[0].kids, x, b, c);
      } else {
        OnlyThere(f, c, x);
        FoundBeyond(s, parent, f, x);
        FirstAmongRest(s, f, x, b, c);
        FirstHidesSecond(s, parent, f[1..], x, b, c);
      }
    }
  }

  /** If x is below the first sibling, so are both bridges. */
  lemma SecondBelowFirst(s: set<PciObj>, f: seq<Tree>, x: PciObj, b: PciObj, c: PciObj)
    requires Coherent(s) && Objs(f) <= s && NoDup(f) && Ordered(f) && f != [] && Outermost(s, x, b, c)
    requires b in Objs(f) && (c == f[0].obj || Under(f[0].kids, c, x))
    ensures b in Objs(f[0].kids) && Under(f[0].kids, c, x)
  {
    OrderedTail(f);
    if c != f[0].obj {
      UnderWithin(f[0].kids, c, x);
    }
    SecondNotFirst(s, f, x, b, c);
    assert AllBelow(f[0].kids, f[0].obj);
  }

  /** If x is beyond the first sibling, and that does not hold its bus, so is the first bridge. */
  lemma FirstAmongRest(s: set<PciObj>, f: seq<Tree>, x: PciObj, b: PciObj, c: PciObj)
    requires Coherent(s) && Objs(f) <= s && NoDup(f) && Ordered(f) && f != [] && Outermost(s, x, b, c)
    requires b in Objs(f) && !Below(x, f[0].obj)
    ensures b in Objs(f[1..])
  {
    OrderedTail(f);
    assert f[0].obj in Objs(f) && Closed(s, x.domain, x.bus);
  }

  /** Every object is found, in whatever order they were inserted, under exactly the condition under which the
      order does not matter. */
  lemma FoundExactly(s: set<PciObj>, parent: PciObj)
    requires LeadOn(s) && parent !in s
    ensures WellFormed(s) <==>
            forall l: seq<PciObj>, x :: Lists(l, s) && x in s ==> Lookup(parent, AddAll([], l), x) == x
  {
    if WellFormed(s) {
      forall l: seq<PciObj>, x | Lists(l, s) && x in s ensures Lookup(parent, AddAll([], l), x) == x {
        LookupAfterInsertions(l, parent, x.domain, x.bus, x.dev, x.func);
        assert x in l && HasId(x, x.domain, x.bus, x.dev, x.func);
      }
    } else {
      var l, x := NotFound(s, parent);
    }
  }

  lemma NotFound(s: set<PciObj>, parent: PciObj) returns (l: seq<PciObj>, x: PciObj)
    requires LeadOn(s) && parent !in s && !WellFormed(s)
    ensures Lists(l, s) && x in s && Lookup(parent, AddAll([], l), x) != x
  {
    if !DistinctIds(s) {
      var a, rest;
      a, x, rest := FindTwins(s);
      FirstTwinStays(s, a, x, rest);
      l := [a, x] + rest;
      LookupWithin(parent, AddAll([], l), x);
    } else if !Transitive(s) {
      var b, c;
      x, b, c := FindLeak(s);
      LeakCompares(s, x, b, c);
      var rest := Listing(s - {x, b, c});
      assert {b, x, c} == {x, b, c};
      StartingWith(s, b, x, c, rest);
      LeakMatters(s, x, b, c, rest);
      l := [b, x, c] + rest;
      AllInserted(l);
      if Lookup(parent, AddAll([], l), x) == x {
        FoundThrough(s, parent, AddAll([], l), c, x);
      }
    } else {
      var b, c;
      x, b, c := FindClash(s);
      b, c := OutermostClash(s, x, b, c);
      ClashCompares(s, x, b, c);
      var rest := Listing(s - {x, b, c});
      assert {x, c, b} == {x, b, c};
      StartingWith(s, x, c, b, rest);
      ClashMatters(s, x, b, c, rest);
      l := [x, c, b] + rest;
      AddAllKeepsOrder(s, [], l);
      FirstHidesSecond(s, parent, AddAll([], l), x, b, c);
    }
  }

  lemma AllInserted(l: seq<PciObj>)
    requires Distinct(l)
    ensures NoDup(AddAll([], l)) && Objs(AddAll([], l)) <= SetOf(l)
  {
    InsertedFrom([], l);
  }

  lemma {:induction false} InsertedFrom(f: seq<Tree>, l: seq<PciObj>)
    requires NoDup(f) && Distinct(l) && Objs(f) !! SetOf(l)
    ensures NoDup(AddAll(f, l)) && Objs(AddAll(f, l)) <= Objs(f) + SetOf(l)
    decreases l
  {
    if l != [] {
      assert l[0] in SetOf(l);
      AddNoDup(f, l[0]);
      forall y | y in SetOf(l[1..]) ensures y in SetOf(l) && y != l[0] {
        var i :| 0 <= i < |l[1..]| && l[1..][i] == y;
        assert l[i + 1] == y;
      }
      InsertedFrom(Add(f, l[0]), l[1..]);
    }
  }
}
