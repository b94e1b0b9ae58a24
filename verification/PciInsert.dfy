/** The same insertion and lookup on linked objects: next_sibling, io_first_child and parent pointers
    rewired in place, as src/hwloc/hwloc/pci-common.c does. Proofs are about a snapshot of the
    pointers, which the methods keep in step with the objects. */
module PciInsert {
  import opened PciTree

  datatype Links = Links(parent: PciObj?, nextSibling: PciObj?, ioFirstChild: PciObj?)

  type Snapshot = map<PciObj, Links>

  ghost predicate Matches(h: Snapshot)
    reads h.Keys
  {
    forall o :: o in h ==> h[o] == Links(o.parent, o.nextSibling, o.ioFirstChild)
  }

  /** A `struct hwloc_obj **`: where a sibling list is entered. The variable that holds a whole tree is
      the first-child field of an object of its own. */
  datatype Slot = ChildOf(o: PciObj) | NextOf(o: PciObj)

  function Get(s: Slot): PciObj?
    reads s.o
  {
    if s.ChildOf? then s.o.ioFirstChild else s.o.nextSibling
  }

  ghost function Fetch(h: Snapshot, s: Slot): PciObj?
    requires s.o in h
  {
    if s.ChildOf? then h[s.o].ioFirstChild else h[s.o].nextSibling
  }

  ghost function Stored(h: Snapshot, s: Slot, p: PciObj?): (h': Snapshot)
    requires s.o in h
    ensures h'.Keys == h.Keys
  {
    h[s.o := if s.ChildOf? then h[s.o].(ioFirstChild := p) else h[s.o].(nextSibling := p)]
  }

  method Set(s: Slot, p: PciObj?, ghost h: Snapshot) returns (ghost h': Snapshot)
    requires s.o in h && Matches(h)
    modifies s.o
    ensures h' == Stored(h, s, p) && Matches(h')
  {
    h' := Stored(h, s, p);
    if s.ChildOf? {
      s.o.ioFirstChild := p;
    } else {
      s.o.nextSibling := p;
    }
  }

  /** The last two writes of a move. */
  method SetPlace(o: PciObj, parent: PciObj?, ghost h: Snapshot) returns (ghost h': Snapshot)
    requires o in h && Matches(h)
    modifies o
    ensures h' == Placed(h, o, parent) && Matches(h')
  {
    h' := Placed(h, o, parent);
    o.parent := parent;
    o.nextSibling := null;
  }

  ghost function Placed(h: Snapshot, o: PciObj, parent: PciObj?): (h': Snapshot)
    requires o in h
    ensures h'.Keys == h.Keys
  {
    h[o := h[o].(parent := parent, nextSibling := null)]
  }

  ghost function Foot(t: Tree): set<PciObj> {
    {t.obj} + Objs(t.kids)
  }

  function ObjAt(f: seq<Tree>, k: nat): PciObj? {
    if k < |f| then f[k].obj else null
  }

  /** The siblings from `first` on, under `parent`, are exactly those of f. */
  ghost predicate Linked(h: Snapshot, first: PciObj?, f: seq<Tree>, parent: PciObj?)
    decreases f
  {
    first == ObjAt(f, 0) &&
    forall k: nat :: k < |f| ==> LinkedNode(h, f[k], parent, ObjAt(f, k + 1))
  }

  ghost predicate LinkedNode(h: Snapshot, t: Tree, parent: PciObj?, next: PciObj?)
    decreases t
  {
    t.obj in h && h[t.obj].parent == parent && h[t.obj].nextSibling == next &&
    Linked(h, h[t.obj].ioFirstChild, t.kids, t.obj)
  }

  /** No object occurs twice. */
  ghost predicate NoDup(f: seq<Tree>) {
    && (forall i, j :: 0 <= i < j < |f| ==> Foot(f[i]) !! Foot(f[j]))
    && (forall t :: t in f ==> t.obj !in Objs(t.kids) && NoDup(t.kids))
  }

  ghost predicate FeetApart(f: seq<Tree>, g: seq<Tree>) {
    forall i, j :: 0 <= i < |f| && 0 <= j < |g| ==> Foot(f[i]) !! Foot(g[j])
  }

  lemma NoDupAt(f: seq<Tree>, i: nat)
    requires NoDup(f) && i < |f|
    ensures f[i].obj !in Objs(f[i].kids) && NoDup(f[i].kids) && Foot(f[i]) <= Objs(f)
    ensures forall k :: 0 <= k < |f| && k != i ==> Foot(f[k]) !! Foot(f[i])
  {
    assert f[i] in f;
    ObjsAt(f, i);
  }

  // ----- What pointer writes leave alone.

  ghost predicate Agree(h: Snapshot, h': Snapshot, s: set<PciObj>) {
    forall o :: o in s && o in h ==> o in h' && h'[o] == h[o]
  }

  lemma {:induction false} LinkedFrame(h: Snapshot, h': Snapshot, first: PciObj?, f: seq<Tree>, parent: PciObj?)
    requires Linked(h, first, f, parent) && Agree(h, h', Objs(f))
    ensures Linked(h', first, f, parent)
    decreases f
  {
    forall k: nat | k < |f| ensures LinkedNode(h', f[k], parent, ObjAt(f, k + 1)) {
      ObjsAt(f, k);
      NodeFrame(h, h', f[k], parent, ObjAt(f, k + 1));
    }
  }

  /** A node keeps its children when only its own place among siblings changes. */
  lemma {:induction false} NodeFrame(h: Snapshot, h': Snapshot, t: Tree, parent: PciObj?, next: PciObj?)
    requires LinkedNode(h, t, parent, next) && Agree(h, h', Objs(t.kids))
    requires t.obj in h' && h'[t.obj].ioFirstChild == h[t.obj].ioFirstChild
    ensures LinkedNode(h', t, h'[t.obj].parent, h'[t.obj].nextSibling)
    decreases t
  {
    LinkedFrame(h, h', h[t.obj].ioFirstChild, t.kids, t.obj);
  }

  /** Where sibling n of the list entered at `entry` is linked. */
  ghost function SlotOf(entry: Slot, f: seq<Tree>, n: nat): Slot
    requires n <= |f|
  {
    if n == 0 then entry else NextOf(f[n - 1].obj)
  }

  lemma SlotHolds(h: Snapshot, entry: Slot, f: seq<Tree>, parent: PciObj?, n: nat)
    requires entry.o in h && Linked(h, Fetch(h, entry), f, parent) && n <= |f|
    ensures SlotOf(entry, f, n).o in h && Fetch(h, SlotOf(entry, f, n)) == ObjAt(f, n)
    ensures n < |f| ==> f[n].obj in h && h[f[n].obj].nextSibling == ObjAt(f, n + 1)
  {
    if n > 0 {
      assert LinkedNode(h, f[n - 1], parent, ObjAt(f, n));
    }
    if n < |f| {
      assert LinkedNode(h, f[n], parent, ObjAt(f, n + 1));
    }
  }

  /** Unlinking sibling n. */
  lemma Unlinked(h: Snapshot, entry: Slot, f: seq<Tree>, parent: PciObj?, n: nat, h': Snapshot)
    requires entry.o in h && Linked(h, Fetch(h, entry), f, parent) && NoDup(f) && n < |f| && entry.o !in Objs(f)
    requires SlotOf(entry, f, n).o in h && h' == Stored(h, SlotOf(entry, f, n), ObjAt(f, n + 1))
    ensures Linked(h', Fetch(h', entry), Without(f, n), parent)
  {
    var g := Without(f, n);
    StoredHead(h, entry, f, parent, n, h');
    forall k: nat | k < |g| ensures LinkedNode(h', g[k], parent, ObjAt(g, k + 1)) {
      WithoutAt(f, n, k);
      StoredNode(h, entry, f, parent, n, h', if k < n then k else k + 1);
    }
    WithoutHead(f, n);
  }

  function Without(f: seq<Tree>, n: nat): seq<Tree>
    requires n < |f|
  {
    f[..n] + f[n + 1..]
  }

  lemma WithoutAt(f: seq<Tree>, n: nat, k: nat)
    requires n < |f| && k < |Without(f, n)|
    ensures k < n ==>
              && Without(f, n)[k] == f[k]
              && ObjAt(Without(f, n), k + 1) == if k + 1 == n then ObjAt(f, n + 1) else ObjAt(f, k + 1)
    ensures k >= n ==> k + 1 < |f| && Without(f, n)[k] == f[k + 1] && ObjAt(Without(f, n), k + 1) == ObjAt(f, k + 2)
  {
  }

  lemma WithoutHead(f: seq<Tree>, n: nat)
    requires n < |f|
    ensures ObjAt(Without(f, n), 0) == if n == 0 then ObjAt(f, 1) else ObjAt(f, 0)
  {
  }

  lemma StoredHead(h: Snapshot, entry: Slot, f: seq<Tree>, parent: PciObj?, n: nat, h': Snapshot)
    requires entry.o in h && Linked(h, Fetch(h, entry), f, parent) && n <= |f| && entry.o !in Objs(f)
    requires SlotOf(entry, f, n).o in h
    requires exists p :: h' == Stored(h, SlotOf(entry, f, n), p)
    ensures entry.o in h' && SlotOf(entry, f, n).o in h'
    ensures n > 0 ==> Fetch(h', entry) == ObjAt(f, 0)
  {
    if n > 0 {
      ObjsAt(f, n - 1);
    }
  }

  /** Storing into the slot of sibling n touches no node but the one that holds the slot. */
  lemma StoredNode(h: Snapshot, entry: Slot, f: seq<Tree>, parent: PciObj?, n: nat, h': Snapshot, k: nat)
    requires entry.o in h && Linked(h, Fetch(h, entry), f, parent) && NoDup(f) && n <= |f| && entry.o !in Objs(f)
    requires SlotOf(entry, f, n).o in h && k < |f|
    requires exists p :: h' == Stored(h, SlotOf(entry, f, n), p)
    ensures LinkedNode(h', f[k], parent, if k + 1 == n then Fetch(h', SlotOf(entry, f, n)) else ObjAt(f, k + 1))
  {
    assert LinkedNode(h, f[k], parent, ObjAt(f, k + 1));
    NoDupAt(f, k);
    if n > 0 {
      NoDupAt(f, n - 1);
    }
    NodeFrame(h, h', f[k], parent, ObjAt(f, k + 1));
  }

  /** Linking t at the end. */
  lemma Appended(h: Snapshot, entry: Slot, f: seq<Tree>, parent: PciObj?, t: Tree, h': Snapshot, h'': Snapshot)
    requires entry.o in h && Linked(h, Fetch(h, entry), f, parent) && NoDup(f + [t]) && entry.o !in Objs(f + [t])
    requires t.obj in h && Linked(h, h[t.obj].ioFirstChild, t.kids, t.obj)
    requires SlotOf(entry, f, |f|).o in h && h' == Stored(h, SlotOf(entry, f, |f|), t.obj)
    requires t.obj in h' && h'' == Placed(h', t.obj, parent)
    ensures Linked(h'', Fetch(h'', entry), f + [t], parent)
  {
    var g := f + [t];
    LastApart(f, t);
    ObjsAppend(f, [t]);
    forall k: nat | k < |g| ensures LinkedNode(h'', g[k], parent, ObjAt(g, k + 1)) {
      if k < |f| {
        assert g[k] == f[k] && ObjAt(g, k + 1) == if k + 1 == |f| then t.obj else ObjAt(f, k + 1);
        EarlierLinked(h, entry, f, parent, t, h', h'', k);
      } else {
        assert g[k] == t && ObjAt(g, k + 1) == null;
        SlotWithin(entry, f, |f|);
        assert Agree(h, h'', Objs(t.kids));
        LinkedFrame(h, h'', h[t.obj].ioFirstChild, t.kids, t.obj);
      }
    }
    StoredHead(h, entry, f, parent, |f|, h');
  }

  /** A sibling in front of the one appended. */
  lemma EarlierLinked(
    h: Snapshot, entry: Slot, f: seq<Tree>, parent: PciObj?, t: Tree, h': Snapshot, h'': Snapshot, k: nat)
    requires entry.o in h && Linked(h, Fetch(h, entry), f, parent) && NoDup(f) && k < |f|
    requires entry.o !in Objs(f) && t.obj !in Objs(f)
    requires SlotOf(entry, f, |f|).o in h && h' == Stored(h, SlotOf(entry, f, |f|), t.obj)
    requires t.obj in h' && h'' == Placed(h', t.obj, parent)
    ensures LinkedNode(h'', f[k], parent, if k + 1 == |f| then t.obj else ObjAt(f, k + 1))
  {
    StoredNode(h, entry, f, parent, |f|, h', k);
    ObjsAt(f, k);
    NodeFrame(h', h'', f[k], parent, h'[f[k].obj].nextSibling);
  }

  lemma LastApart(f: seq<Tree>, t: Tree)
    requires NoDup(f + [t])
    ensures NoDup(f) && Objs(f + [t]) == Objs(f) + Objs([t]) && Objs([t]) == Foot(t)
    ensures t.obj !in Objs(t.kids) && Foot(t) !! Objs(f)
  {
    var g := f + [t];
    ObjsAppend(f, [t]);
    assert forall i :: 0 <= i < |f| ==> g[i] == f[i];
    assert forall u :: u in f ==> u in g;
    NoDupAt(g, |f|);
    assert FeetApart(f, [t]) by {
      assert forall i :: 0 <= i < |f| ==> Foot(g[i]) !! Foot(g[|f|]);
    }
    ApartObjs(f, [t]);
  }

  // ----- Lookup.

  /** hwloc__pci_find_by_busid on the linked tree. */
  method Find(parent: PciObj, domain: nat, bus: nat, dev: nat, func: nat, ghost h: Snapshot, ghost f: seq<Tree>)
    returns (r: PciObj)
    requires Matches(h) && parent in h && Linked(h, parent.ioFirstChild, f, parent)
    ensures r == FindByBusid(parent, f, domain, bus, dev, func)
    decreases f
  {
    var child := parent.ioFirstChild;
    ghost var i := 0;
    while child != null
      invariant i <= |f| && child == ObjAt(f, i)
      invariant FindByBusid(parent, f, domain, bus, dev, func) == FindByBusid(parent, f[i..], domain, bus, dev, func)
      decreases |f| - i
    {
      assert LinkedNode(h, f[i], parent, ObjAt(f, i + 1));
      if HasId(child, domain, bus, dev, func) {
        return child;
      }
      if child.domain > domain || (child.domain == domain && child.bus > bus) {
        return parent;
      }
      if Contains(child, domain, bus) {
        r := Find(child, domain, bus, dev, func, h, f[i].kids);
        return;
      }
      child := child.nextSibling;
      i := i + 1;
    }
    return parent;
  }

  // ----- Moving siblings below a new bridge.

  /** The sweep in progress: `stay` is what is linked after b, `moved` what is below it; no object is
      in both. */
  ghost predicate Sweeping(h: Snapshot, b: PciObj, parent: PciObj?, stay: seq<Tree>, moved: seq<Tree>) {
    && NoDup(stay) && NoDup(moved) && FeetApart(stay, moved)
    && b in h && b !in Objs(stay) && b !in Objs(moved)
    && Linked(h, h[b].nextSibling, stay, parent) && Linked(h, h[b].ioFirstChild, moved, b)
  }

  lemma MovedApart(stay: seq<Tree>, moved: seq<Tree>, n: nat)
    requires NoDup(stay) && NoDup(moved) && FeetApart(stay, moved) && n < |stay|
    ensures NoDup(Without(stay, n)) && NoDup(moved + [stay[n]]) && FeetApart(Without(stay, n), moved + [stay[n]])
  {
    assert stay[n] in stay;
    var g := Without(stay, n);
    forall t | t in g ensures t in stay {
    }
    forall i, j | 0 <= i < j < |g| ensures Foot(g[i]) !! Foot(g[j]) {
      WithoutAt(stay, n, i);
      WithoutAt(stay, n, j);
    }
    forall i, j | 0 <= i < |g| && 0 <= j < |moved + [stay[n]]| ensures Foot(g[i]) !! Foot((moved + [stay[n]])[j]) {
      WithoutAt(stay, n, i);
    }
  }

  lemma MovedObjs(stay: seq<Tree>, moved: seq<Tree>, n: nat)
    requires n < |stay|
    ensures Objs(Without(stay, n)) + Objs(moved + [stay[n]]) == Objs(stay) + Objs(moved)
  {
    ObjsAppend(moved, [stay[n]]);
    ObjsAppend(stay[..n], stay[n + 1..]);
    ObjsAppend(stay[..n], [stay[n]] + stay[n + 1..]);
    ObjsAppend([stay[n]], stay[n + 1..]);
    assert stay == stay[..n] + ([stay[n]] + stay[n + 1..]);
  }

  lemma ApartObjs(f: seq<Tree>, g: seq<Tree>)
    requires FeetApart(f, g)
    ensures Objs(f) !! Objs(g)
  {
    forall x | x in Objs(f) ensures x !in Objs(g) {
      if x in Objs(g) {
        var i := ObjsWhere(f, x);
        var j := ObjsWhere(g, x);
      }
    }
  }

  /** Moving sibling n of `stay` to the end of `moved`, as four pointer writes. */
  lemma MoveKeeps(h: Snapshot, b: PciObj, parent: PciObj?, stay: seq<Tree>, moved: seq<Tree>, n: nat,
                  h1: Snapshot, h2: Snapshot, h3: Snapshot)
    requires Sweeping(h, b, parent, stay, moved) && n < |stay|
    requires SlotOf(NextOf(b), stay, n).o in h && h1 == Stored(h, SlotOf(NextOf(b), stay, n), ObjAt(stay, n + 1))
    requires SlotOf(ChildOf(b), moved, |moved|).o in h1 &&
             h2 == Stored(h1, SlotOf(ChildOf(b), moved, |moved|), stay[n].obj)
    requires stay[n].obj in h2 && h3 == Placed(h2, stay[n].obj, b)
    ensures Sweeping(h3, b, parent, Without(stay, n), moved + [stay[n]])
  {
    var t, rest := stay[n], Without(stay, n);
    MovedApart(stay, moved, n);
    ApartObjs(stay, moved);
    NoDupAt(stay, n);
    Unlinked(h, NextOf(b), stay, parent, n, h1);
    assert LinkedNode(h, t, parent, ObjAt(stay, n + 1));
    StoredNode(h, NextOf(b), stay, parent, n, h1, n);
    StoredElsewhere(h, NextOf(b), stay, parent, n, h1, Objs(moved));
    LinkedFrame(h, h1, h1[b].ioFirstChild, moved, b);
    MovedObjs(stay, moved, n);
    Appended(h1, ChildOf(b), moved, b, t, h2, h3);
    ApartObjs(rest, moved + [t]);
    ObjsAppend(moved, [t]);
    assert t.obj in Objs([t]);
    RestUntouched(h1, b, rest, parent, moved, t.obj, h2, h3);
  }

  lemma RestUntouched(
    h1: Snapshot, b: PciObj, rest: seq<Tree>, parent: PciObj?, moved: seq<Tree>, t: PciObj, h2: Snapshot,
    h3: Snapshot)
    requires b in h1 && Linked(h1, h1[b].nextSibling, rest, parent) && b !in Objs(rest) && b != t && b !in Objs(moved)
    requires Objs(rest) !! Objs(moved) && t !in Objs(rest)
    requires SlotOf(ChildOf(b), moved, |moved|).o in h1 && h2 == Stored(h1, SlotOf(ChildOf(b), moved, |moved|), t)
    requires t in h2 && h3 == Placed(h2, t, b)
    ensures b in h3 && Linked(h3, h3[b].nextSibling, rest, parent)
  {
    SlotWithin(ChildOf(b), moved, |moved|);
    LinkedFrame(h1, h3, h1[b].nextSibling, rest, parent);
  }

  /** The objects outside a list, the owner of its entry excepted, do not see a store into the list. */
  lemma StoredElsewhere(h: Snapshot, entry: Slot, f: seq<Tree>, parent: PciObj?, n: nat, h': Snapshot, s: set<PciObj>)
    requires entry.o in h && n <= |f| && SlotOf(entry, f, n).o in h
    requires exists p :: h' == Stored(h, SlotOf(entry, f, n), p)
    requires s !! Objs(f) && entry.o !in s
    ensures Agree(h, h', s)
    ensures entry.o in h' && (entry.NextOf? ==> h'[entry.o].ioFirstChild == h[entry.o].ioFirstChild)
    ensures entry.ChildOf? && entry.o !in Objs(f) ==> h'[entry.o].nextSibling == h[entry.o].nextSibling
  {
    if n > 0 {
      ObjsAt(f, n - 1);
    }
  }

  /** Unlinks the sibling at `curp` and links it at `childp`, the end of the children of b. */
  method MoveOne(b: PciObj, parent: PciObj?, curp: Slot, childp: Slot, ghost h: Snapshot,
                 ghost stay: seq<Tree>, ghost moved: seq<Tree>, ghost n: nat)
    returns (ghost h': Snapshot)
    requires Matches(h) && Sweeping(h, b, parent, stay, moved) && n < |stay|
    requires curp == SlotOf(NextOf(b), stay, n) && childp == SlotOf(ChildOf(b), moved, |moved|)
    modifies b, Objs(stay), Objs(moved)
    ensures Matches(h') && h'.Keys == h.Keys
    ensures Agree(h, h', h.Keys - Objs(stay) - Objs(moved) - {b}) && h'[b].parent == h[b].parent
    ensures Sweeping(h', b, parent, Without(stay, n), moved + [stay[n]])
  {
    SlotHolds(h, NextOf(b), stay, parent, n);
    SlotHolds(h, ChildOf(b), moved, b, |moved|);
    SlotWithin(NextOf(b), stay, n);
    SlotWithin(ChildOf(b), moved, |moved|);
    ObjsAt(stay, n);
    var cur := Get(curp);
    ghost var h1 := Set(curp, cur.nextSibling, h);
    ghost var h2 := Set(childp, cur, h1);
    h' := SetPlace(cur, b, h2);
    MoveKeeps(h, b, parent, stay, moved, n, h1, h2, h');
    MoveAgrees(h, b, stay, moved, n, h1, h2, h');
  }

  lemma MoveAgrees(
    h: Snapshot, b: PciObj, stay: seq<Tree>, moved: seq<Tree>, n: nat, h1: Snapshot, h2: Snapshot, h3: Snapshot)
    requires b in h && n < |stay| && b !in Objs(stay)
    requires SlotOf(NextOf(b), stay, n).o in h && h1 == Stored(h, SlotOf(NextOf(b), stay, n), ObjAt(stay, n + 1))
    requires SlotOf(ChildOf(b), moved, |moved|).o in h1 &&
             h2 == Stored(h1, SlotOf(ChildOf(b), moved, |moved|), stay[n].obj)
    requires stay[n].obj in h2 && h3 == Placed(h2, stay[n].obj, b)
    ensures Agree(h, h3, h.Keys - Objs(stay) - Objs(moved) - {b}) && h3[b].parent == h[b].parent
  {
    SlotWithin(NextOf(b), stay, n);
    SlotWithin(ChildOf(b), moved, |moved|);
    ObjsAt(stay, n);
  }

  // The outcome of a sweep that has reached sibling n.
  function KeptFrom(stay: seq<Tree>, n: nat, b: PciObj): seq<Tree>
    requires n <= |stay|
  {
    stay[..n] + Sweep(stay[n..], b).0
  }

  function MovedFrom(stay: seq<Tree>, n: nat, b: PciObj): seq<Tree>
    requires n <= |stay|
  {
    Sweep(stay[n..], b).1
  }

  lemma SweepTurn(stay: seq<Tree>, n: nat, b: PciObj)
    requires n < |stay|
    ensures var cur := stay[n].obj;
            if CompareBusids(b, cur) == LOWER then
              if cur.domain > b.domain || cur.bus > b.subordinate then
                KeptFrom(stay, n, b) == stay && MovedFrom(stay, n, b) == []
              else
                KeptFrom(stay, n, b) == KeptFrom(stay, n + 1, b) &&
                MovedFrom(stay, n, b) == MovedFrom(stay, n + 1, b)
            else
              KeptFrom(stay, n, b) == KeptFrom(Without(stay, n), n, b) &&
              MovedFrom(stay, n, b) == [stay[n]] + MovedFrom(Without(stay, n), n, b)
  {
    assert stay[n..][1..] == stay[n + 1..] && stay[..n] + [stay[n]] == stay[..n + 1] && stay[..n] + stay[n..] == stay;
    assert Without(stay, n)[..n] == stay[..n] && Without(stay, n)[n..] == stay[n + 1..];
  }

  /** The sweep of r has reached sibling n of `stay`. */
  ghost predicate Reached(h: Snapshot, h': Snapshot, b: PciObj, parent: PciObj?, r: seq<Tree>,
                          stay: seq<Tree>, moved: seq<Tree>, n: nat) {
    && n <= |stay| && h'.Keys == h.Keys && Sweeping(h', b, parent, stay, moved)
    && b in h && Agree(h, h', h.Keys - Objs(r) - {b}) && h'[b].parent == h[b].parent
    && Objs(stay) + Objs(moved) == Objs(r)
    && KeptFrom(stay, n, b) == Sweep(r, b).0 && moved + MovedFrom(stay, n, b) == Sweep(r, b).1
  }

  lemma ReachedAfterMove(h: Snapshot, h1: Snapshot, h2: Snapshot, b: PciObj, parent: PciObj?, r: seq<Tree>,
                         stay: seq<Tree>, moved: seq<Tree>, n: nat)
    requires Reached(h, h1, b, parent, r, stay, moved, n) && n < |stay|
    requires CompareBusids(b, stay[n].obj) != LOWER
    requires h2.Keys == h1.Keys && Agree(h1, h2, h1.Keys - Objs(stay) - Objs(moved) - {b}) &&
             h2[b].parent == h1[b].parent
    requires Sweeping(h2, b, parent, Without(stay, n), moved + [stay[n]])
    ensures Reached(h, h2, b, parent, r, Without(stay, n), moved + [stay[n]], n)
  {
    MovedObjs(stay, moved, n);
    SweepTurn(stay, n, b);
    AppendAssoc(moved, stay[n], MovedFrom(Without(stay, n), n, b));
    assert h1.Keys - Objs(stay) - Objs(moved) - {b} == h.Keys - Objs(r) - {b};
  }

  lemma AppendAssoc(f: seq<Tree>, t: Tree, g: seq<Tree>)
    ensures (f + [t]) + g == f + ([t] + g)
  {
  }

  lemma ReachedEnd(
    h: Snapshot, h': Snapshot, b: PciObj, parent: PciObj?, r: seq<Tree>, stay: seq<Tree>, moved: seq<Tree>, n: nat)
    requires Reached(h, h', b, parent, r, stay, moved, n)
    requires n == |stay| || (CompareBusids(b, stay[n].obj) == LOWER &&
                             (stay[n].obj.domain > b.domain || stay[n].obj.bus > b.subordinate))
    ensures stay == Sweep(r, b).0 && moved == Sweep(r, b).1
  {
    if n < |stay| {
      SweepTurn(stay, n, b);
    } else {
      assert stay[..n] == stay && stay[n..] == [] && stay + [] == stay;
    }
    assert moved + [] == moved;
  }

  /** hwloc_pci_add_object, once added is linked in front of the siblings r: those in its range go
      below it. */
  method SweepBelow(added: PciObj, parent: PciObj?, ghost h: Snapshot, ghost r: seq<Tree>) returns (ghost h': Snapshot)
    requires Matches(h) && added.isBridge && Sweeping(h, added, parent, r, [])
    modifies added, Objs(r)
    ensures Matches(h') && h'.Keys == h.Keys && Agree(h, h', h.Keys - Objs(r) - {added})
    ensures h'[added].parent == h[added].parent
    ensures Sweeping(h', added, parent, Sweep(r, added).0, Sweep(r, added).1)
  {
    var childp, curp, done := ChildOf(added), NextOf(added), false;
    ghost var stay, moved, n := r, [], 0;
    h' := h;
    ReachedStart(h, added, parent, r);
    while Get(curp) != null && !done
      invariant Matches(h') && Turning(h, h', added, parent, r, stay, moved, n, curp, childp)
      invariant Get(curp) == ObjAt(stay, n)
      invariant done ==> stay == Sweep(r, added).0 && moved == Sweep(r, added).1
      decreases |stay| - n, !done
    {
      done, curp, childp, h', stay, moved, n := OneTurn(added, parent, curp, childp, h, h', r, stay, moved, n);
    }
    TurningEnd(h, h', added, parent, r, stay, moved, n, curp, childp);
    if !done {
      ReachedEnd(h, h', added, parent, r, stay, moved, n);
    }
  }

  /** The state between turns, and where the two slots are. */
  ghost predicate Turning(
    h: Snapshot, h': Snapshot, b: PciObj, parent: PciObj?, r: seq<Tree>, stay: seq<Tree>, moved: seq<Tree>, n: nat,
    curp: Slot, childp: Slot)
    decreases 0
  {
    && Reached(h, h', b, parent, r, stay, moved, n)
    && curp == SlotOf(NextOf(b), stay, n) && childp == SlotOf(ChildOf(b), moved, |moved|)
  }

  lemma TurningEnd(
    h: Snapshot, h': Snapshot, b: PciObj, parent: PciObj?, r: seq<Tree>, stay: seq<Tree>, moved: seq<Tree>, n: nat,
    curp: Slot, childp: Slot)
    requires Turning(h, h', b, parent, r, stay, moved, n, curp, childp)
    ensures Reached(h, h', b, parent, r, stay, moved, n)
  {
  }

  /** One sibling: it stays, or goes below `added`. */
  method OneTurn(
    added: PciObj, parent: PciObj?, curp: Slot, childp: Slot, ghost h: Snapshot, ghost h1: Snapshot,
    ghost r: seq<Tree>, ghost stay: seq<Tree>, ghost moved: seq<Tree>, ghost n: nat)
    returns (
      done: bool, curp': Slot, childp': Slot, ghost h2: Snapshot, ghost stay': seq<Tree>, ghost moved': seq<Tree>,
      ghost n': nat)
    requires Matches(h1) && Turning(h, h1, added, parent, r, stay, moved, n, curp, childp)
    requires Get(curp) != null && Get(curp) == ObjAt(stay, n)
    modifies added, Objs(r)
    ensures Matches(h2) && Turning(h, h2, added, parent, r, stay', moved', n', curp', childp')
    ensures Get(curp') == ObjAt(stay', n')
    ensures done ==> stay' == Sweep(r, added).0 && moved' == Sweep(r, added).1 && |stay'| - n' == |stay| - n
    ensures !done ==> |stay'| - n' < |stay| - n
  {
    curp', childp', h2, stay', moved', n' := curp, childp, h1, stay, moved, n;
    var cur := Get(curp);
    if CompareBusids(added, cur) == LOWER {
      done := cur.domain > added.domain || cur.bus > added.subordinate;
      PassedBy(added, h, h1, parent, r, stay, moved, n, curp, childp, done);
      if !done {
        curp', n' := NextOf(cur), n + 1;
      }
    } else {
      done := false;
      h2 := MoveBelow(added, parent, curp, childp, h, h1, r, stay, moved, n);
      childp', stay', moved' := NextOf(cur), Without(stay, n), moved + [stay[n]];
    }
  }

  lemma ReachedStart(h: Snapshot, b: PciObj, parent: PciObj?, r: seq<Tree>)
    requires b.isBridge && Sweeping(h, b, parent, r, [])
    ensures Reached(h, h, b, parent, r, r, [], 0)
    ensures b in h && Fetch(h, NextOf(b)) == ObjAt(r, 0)
  {
    assert r[..0] + Sweep(r[0..], b).0 == Sweep(r, b).0 && r[0..] == r;
    SlotHolds(h, NextOf(b), r, parent, 0);
  }

  /** A sibling that stays: whether no later one can go below `added` either. */
  lemma PassedBy(
    added: PciObj, h: Snapshot, h': Snapshot, parent: PciObj?, r: seq<Tree>, stay: seq<Tree>, moved: seq<Tree>,
    n: nat, curp: Slot, childp: Slot, done: bool)
    requires Turning(h, h', added, parent, r, stay, moved, n, curp, childp)
    requires n < |stay| && CompareBusids(added, stay[n].obj) == LOWER
    requires done <==> stay[n].obj.domain > added.domain || stay[n].obj.bus > added.subordinate
    ensures done ==> stay == Sweep(r, added).0 && moved == Sweep(r, added).1
    ensures !done ==> Turning(h, h', added, parent, r, stay, moved, n + 1, NextOf(stay[n].obj), childp)
    ensures !done ==> stay[n].obj in h' && h'[stay[n].obj].nextSibling == ObjAt(stay, n + 1)
  {
    if done {
      ReachedEnd(h, h', added, parent, r, stay, moved, n);
    } else {
      SweepTurn(stay, n, added);
      SlotHolds(h', NextOf(added), stay, parent, n);
    }
  }

  method MoveBelow(
    added: PciObj, parent: PciObj?, curp: Slot, childp: Slot, ghost h: Snapshot, ghost h1: Snapshot,
    ghost r: seq<Tree>, ghost stay: seq<Tree>, ghost moved: seq<Tree>, ghost n: nat)
    returns (ghost h2: Snapshot)
    requires Matches(h1) && Turning(h, h1, added, parent, r, stay, moved, n, curp, childp) && n < |stay|
    requires CompareBusids(added, stay[n].obj) != LOWER
    modifies added, Objs(r)
    ensures Matches(h2)
    ensures Turning(h, h2, added, parent, r, Without(stay, n), moved + [stay[n]], n, curp, NextOf(stay[n].obj))
    ensures curp.o in h2 && Fetch(h2, curp) == ObjAt(Without(stay, n), n)
  {
    h2 := MoveOne(added, parent, curp, childp, h1, stay, moved, n);
    ReachedAfterMove(h, h1, h2, added, parent, r, stay, moved, n);
    assert Without(stay, n)[..n] == stay[..n];
    assert curp == SlotOf(NextOf(added), Without(stay, n), n);
    SlotHolds(h2, NextOf(added), Without(stay, n), parent, n);
  }

  lemma SlotWithin(entry: Slot, f: seq<Tree>, n: nat)
    requires n <= |f|
    ensures n == 0 ==> SlotOf(entry, f, n) == entry
    ensures n > 0 ==>
              && SlotOf(entry, f, n).NextOf? && SlotOf(entry, f, n).o in Objs(f[..n])
              && SlotOf(entry, f, n).o in Objs(f)
  {
    if n > 0 {
      ObjsAt(f, n - 1);
      ObjsAt(f[..n], n - 1);
    }
  }

  // ----- No object is ever linked twice.

  lemma NoDupCons(t: Tree, f: seq<Tree>)
    requires NoDup(f) && t.obj !in Objs(t.kids) && NoDup(t.kids) && Foot(t) !! Objs(f)
    ensures NoDup([t] + f)
  {
    forall i | 0 <= i < |f| ensures Foot(t) !! Foot(f[i]) {
      ObjsAt(f, i);
    }
  }

  lemma NoDupTail(f: seq<Tree>)
    requires NoDup(f) && f != []
    ensures NoDup(f[1..]) && Foot(f[0]) !! Objs(f[1..]) && f[0].obj !in Objs(f[0].kids) && NoDup(f[0].kids)
  {
    assert f[0] in f;
    assert FeetApart([f[0]], f[1..]);
    ApartObjs([f[0]], f[1..]);
    assert Objs([f[0]]) == Foot(f[0]);
  }

  lemma {:induction false} SweepNoDup(f: seq<Tree>, b: PciObj)
    requires NoDup(f)
    ensures NoDup(Sweep(f, b).0) && NoDup(Sweep(f, b).1)
    ensures Objs(Sweep(f, b).0) !! Objs(Sweep(f, b).1) && Objs(Sweep(f, b).0) + Objs(Sweep(f, b).1) == Objs(f)
  {
    if f != [] {
      NoDupTail(f);
      SweepNoDup(f[1..], b);
      var kept, moved := Sweep(f[1..], b).0, Sweep(f[1..], b).1;
      NoDupCons(f[0], kept);
      NoDupCons(f[0], moved);
      ObjsAppend([f[0]], kept);
      ObjsAppend([f[0]], moved);
    }
  }

  /** Whatever the bus ids, one insertion links at most the new object, once, and loses none. */
  lemma {:induction false} AddNoDup(f: seq<Tree>, added: PciObj)
    requires NoDup(f) && added !in Objs(f)
    ensures NoDup(Add(f, added)) && Objs(f) <= Objs(Add(f, added)) <= Objs(f) + {added}
    decreases f
  {
    if f != [] {
      var head, rest := f[0], f[1..];
      NoDupTail(f);
      match CompareBusids(added, head.obj)
      case HIGHER =>
        AddNoDup(rest, added);
        NoDupCons(head, Add(rest, added));
        ObjsAppend([head], Add(rest, added));
      case INCLUDED =>
        AddNoDup(head.kids, added);
        NoDupCons(Node(head.obj, Add(head.kids, added)), rest);
        ObjsAppend([Node(head.obj, Add(head.kids, added))], rest);
      case EQUAL =>
      case _ =>
        SweepNoDup(f, added);
        var (kept, moved) := if added.isBridge then Sweep(f, added) else (f, []);
        NoDupCons(Node(added, moved), kept);
        ObjsAppend([Node(added, moved)], kept);
    }
  }

  // ----- Insertion.

  lemma {:induction false} AddSkips(f: seq<Tree>, added: PciObj, n: nat)
    requires n <= |f| && forall k :: 0 <= k < n ==> CompareBusids(added, f[k].obj) == HIGHER
    ensures Add(f, added) == f[..n] + Add(f[n..], added)
  {
    if n > 0 {
      AddSkips(f[1..], added, n - 1);
      HeadAndPrefix(f, n, Add(f[n..], added));
    }
  }

  lemma HeadAndPrefix(f: seq<Tree>, n: nat, tail: seq<Tree>)
    requires 0 < n <= |f|
    ensures f[1..][n - 1..] == f[n..]
    ensures [f[0]] + (f[1..][..n - 1] + tail) == f[..n] + tail
  {
  }

  /** What Add does once the search has stopped at sibling n. */
  lemma AddCases(f: seq<Tree>, added: PciObj, n: nat)
    requires n <= |f| && forall k :: 0 <= k < n ==> CompareBusids(added, f[k].obj) == HIGHER
    ensures n == |f| ==> Add(f, added) == f + [Node(added, [])]
    ensures n < |f| && CompareBusids(added, f[n].obj) == INCLUDED ==>
              Add(f, added) == f[n := Node(f[n].obj, Add(f[n].kids, added))]
    ensures n < |f| && CompareBusids(added, f[n].obj) == EQUAL ==> Add(f, added) == f
    ensures n < |f| && CompareBusids(added, f[n].obj) in {LOWER, SUPERSET} ==>
              Add(f, added) == f[..n] + ([Node(added, MovedBy(f[n..], added))] + KeptBy(f[n..], added))
  {
    AddSkips(f, added, n);
    if n == |f| {
      assert f[n..] == [] && f[..n] == f;
    } else {
      AddHere(f[n], f[n + 1..], added);
      Rejoined(f, n, Node(f[n].obj, Add(f[n].kids, added)));
    }
  }

  lemma AddHere(t: Tree, rest: seq<Tree>, added: PciObj)
    ensures CompareBusids(added, t.obj) == INCLUDED ==>
              Add([t] + rest, added) == [Node(t.obj, Add(t.kids, added))] + rest
    ensures CompareBusids(added, t.obj) == EQUAL ==> Add([t] + rest, added) == [t] + rest
    ensures CompareBusids(added, t.obj) in {LOWER, SUPERSET} ==>
              Add([t] + rest, added) == [Node(added, MovedBy([t] + rest, added))] + KeptBy([t] + rest, added)
  {
    assert ([t] + rest)[1..] == rest;
  }

  lemma Rejoined(f: seq<Tree>, n: nat, t: Tree)
    requires n < |f|
    ensures f[n..] == [f[n]] + f[n + 1..] && f[..n] + ([f[n]] + f[n + 1..]) == f
    ensures f[..n] + ([t] + f[n + 1..]) == f[n := t]
  {
  }

  function KeptBy(f: seq<Tree>, added: PciObj): seq<Tree> {
    if added.isBridge then Sweep(f, added).0 else f
  }

  function MovedBy(f: seq<Tree>, added: PciObj): seq<Tree> {
    if added.isBridge then Sweep(f, added).1 else []
  }

  /** added stands in the slot of sibling n, `kept` after it and `moved` below it. */
  lemma InsertedAt(h: Snapshot, h': Snapshot, entry: Slot, f: seq<Tree>, parent: PciObj?, n: nat,
                   added: PciObj, kept: seq<Tree>, moved: seq<Tree>)
    requires entry.o in h && Linked(h, Fetch(h, entry), f, parent) && NoDup(f) && n <= |f|
    requires entry.o !in Objs(f) && added !in Objs(f) && added != entry.o
    requires Agree(h, h', Objs(f[..n]) - {SlotOf(entry, f, n).o})
    requires var sl := SlotOf(entry, f, n); sl.o in h && sl.o in h' && added in h' && Placing(h, h', sl, added)
    requires n > 0 ==> Agree(h, h', {entry.o})
    requires h'[added].parent == parent && Linked(h', h'[added].nextSibling, kept, parent)
    requires Linked(h', h'[added].ioFirstChild, moved, added)
    ensures entry.o in h' && Linked(h', Fetch(h', entry), f[..n] + ([Node(added, moved)] + kept), parent)
  {
    var g := f[..n] + ([Node(added, moved)] + kept);
    forall k: nat | k < |g| ensures LinkedNode(h', g[k], parent, ObjAt(g, k + 1)) {
      if k < n {
        assert LinkedNode(h, f[k], parent, ObjAt(f, k + 1));
        NoDupAt(f, k);
        if n > 0 {
          NoDupAt(f, n - 1);
        }
        assert f[..n][k] == f[k];
        ObjsAt(f[..n], k);
        NodeFrame(h, h', f[k], parent, ObjAt(f, k + 1));
      } else if k > n {
        assert LinkedNode(h', kept[k - n - 1], parent, ObjAt(kept, k - n));
      }
    }
  }

  /** The slot's owner changes in that slot only, where it now holds p. */
  ghost predicate Placing(h: Snapshot, h': Snapshot, sl: Slot, p: PciObj)
    requires sl.o in h && sl.o in h'
  {
    h'[sl.o] == if sl.ChildOf? then h[sl.o].(ioFirstChild := p) else h[sl.o].(nextSibling := p)
  }

  lemma SiblingBelow(
    h: Snapshot, h': Snapshot, f: seq<Tree>, parent: PciObj?, n: nat, kids: seq<Tree>, k: nat)
    requires n < |f| && k < |f| && LinkedNode(h, f[k], parent, ObjAt(f, k + 1))
    requires k != n ==> Agree(h, h', Foot(f[k]))
    requires var cur := f[n].obj; cur in h && cur in h' && h'[cur] == h[cur].(ioFirstChild := h'[cur].ioFirstChild)
    requires Linked(h', h'[f[n].obj].ioFirstChild, kids, f[n].obj)
    ensures var g := f[n := Node(f[n].obj, kids)]; LinkedNode(h', g[k], parent, ObjAt(g, k + 1))
  {
    var g := f[n := Node(f[n].obj, kids)];
    assert ObjAt(g, k + 1) == ObjAt(f, k + 1);
    if k != n {
      NodeUntouched(h, h', f[k], parent, ObjAt(f, k + 1));
    }
  }

  /** Only what is below sibling n changed. */
  lemma InsertedBelow(h: Snapshot, h': Snapshot, entry: Slot, f: seq<Tree>, parent: PciObj?, n: nat, kids: seq<Tree>)
    requires entry.o in h && Linked(h, Fetch(h, entry), f, parent) && NoDup(f) && n < |f| && entry.o !in Objs(f)
    requires forall k :: 0 <= k < |f| && k != n ==> Agree(h, h', Foot(f[k]))
    requires Agree(h, h', {entry.o})
    requires var cur := f[n].obj; cur in h && cur in h' && h'[cur] == h[cur].(ioFirstChild := h'[cur].ioFirstChild)
    requires Linked(h', h'[f[n].obj].ioFirstChild, kids, f[n].obj)
    ensures entry.o in h' && Linked(h', Fetch(h', entry), f[n := Node(f[n].obj, kids)], parent)
  {
    var g := f[n := Node(f[n].obj, kids)];
    forall k: nat | k < |g| ensures LinkedNode(h', g[k], parent, ObjAt(g, k + 1)) {
      assert LinkedNode(h, f[k], parent, ObjAt(f, k + 1));
      SiblingBelow(h, h', f, parent, n, kids, k);
    }
  }

  lemma NodeUntouched(h: Snapshot, h': Snapshot, t: Tree, parent: PciObj?, next: PciObj?)
    requires LinkedNode(h, t, parent, next) && Agree(h, h', Foot(t))
    ensures LinkedNode(h', t, parent, next)
  {
    NodeFrame(h, h', t, parent, next);
  }

  /** A sibling list f entered at `slot`, under `parent`, that added may be added to. */
  ghost predicate Ready(h: Snapshot, slot: Slot, f: seq<Tree>, parent: PciObj?, added: PciObj) {
    && slot.ChildOf? && slot.o in h && added in h && slot.o != added && h[added].ioFirstChild == null
    && Linked(h, Fetch(h, slot), f, parent) && NoDup(f) && slot.o !in Objs(f) && added !in Objs(f)
  }

  /** hwloc_pci_add_object: the linked tree becomes what Add says, and no other object is touched. */
  method AddObject(parent: PciObj?, slot: Slot, added: PciObj, ghost h: Snapshot, ghost f: seq<Tree>)
    returns (ghost h': Snapshot)
    requires Matches(h) && Ready(h, slot, f, parent, added)
    modifies slot.o, added, Objs(f)
    ensures Matches(h') && h'.Keys == h.Keys && Agree(h, h', h.Keys - Objs(f) - {added, slot.o})
    ensures h'[slot.o] == h[slot.o].(ioFirstChild := h'[slot.o].ioFirstChild)
    ensures Linked(h', Fetch(h', slot), Add(f, added), parent)
    decreases f
  {
    var curp := slot;
    ghost var n := 0;
    h' := h;
    SlotHolds(h, slot, f, parent, 0);
    while Get(curp) != null && CompareBusids(added, Get(curp)) == HIGHER
      invariant n <= |f| && curp == SlotOf(slot, f, n) && Matches(h)
      invariant curp.o in h && Get(curp) == ObjAt(f, n)
      invariant forall k :: 0 <= k < n ==> CompareBusids(added, f[k].obj) == HIGHER
      decreases |f| - n
    {
      SlotHolds(h, slot, f, parent, n);
      curp := NextOf(Get(curp));
      n := n + 1;
    }
    AddCases(f, added, n);
    var cur := Get(curp);
    if cur == null {
      h' := AddAtEnd(parent, slot, curp, added, h, f);
    } else {
      var comp := CompareBusids(added, cur);
      if comp == INCLUDED {
        h' := AddBelow(parent, slot, cur, added, h, f, n);
      } else if comp != EQUAL {
        h' := AddBefore(parent, slot, curp, added, h, f, n);
      }
    }
  }

  method AddAtEnd(parent: PciObj?, slot: Slot, curp: Slot, added: PciObj, ghost h: Snapshot, ghost f: seq<Tree>)
    returns (ghost h': Snapshot)
    requires Matches(h) && Ready(h, slot, f, parent, added) && curp == SlotOf(slot, f, |f|)
    modifies slot.o, added, Objs(f)
    ensures Matches(h') && h'.Keys == h.Keys && Agree(h, h', h.Keys - Objs(f) - {added, slot.o})
    ensures h'[slot.o] == h[slot.o].(ioFirstChild := h'[slot.o].ioFirstChild)
    ensures Linked(h', Fetch(h', slot), f + [Node(added, [])], parent)
  {
    SlotHolds(h, slot, f, parent, |f|);
    SlotWithin(slot, f, |f|);
    ghost var h1 := SetPlace(added, parent, h);
    h' := Set(curp, added, h1);
    AtEnd(h, slot, f, parent, added, h');
  }

  lemma AtEnd(h: Snapshot, slot: Slot, f: seq<Tree>, parent: PciObj?, added: PciObj, h': Snapshot)
    requires Ready(h, slot, f, parent, added) && SlotOf(slot, f, |f|).o in h
    requires h' == Stored(Placed(h, added, parent), SlotOf(slot, f, |f|), added)
    ensures Linked(h', Fetch(h', slot), f + [Node(added, [])], parent)
    ensures Agree(h, h', h.Keys - Objs(f) - {added, slot.o})
    ensures h'[slot.o] == h[slot.o].(ioFirstChild := h'[slot.o].ioFirstChild)
  {
    var n := |f|;
    SlotWithin(slot, f, n);
    assert f[..n] == f;
    assert Placing(h, h', SlotOf(slot, f, n), added) && Agree(h, h', Objs(f) - {SlotOf(slot, f, n).o});
    assert Linked(h', h'[added].nextSibling, [], parent) && Linked(h', h'[added].ioFirstChild, [], added);
    InsertedAt(h, h', slot, f, parent, n, added, [], []);
    assert f[..n] + ([Node(added, [])] + []) == f + [Node(added, [])];
  }

  /** added lies in the range of sibling n: it goes somewhere below it. */
  method AddBelow(
    parent: PciObj?, slot: Slot, cur: PciObj, added: PciObj, ghost h: Snapshot, ghost f: seq<Tree>, ghost n: nat)
    returns (ghost h': Snapshot)
    requires Matches(h) && Ready(h, slot, f, parent, added) && n < |f| && cur == f[n].obj
    modifies slot.o, added, Objs(f)
    ensures Matches(h') && h'.Keys == h.Keys && Agree(h, h', h.Keys - Objs(f) - {added, slot.o})
    ensures h'[slot.o] == h[slot.o].(ioFirstChild := h'[slot.o].ioFirstChild)
    ensures Linked(h', Fetch(h', slot), f[n := Node(cur, Add(f[n].kids, added))], parent)
    decreases f, 0
  {
    NoDupAt(f, n);
    assert LinkedNode(h, f[n], parent, ObjAt(f, n + 1));
    h' := AddObject(cur, ChildOf(cur), added, h, f[n].kids);
    OthersAgree(h, h', f, n, added, slot.o);
    InsertedBelow(h, h', slot, f, parent, n, Add(f[n].kids, added));
  }

  lemma OthersAgree(h: Snapshot, h': Snapshot, f: seq<Tree>, n: nat, added: PciObj, owner: PciObj)
    requires NoDup(f) && n < |f| && added !in Objs(f) && owner !in Objs(f)
    requires Agree(h, h', h.Keys - Objs(f[n].kids) - {added, f[n].obj})
    ensures forall k :: 0 <= k < |f| && k != n ==> Agree(h, h', Foot(f[k]))
  {
    forall k | 0 <= k < |f| && k != n ensures Agree(h, h', Foot(f[k])) {
      NoDupAt(f, k);
      NoDupAt(f, n);
    }
  }

  /** added comes before sibling n; if it is a bridge, it takes the later siblings in its range. */
  method AddBefore(
    parent: PciObj?, slot: Slot, curp: Slot, added: PciObj, ghost h: Snapshot, ghost f: seq<Tree>, ghost n: nat)
    returns (ghost h': Snapshot)
    requires Matches(h) && Ready(h, slot, f, parent, added) && n < |f| && curp == SlotOf(slot, f, n)
    modifies slot.o, added, Objs(f)
    ensures Matches(h') && h'.Keys == h.Keys && Agree(h, h', h.Keys - Objs(f) - {added, slot.o})
    ensures h'[slot.o] == h[slot.o].(ioFirstChild := h'[slot.o].ioFirstChild)
    ensures
      Linked(h', Fetch(h', slot), f[..n] + ([Node(added, MovedBy(f[n..], added))] + KeptBy(f[n..], added)), parent)
  {
    SlotHolds(h, slot, f, parent, n);
    SlotWithin(slot, f, n);
    ghost var h3 := PutInFront(parent, curp, added, h);
    Placed1(h, slot, f, parent, n, added, h3);
    h' := h3;
    SuffixWithin(f, n);
    if added.isBridge {
      h' := SweepBelow(added, parent, h3, f[n..]);
      Placed2(h, slot, f, parent, n, added, h3, h', Sweep(f[n..], added).0, Sweep(f[n..], added).1);
    } else {
      Placed2(h, slot, f, parent, n, added, h3, h', f[n..], []);
    }
  }

  method PutInFront(parent: PciObj?, curp: Slot, added: PciObj, ghost h: Snapshot) returns (ghost h': Snapshot)
    requires Matches(h) && curp.o in h && added in h && curp.o != added
    modifies curp.o, added
    ensures Matches(h') && h'.Keys == h.Keys && Placing(h, h', curp, added)
    ensures h'[added] == Links(parent, Fetch(h, curp), h[added].ioFirstChild)
    ensures Agree(h, h', h.Keys - {curp.o, added})
  {
    added.nextSibling := Get(curp);
    ghost var h1 := h[added := h[added].(nextSibling := Fetch(h, curp))];
    ghost var h2 := Set(curp, added, h1);
    added.parent := parent;
    h' := h2[added := h2[added].(parent := parent)];
  }

  lemma SuffixWithin(f: seq<Tree>, n: nat)
    requires n <= |f|
    ensures Objs(f[n..]) <= Objs(f)
  {
    ObjsAppend(f[..n], f[n..]);
    assert f == f[..n] + f[n..];
  }

  /** added linked in front of sibling n, before the sweep. */
  ghost predicate InFront(h: Snapshot, slot: Slot, f: seq<Tree>, parent: PciObj?, n: nat, added: PciObj, h3: Snapshot)
    requires n <= |f|
  {
    var sl := SlotOf(slot, f, n);
    && h3.Keys == h.Keys && sl.o in h && sl.o != added && added in h && Placing(h, h3, sl, added)
    && h3[added] == Links(parent, ObjAt(f, n), h[added].ioFirstChild)
    && Agree(h, h3, h.Keys - {sl.o, added})
  }

  lemma Placed1(h: Snapshot, slot: Slot, f: seq<Tree>, parent: PciObj?, n: nat, added: PciObj, h3: Snapshot)
    requires Ready(h, slot, f, parent, added) && n < |f| && InFront(h, slot, f, parent, n, added, h3)
    ensures Sweeping(h3, added, parent, f[n..], [])
  {
    var r := f[n..];
    NoDupSuffix(f, n);
    PrefixApart(f, n);
    SlotWithin(slot, f, n);
    LinkedSuffix(h, slot, f, parent, n);
    assert Agree(h, h3, Objs(r));
    LinkedFrame(h, h3, ObjAt(f, n), r, parent);
    assert h3[added].nextSibling == ObjAt(f, n) && h3[added].ioFirstChild == null;
    assert FeetApart(r, []) && NoDup([]) && Linked(h3, null, [], added);
  }

  lemma Placed2(h: Snapshot, slot: Slot, f: seq<Tree>, parent: PciObj?, n: nat, added: PciObj, h3: Snapshot,
                h': Snapshot, kept: seq<Tree>, moved: seq<Tree>)
    requires Ready(h, slot, f, parent, added) && n < |f| && InFront(h, slot, f, parent, n, added, h3)
    requires h'.Keys == h3.Keys && Agree(h3, h', h3.Keys - Objs(f[n..]) - {added}) && h'[added].parent == parent
    requires Sweeping(h', added, parent, kept, moved)
    ensures Linked(h', Fetch(h', slot), f[..n] + ([Node(added, moved)] + kept), parent)
    ensures Agree(h, h', h.Keys - Objs(f) - {added, slot.o})
    ensures h'[slot.o] == h[slot.o].(ioFirstChild := h'[slot.o].ioFirstChild)
  {
    SlotWithin(slot, f, n);
    PrefixApart(f, n);
    var sl := SlotOf(slot, f, n);
    assert sl.o !in Objs(f[n..]) && h'[sl.o] == h3[sl.o];
    assert Agree(h, h', Objs(f[..n]) - {sl.o});
    assert n > 0 ==> h'[slot.o] == h[slot.o];
    InsertedAt(h, h', slot, f, parent, n, added, kept, moved);
  }

  lemma NoDupSuffix(f: seq<Tree>, n: nat)
    requires NoDup(f) && n <= |f|
    ensures NoDup(f[n..])
  {
    forall t | t in f[n..] ensures t in f {
    }
  }

  lemma LinkedSuffix(h: Snapshot, entry: Slot, f: seq<Tree>, parent: PciObj?, n: nat)
    requires entry.o in h && Linked(h, Fetch(h, entry), f, parent) && n <= |f|
    ensures Linked(h, ObjAt(f, n), f[n..], parent)
  {
    var r := f[n..];
    forall k: nat | k < |r| ensures LinkedNode(h, r[k], parent, ObjAt(r, k + 1)) {
      assert LinkedNode(h, f[n + k], parent, ObjAt(f, n + k + 1));
    }
  }

  lemma PartsApart(a: seq<Tree>, b: seq<Tree>)
    requires NoDup(a + b)
    ensures Objs(a) !! Objs(b) && Objs(a) + Objs(b) == Objs(a + b)
  {
    ObjsAppend(a, b);
    assert FeetApart(a, b) by {
      assert forall i :: 0 <= i < |a| ==> (a + b)[i] == a[i];
      assert forall j :: 0 <= j < |b| ==> (a + b)[|a| + j] == b[j];
    }
    ApartObjs(a, b);
  }

  lemma PrefixApart(f: seq<Tree>, n: nat)
    requires NoDup(f) && n <= |f|
    ensures Objs(f[..n]) !! Objs(f[n..]) && Objs(f[..n]) + Objs(f[n..]) == Objs(f)
  {
    assert f == f[..n] + f[n..];
    PartsApart(f[..n], f[n..]);
  }

  /** hwloc_pcidisc_tree_insert_by_busid for each discovered object in turn, from an empty tree held by
      `tree`. */
  method Discover(tree: PciObj, s: seq<PciObj>, ghost h: Snapshot) returns (ghost h': Snapshot)
    requires Matches(h) && tree in h && tree.ioFirstChild == null && tree !in s && Distinct(s)
    requires forall x :: x in s ==> x in h && h[x].ioFirstChild == null
    modifies tree, s
    ensures Matches(h') && tree in h' && Linked(h', tree.ioFirstChild, AddAll([], s), null)
  {
    h' := h;
    ghost var f: seq<Tree> := [];
    var i := 0;
    while i < |s|
      invariant i <= |s| && Matches(h') && h'.Keys == h.Keys
      invariant Linked(h', h'[tree].ioFirstChild, f, null) && NoDup(f)
      invariant Objs(f) <= SetOf(s) && tree !in Objs(f)
      invariant forall k :: i <= k < |s| ==> s[k] !in Objs(f) && h'[s[k]] == h[s[k]]
      invariant AddAll(f, s[i..]) == AddAll([], s)
    {
      var x := s[i];
      AddNoDup(f, x);
      assert s[i..][0] == x && s[i..][1..] == s[i + 1..];
      ghost var h1 := h';
      h' := AddObject(null, ChildOf(tree), x, h', f);
      forall k | i + 1 <= k < |s| ensures s[k] !in Objs(Add(f, x)) && h'[s[k]] == h1[s[k]] {
        assert s[k] != x;
      }
      f := Add(f, x);
      i := i + 1;
    }
  }
}
