/** A topology as the values that its attributes hold, and an entry of a list of differences as the replacement
    of one of them. */
module DiffValues {
  import opened DiffTheory

  // ----- Attributes and what they hold: one size, at most one name, any number of infos of one name.

  datatype Attribute = SizeOf(obj: nat) | NameOf(obj: nat) | InfoOf(obj: nat, name: string)

  datatype Value = Number(n: U64) | Text(s: string)

  function ValuesNamed(infos: seq<Info>, name: string): seq<Value> {
    if infos == [] then []
    else (if infos[0].name == name then [Text(infos[0].value)] else []) + ValuesNamed(infos[1..], name)
  }

  function Held(v: Attrs, at: Attribute): seq<Value> {
    match at
    case SizeOf(_) => [Number(v.local)]
    case NameOf(_) => if v.name.Some? then [Text(v.name.value)] else []
    case InfoOf(_, name) => ValuesNamed(v.infos, name)
  }

  function ValuesOf(a: seq<Attrs>, at: Attribute): seq<Value> {
    if at.obj < |a| then Held(a[at.obj], at) else []
  }

  /** The first `from` becomes `to`. */
  function Replaced(vs: seq<Value>, from: Value, to: Value): (ws: seq<Value>)
    ensures |ws| == |vs| && (from !in vs ==> ws == vs)
  {
    if vs == [] then []
    else if vs[0] == from then [to] + vs[1..]
    else [vs[0]] + Replaced(vs[1..], from, to)
  }

  /** The entry is about an attribute that may be changed. */
  predicate Targeted(sh: Shape, e: Entry)
    requires WellShaped(sh)
  {
    Addresses(sh, e) && !e.change.OtherChange? && (e.change.Size? ==> sh.numa[Target(sh, e)])
  }

  function AttributeOf(sh: Shape, e: Entry): Attribute
    requires WellShaped(sh) && Targeted(sh, e)
  {
    var k := Target(sh, e);
    if e.change.Size? then SizeOf(k) else if e.change.Rename? then NameOf(k) else InfoOf(k, e.change.name)
  }

  function From(e: Entry): Value
    requires e.ObjAttr? && !e.change.OtherChange?
  {
    if e.change.Size? then Number(e.change.was)
    else if e.change.Rename? then Text(e.change.before)
    else Text(e.change.from)
  }

  function To(e: Entry): Value
    requires e.ObjAttr? && !e.change.OtherChange?
  {
    if e.change.Size? then Number(e.change.becomes)
    else if e.change.Rename? then Text(e.change.after)
    else Text(e.change.to)
  }

  lemma FlipSwaps(sh: Shape, e: Entry)
    requires WellShaped(sh) && Targeted(sh, e)
    ensures Targeted(sh, Flip(e)) && AttributeOf(sh, Flip(e)) == AttributeOf(sh, e)
    ensures From(Flip(e)) == To(e) && To(Flip(e)) == From(e)
  {
  }

  lemma {:induction false} FoundByValue(infos: seq<Info>, name: string, value: string)
    ensures Find(infos, name, value) < |infos| <==> Text(value) in ValuesNamed(infos, name)
  {
    if infos != [] {
      FoundByValue(infos[1..], name, value);
    }
  }

  lemma ValuesCons(info: Info, rest: seq<Info>, name: string)
    ensures ValuesNamed([info] + rest, name) ==
            if info.name == name then [Text(info.value)] + ValuesNamed(rest, name) else ValuesNamed(rest, name)
  {
    assert ([info] + rest)[1..] == rest;
    assert [] + ValuesNamed(rest, name) == ValuesNamed(rest, name);
  }

  /** infos' has the first value `from` of that name replaced. */
  predicate InfoReplaced(infos: seq<Info>, infos': seq<Info>, name: string, from: string, to: string, other: string) {
    ValuesNamed(infos', other) ==
    if other == name then Replaced(ValuesNamed(infos, name), Text(from), Text(to)) else ValuesNamed(infos, other)
  }

  lemma HeadAfter(rest: seq<Info>, name: string, from: string, to: string, other: string)
    ensures InfoReplaced([Info(name, from)] + rest, [Info(name, to)] + rest, name, from, to, other)
  {
    ValuesCons(Info(name, from), rest, other);
    ValuesCons(Info(name, to), rest, other);
    HeadReplaced(Text(from), ValuesNamed(rest, name), Text(from), Text(to));
  }

  lemma RestAfter(
    head: Info, rest: seq<Info>, rest': seq<Info>, name: string, from: string, to: string, other: string)
    requires head != Info(name, from) && InfoReplaced(rest, rest', name, from, to, other)
    ensures InfoReplaced([head] + rest, [head] + rest', name, from, to, other)
  {
    ValuesCons(head, rest, other);
    ValuesCons(head, rest', other);
    HeadReplaced(Text(head.value), ValuesNamed(rest, name), Text(from), Text(to));
  }

  /** The infos with the first of that name and value changed. */
  function ChangedInfos(infos: seq<Info>, name: string, from: string, to: string): seq<Info> {
    if infos == [] then []
    else if infos[0] == Info(name, from) then [Info(name, to)] + infos[1..]
    else [infos[0]] + ChangedInfos(infos[1..], name, from, to)
  }

  lemma {:induction false} ChangedAtFound(infos: seq<Info>, name: string, from: string, to: string)
    requires Find(infos, name, from) < |infos|
    ensures infos[Find(infos, name, from) := Info(name, to)] == ChangedInfos(infos, name, from, to)
  {
    if infos[0] != Info(name, from) {
      var rest, i := infos[1..], Find(infos[1..], name, from);
      ChangedAtFound(rest, name, from, to);
      assert infos[1 + i := Info(name, to)] == [infos[0]] + rest[i := Info(name, to)];
    } else {
      assert infos[0 := Info(name, to)] == [Info(name, to)] + infos[1..];
    }
  }

  /** Among the infos of its name, an entry replaces the first value that it expects. */
  lemma {:induction false} InfosAfter(infos: seq<Info>, name: string, from: string, to: string, other: string)
    ensures InfoReplaced(infos, ChangedInfos(infos, name, from, to), name, from, to, other)
  {
    if infos != [] {
      var head, rest := infos[0], infos[1..];
      assert infos == [head] + rest;
      if head == Info(name, from) {
        HeadAfter(rest, name, from, to, other);
      } else {
        InfosAfter(rest, name, from, to, other);
        RestAfter(head, rest, ChangedInfos(rest, name, from, to), name, from, to, other);
      }
    }
  }

  lemma HeadReplaced(v: Value, vs: seq<Value>, from: Value, to: Value)
    ensures Replaced([v] + vs, from, to) == if v == from then [to] + vs else [v] + Replaced(vs, from, to)
  {
    assert ([v] + vs)[1..] == vs;
  }

  /** An entry fits exactly when its attribute holds the value it expects. */
  lemma FitsByValue(sh: Shape, a: seq<Attrs>, e: Entry)
    requires WellShaped(sh) && |a| == |sh.parents|
    ensures CanStep(sh, a, e) <==> Targeted(sh, e) && From(e) in ValuesOf(a, AttributeOf(sh, e))
  {
    if Targeted(sh, e) && e.change.InfoValue? {
      FoundByValue(a[Target(sh, e)].infos, e.change.name, e.change.from);
    }
  }

  /** Applying an entry replaces that value, and leaves the other attributes alone. */
  lemma StepByValue(sh: Shape, a: seq<Attrs>, e: Entry, at: Attribute)
    requires WellShaped(sh) && |a| == |sh.parents| && CanStep(sh, a, e)
    ensures Targeted(sh, e)
    ensures ValuesOf(Step(sh, a, e), at) ==
            if at == AttributeOf(sh, e) then Replaced(ValuesOf(a, at), From(e), To(e)) else ValuesOf(a, at)
  {
    if at.obj < |a| {
      var k := Target(sh, e);
      assert Step(sh, a, e)[at.obj] == StepAt(sh, a[at.obj], e, at.obj);
      if e.change.InfoValue? && at.obj == k && at.InfoOf? {
        ChangedAtFound(a[k].infos, e.change.name, e.change.from, e.change.to);
        InfosAfter(a[k].infos, e.change.name, e.change.from, e.change.to, at.name);
      }
    }
  }

  // ----- What entries leave alone.

  predicate SameInfoNames(v: seq<Info>, w: seq<Info>) {
    |v| == |w| && forall i :: 0 <= i < |v| ==> v[i].name == w[i].name
  }

  /** The names of infos, and what total memories are beyond the local memories below. */
  predicate SameFrame(sh: Shape, a: seq<Attrs>, c: seq<Attrs>)
    requires WellShaped(sh) && |a| == |c| == |sh.parents|
  {
    forall x :: 0 <= x < |a| ==> SameInfoNames(a[x].infos, c[x].infos) && Beyond(sh, a, x) == Beyond(sh, c, x)
  }

  function Beyond(sh: Shape, a: seq<Attrs>, x: nat): int
    requires WellShaped(sh) && |a| == |sh.parents| && x < |a|
  {
    (a[x].total - MemoryBelow(sh, a, x, |a|)) % MODULUS
  }

  lemma StepKeepsFrame(sh: Shape, a: seq<Attrs>, e: Entry)
    requires WellShaped(sh) && |a| == |sh.parents| && CanStep(sh, a, e)
    ensures SameFrame(sh, a, Step(sh, a, e))
  {
    var b := Step(sh, a, e);
    forall x | 0 <= x < |a| ensures Beyond(sh, a, x) == Beyond(sh, b, x) {
      MemoryAfter(sh, a, e, x, |a|);
      if e.change.Size? && Above(sh, x, Target(sh, e)) {
        PlusCancels(a[x].total, e.change.becomes - e.change.was, MemoryBelow(sh, a, x, |a|));
      }
    }
  }

  lemma PlusCancels(t: U64, d: int, m: int)
    ensures (Plus(t, d) - (m + d)) % MODULUS == (t - m) % MODULUS
  {
    PlusMod(t + d, -(m + d));
    assert t + d - (m + d) == t - m;
  }

  lemma FrameTransitive(sh: Shape, a: seq<Attrs>, b: seq<Attrs>, c: seq<Attrs>)
    requires WellShaped(sh) && |a| == |b| == |c| == |sh.parents| && SameFrame(sh, a, b) && SameFrame(sh, b, c)
    ensures SameFrame(sh, a, c) && SameFrame(sh, c, a)
  {
  }

  lemma {:induction false} SameMemory(sh: Shape, a: seq<Attrs>, c: seq<Attrs>, x: nat, n: nat)
    requires WellShaped(sh) && n <= |a| == |c| == |sh.parents| && forall k :: 0 <= k < n ==> a[k].local == c[k].local
    ensures MemoryBelow(sh, a, x, n) == MemoryBelow(sh, c, x, n)
  {
    if n > 0 {
      SameMemory(sh, a, c, x, n - 1);
    }
  }

  lemma SameResidue(t: U64, u: U64, m: int)
    requires (t - m) % MODULUS == (u - m) % MODULUS
    ensures t == u
  {
    PlusMod(t - m, m);
    PlusMod(u - m, m);
  }

  lemma ValuesSplit(v: seq<Info>, w: seq<Info>, name: string)
    requires v != [] && w != [] && v[0].name == w[0].name && ValuesNamed(v, name) == ValuesNamed(w, name)
    ensures ValuesNamed(v[1..], name) == ValuesNamed(w[1..], name)
    ensures name == v[0].name ==> v[0].value == w[0].value
  {
    var tv, tw := ValuesNamed(v[1..], name), ValuesNamed(w[1..], name);
    if name == v[0].name {
      assert [Text(v[0].value)] + tv == [Text(w[0].value)] + tw;
      assert ([Text(v[0].value)] + tv)[0] == Text(v[0].value) && ([Text(w[0].value)] + tw)[0] == Text(w[0].value);
      assert ([Text(v[0].value)] + tv)[1..] == tv && ([Text(w[0].value)] + tw)[1..] == tw;
    } else {
      assert [] + tv == tv && [] + tw == tw;
    }
  }

  /** Where the names of infos stand and which values each name has determine the infos. */
  lemma {:induction false} InfosDetermined(v: seq<Info>, w: seq<Info>)
    requires SameInfoNames(v, w) && forall name :: ValuesNamed(v, name) == ValuesNamed(w, name)
    ensures v == w
  {
    if v != [] {
      forall name
        ensures ValuesNamed(v[1..], name) == ValuesNamed(w[1..], name)
        ensures name == v[0].name ==> v[0].value == w[0].value
      {
        ValuesSplit(v, w, name);
      }
      assert v[0].value == w[0].value by {
        ValuesSplit(v, w, v[0].name);
      }
      InfosDetermined(v[1..], w[1..]);
      assert v == [v[0]] + v[1..] && w == [w[0]] + w[1..];
    }
  }

  /** Beside the frame, the values of the attributes are all there is to a state. */
  lemma Determined(sh: Shape, a: seq<Attrs>, c: seq<Attrs>)
    requires WellShaped(sh) && |a| == |c| == |sh.parents| && SameFrame(sh, a, c)
    requires forall at :: ValuesOf(a, at) == ValuesOf(c, at)
    ensures a == c
  {
    forall x | 0 <= x < |a| ensures a[x].local == c[x].local {
      assert ValuesOf(a, SizeOf(x)) == ValuesOf(c, SizeOf(x));
    }
    forall x | 0 <= x < |a| ensures a[x] == c[x] {
      assert ValuesOf(a, NameOf(x)) == ValuesOf(c, NameOf(x));
      forall name ensures ValuesNamed(a[x].infos, name) == ValuesNamed(c[x].infos, name) {
        assert ValuesOf(a, InfoOf(x, name)) == ValuesOf(c, InfoOf(x, name));
      }
      InfosDetermined(a[x].infos, c[x].infos);
      SameMemory(sh, a, c, x, |a|);
      SameResidue(a[x].total, c[x].total, MemoryBelow(sh, a, x, |a|));
    }
  }
}
