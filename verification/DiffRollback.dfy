/** What the rollback of src/hwloc/hwloc/diff.c leaves when an entry of a list does not fit, and exactly when
    that is the state before. */
module DiffRollback {
  import opened DiffTheory
  import opened DiffValues

  /** The state after the entries es were applied and then undone. */
  function RolledBack(sh: Shape, a: seq<Attrs>, es: seq<Entry>): seq<Attrs>
    requires WellShaped(sh) && |a| == |sh.parents| && Applied(sh, a, es).Some?
  {
    Undone(sh, Applied(sh, a, es).value, es)
  }

  // ----- The changes of one attribute.

  datatype Replacement = Replacement(from: Value, to: Value)

  predicate AllTargeted(sh: Shape, es: seq<Entry>)
    requires WellShaped(sh)
  {
    forall i :: 0 <= i < |es| ==> Targeted(sh, es[i])
  }

  /** What the entries about an attribute replace, in their order. */
  function Changes(sh: Shape, es: seq<Entry>, at: Attribute): seq<Replacement>
    requires WellShaped(sh) && AllTargeted(sh, es)
  {
    if es == [] then []
    else
      var cs, e := Changes(sh, es[..|es| - 1], at), es[|es| - 1];
      if AttributeOf(sh, e) == at then cs + [Replacement(From(e), To(e))] else cs
  }

  function Forth(vs: seq<Value>, cs: seq<Replacement>): (ws: seq<Value>)
    ensures |ws| == |vs|
  {
    if cs == [] then vs else Replaced(Forth(vs, cs[..|cs| - 1]), cs[|cs| - 1].from, cs[|cs| - 1].to)
  }

  /** Undoing replacements, first one first; what is not found is passed over. */
  function Back(vs: seq<Value>, cs: seq<Replacement>): (ws: seq<Value>)
    ensures |ws| == |vs|
  {
    if cs == [] then vs else Replaced(Back(vs, cs[..|cs| - 1]), cs[|cs| - 1].to, cs[|cs| - 1].from)
  }

  predicate Returns(vs: seq<Value>, cs: seq<Replacement>) {
    Back(Forth(vs, cs), cs) == vs
  }

  /** Each replacement finds its value. */
  predicate Chain(vs: seq<Value>, cs: seq<Replacement>) {
    cs == [] || (Chain(vs, cs[..|cs| - 1]) && cs[|cs| - 1].from in Forth(vs, cs[..|cs| - 1]))
  }

  /** Each attribute that an entry is about returns to the values it holds in a. */
  predicate AllReturn(sh: Shape, a: seq<Attrs>, es: seq<Entry>) {
    && WellShaped(sh) && AllTargeted(sh, es)
    && forall i :: 0 <= i < |es| ==>
                     var at := AttributeOf(sh, es[i]); Returns(ValuesOf(a, at), Changes(sh, es, at))
  }

  /** Entries that were applied, without the last, and the last. */
  lemma AppliedSplit(sh: Shape, a: seq<Attrs>, es: seq<Entry>)
    requires WellShaped(sh) && |a| == |sh.parents| && es != [] && Applied(sh, a, es).Some?
    ensures var front, e := Applied(sh, a, es[..|es| - 1]), es[|es| - 1];
            front.Some? && CanStep(sh, front.value, e) && Applied(sh, a, es) == Some(Step(sh, front.value, e))
  {
    var n := |es| - 1;
    assert es[..n + 1] == es;
    if Applied(sh, a, es[..n]).None? {
      AppliedPrefix(sh, a, es, n);
    } else {
      AppliedOneMore(sh, a, es, n, Applied(sh, a, es[..n]).value);
    }
  }

  lemma OneMore(vs: seq<Value>, cs: seq<Replacement>, c: Replacement)
    ensures Forth(vs, cs + [c]) == Replaced(Forth(vs, cs), c.from, c.to)
    ensures Chain(vs, cs + [c]) <==> Chain(vs, cs) && c.from in Forth(vs, cs)
    ensures Back(vs, cs + [c]) == Replaced(Back(vs, cs), c.to, c.from)
  {
    assert (cs + [c])[..|cs|] == cs;
  }

  lemma OneMoreTargeted(sh: Shape, es: seq<Entry>)
    requires WellShaped(sh) && es != [] && AllTargeted(sh, es[..|es| - 1]) && Targeted(sh, es[|es| - 1])
    ensures AllTargeted(sh, es)
  {
    var front := es[..|es| - 1];
    assert forall i :: 0 <= i < |front| ==> es[i] == front[i];
  }

  /** Entries that were applied did to each attribute what they say, and found what they expect. */
  lemma {:induction false} AppliedByValue(sh: Shape, a: seq<Attrs>, es: seq<Entry>, at: Attribute)
    requires WellShaped(sh) && |a| == |sh.parents| && Applied(sh, a, es).Some?
    ensures AllTargeted(sh, es) && SameFrame(sh, a, Applied(sh, a, es).value)
    ensures Chain(ValuesOf(a, at), Changes(sh, es, at))
    ensures ValuesOf(Applied(sh, a, es).value, at) == Forth(ValuesOf(a, at), Changes(sh, es, at))
  {
    if es != [] {
      var front, e := es[..|es| - 1], es[|es| - 1];
      AppliedSplit(sh, a, es);
      AppliedByValue(sh, a, front, at);
      OneMoreApplied(sh, a, Applied(sh, a, front).value, es, at);
    }
  }

  lemma OneMoreApplied(sh: Shape, a: seq<Attrs>, b: seq<Attrs>, es: seq<Entry>, at: Attribute)
    requires WellShaped(sh) && |a| == |b| == |sh.parents| && SameFrame(sh, a, b)
    requires es != [] && AllTargeted(sh, es[..|es| - 1]) && CanStep(sh, b, es[|es| - 1])
    requires var cs := Changes(sh, es[..|es| - 1], at);
             Chain(ValuesOf(a, at), cs) && ValuesOf(b, at) == Forth(ValuesOf(a, at), cs)
    ensures AllTargeted(sh, es) && SameFrame(sh, a, Step(sh, b, es[|es| - 1]))
    ensures Chain(ValuesOf(a, at), Changes(sh, es, at))
    ensures ValuesOf(Step(sh, b, es[|es| - 1]), at) == Forth(ValuesOf(a, at), Changes(sh, es, at))
  {
    var e := es[|es| - 1];
    FitsByValue(sh, b, e);
    StepByValue(sh, b, e, at);
    StepKeepsFrame(sh, b, e);
    FrameTransitive(sh, a, b, Step(sh, b, e));
    OneMoreTargeted(sh, es);
    OneMore(ValuesOf(a, at), Changes(sh, es[..|es| - 1], at), Replacement(From(e), To(e)));
  }

  /** One undoing step, in terms of values. */
  lemma UndoneStep(sh: Shape, a: seq<Attrs>, e: Entry, at: Attribute)
    requires WellShaped(sh) && |a| == |sh.parents| && Targeted(sh, e)
    ensures SameFrame(sh, a, StateAfter(sh, a, Flip(e)))
    ensures ValuesOf(StateAfter(sh, a, Flip(e)), at) ==
            if at == AttributeOf(sh, e) then Replaced(ValuesOf(a, at), To(e), From(e)) else ValuesOf(a, at)
  {
    FlipSwaps(sh, e);
    FitsByValue(sh, a, Flip(e));
    if CanStep(sh, a, Flip(e)) {
      StepByValue(sh, a, Flip(e), at);
      StepKeepsFrame(sh, a, Flip(e));
    }
  }

  /** What undoing does to an attribute depends on its values and on the entries about it alone. */
  lemma {:induction false} UndoneByValue(sh: Shape, b: seq<Attrs>, es: seq<Entry>, at: Attribute)
    requires WellShaped(sh) && |b| == |sh.parents| && AllTargeted(sh, es)
    ensures SameFrame(sh, b, Undone(sh, b, es))
    ensures ValuesOf(Undone(sh, b, es), at) == Back(ValuesOf(b, at), Changes(sh, es, at))
  {
    if es != [] {
      var front, e := es[..|es| - 1], es[|es| - 1];
      UndoneByValue(sh, b, front, at);
      UndoneStep(sh, Undone(sh, b, front), e, at);
      FrameTransitive(sh, b, Undone(sh, b, front), Undone(sh, b, es));
      OneMore(ValuesOf(b, at), Changes(sh, front, at), Replacement(From(e), To(e)));
    }
  }

  /** The rollback restores everything if and only if undoing the replacements of each attribute, first one
      first, leads back to the values it held. */
  lemma RolledBackExactly(sh: Shape, a: seq<Attrs>, es: seq<Entry>)
    requires WellShaped(sh) && |a| == |sh.parents| && Applied(sh, a, es).Some?
    ensures RolledBack(sh, a, es) == a <==> AllReturn(sh, a, es)
  {
    var b, c := Applied(sh, a, es).value, RolledBack(sh, a, es);
    AppliedByValue(sh, a, es, SizeOf(0));
    UndoneByValue(sh, b, es, SizeOf(0));
    FrameTransitive(sh, a, b, c);
    forall at ensures ValuesOf(c, at) == ValuesOf(a, at) <==> Returns(ValuesOf(a, at), Changes(sh, es, at)) {
      AppliedByValue(sh, a, es, at);
      UndoneByValue(sh, b, es, at);
    }
    if AllReturn(sh, a, es) {
      forall at ensures ValuesOf(a, at) == ValuesOf(c, at) {
        Untouched(sh, es, at);
      }
      Determined(sh, a, c);
    }
  }

  /** An attribute changes only if some entry is about it. */
  lemma {:induction false} Untouched(sh: Shape, es: seq<Entry>, at: Attribute)
    requires WellShaped(sh) && AllTargeted(sh, es)
    ensures Changes(sh, es, at) == [] <==> forall i :: 0 <= i < |es| ==> AttributeOf(sh, es[i]) != at
  {
    if es != [] {
      var front := es[..|es| - 1];
      Untouched(sh, front, at);
      assert forall i :: 0 <= i < |front| ==> front[i] == es[i];
    }
  }

  // ----- Entries applied the other way round.

  /** The outcome of trying an entry: if its attribute holds what it starts from, the first of that becomes what
      it leads to, and nothing else changes. */
  ghost predicate Forwards(sh: Shape, a: seq<Attrs>, e: Entry, ok: bool, b: seq<Attrs>) {
    && WellShaped(sh) && |a| == |b| == |sh.parents| && SameFrame(sh, a, b)
    && (ok <==> Targeted(sh, e) && From(e) in ValuesOf(a, AttributeOf(sh, e)))
    && forall at ::
         ValuesOf(b, at) ==
         if ok && at == AttributeOf(sh, e) then Replaced(ValuesOf(a, at), From(e), To(e)) else ValuesOf(a, at)
  }

  /** The same the other way round. */
  ghost predicate Backwards(sh: Shape, a: seq<Attrs>, e: Entry, ok: bool, b: seq<Attrs>) {
    && WellShaped(sh) && |a| == |b| == |sh.parents| && SameFrame(sh, a, b)
    && (ok <==> Targeted(sh, e) && To(e) in ValuesOf(a, AttributeOf(sh, e)))
    && forall at ::
         ValuesOf(b, at) ==
         if ok && at == AttributeOf(sh, e) then Replaced(ValuesOf(a, at), To(e), From(e)) else ValuesOf(a, at)
  }

  lemma TriedForwards(sh: Shape, a: seq<Attrs>, e: Entry)
    requires WellShaped(sh) && |a| == |sh.parents|
    ensures Forwards(sh, a, e, CanStep(sh, a, e), StateAfter(sh, a, e))
  {
    FitsByValue(sh, a, e);
    if CanStep(sh, a, e) {
      StepKeepsFrame(sh, a, e);
      forall at {
        StepByValue(sh, a, e, at);
      }
    }
  }

  lemma TriedBackwards(sh: Shape, a: seq<Attrs>, e: Entry)
    requires WellShaped(sh) && |a| == |sh.parents|
    ensures Backwards(sh, a, e, CanStep(sh, a, Flip(e)), StateAfter(sh, a, Flip(e)))
  {
    TriedForwards(sh, a, Flip(e));
    FlipTargeted(sh, e);
    if Targeted(sh, e) {
      FlipSwaps(sh, e);
    }
  }

  function Swapped(cs: seq<Replacement>): (ds: seq<Replacement>)
    ensures |ds| == |cs|
  {
    seq(|cs|, i requires 0 <= i < |cs| => Replacement(cs[i].to, cs[i].from))
  }

  lemma {:induction false} SwappedForth(vs: seq<Value>, cs: seq<Replacement>)
    ensures Forth(vs, Swapped(cs)) == Back(vs, cs) && Back(vs, Swapped(cs)) == Forth(vs, cs)
  {
    if cs != [] {
      var front := cs[..|cs| - 1];
      SwappedForth(vs, front);
      assert Swapped(cs)[..|cs| - 1] == Swapped(front);
    }
  }

  lemma {:induction false} FlippedChanges(sh: Shape, es: seq<Entry>, at: Attribute)
    requires WellShaped(sh) && (AllTargeted(sh, es) || AllTargeted(sh, FlipAll(es)))
    ensures AllTargeted(sh, es) && AllTargeted(sh, FlipAll(es))
    ensures Changes(sh, FlipAll(es), at) == Swapped(Changes(sh, es, at))
  {
    forall i | 0 <= i < |es| ensures Targeted(sh, es[i]) <==> Targeted(sh, FlipAll(es)[i]) {
      FlipTargeted(sh, es[i]);
    }
    if es != [] {
      var front, e := es[..|es| - 1], es[|es| - 1];
      assert FlipAll(es)[..|es| - 1] == FlipAll(front);
      assert forall i :: 0 <= i < |front| ==> front[i] == es[i];
      FlippedChanges(sh, front, at);
      FlipSwaps(sh, e);
    }
  }

  lemma FlipTargeted(sh: Shape, e: Entry)
    requires WellShaped(sh)
    ensures Targeted(sh, Flip(e)) <==> Targeted(sh, e)
  {
  }

  /** Applied backwards, entry n finds what it would otherwise leave. */
  ghost predicate FindsOutcome(sh: Shape, a: seq<Attrs>, es: seq<Entry>, n: nat) {
    && WellShaped(sh) && n < |es| && AllTargeted(sh, es[..n]) && Targeted(sh, es[n])
    && To(es[n]) in Back(ValuesOf(a, AttributeOf(sh, es[n])), Changes(sh, es[..n], AttributeOf(sh, es[n])))
  }

  /** What the first n entries make of each attribute if their outcomes are replaced by what they start from. */
  ghost predicate TakenBack(sh: Shape, a: seq<Attrs>, es: seq<Entry>, b: seq<Attrs>) {
    && WellShaped(sh) && |a| == |b| == |sh.parents| && AllTargeted(sh, es) && SameFrame(sh, a, b)
    && forall at :: ValuesOf(b, at) == Back(ValuesOf(a, at), Changes(sh, es, at))
  }

  lemma FlippedByValue(sh: Shape, a: seq<Attrs>, es: seq<Entry>, n: nat)
    requires WellShaped(sh) && |a| == |sh.parents| && n <= |es| && Applied(sh, a, FlipAll(es)[..n]).Some?
    ensures TakenBack(sh, a, es[..n], Applied(sh, a, FlipAll(es)[..n]).value)
    ensures n < |es| ==>
              (CanStep(sh, Applied(sh, a, FlipAll(es)[..n]).value, Flip(es[n])) <==> FindsOutcome(sh, a, es, n))
  {
    var front, b := es[..n], Applied(sh, a, FlipAll(es)[..n]).value;
    assert FlipAll(es)[..n] == FlipAll(front);
    AppliedByValue(sh, a, FlipAll(front), SizeOf(0));
    forall at
      ensures AllTargeted(sh, front)
      ensures ValuesOf(b, at) == Back(ValuesOf(a, at), Changes(sh, front, at))
    {
      AppliedByValue(sh, a, FlipAll(front), at);
      FlippedChanges(sh, front, at);
      SwappedForth(ValuesOf(a, at), Changes(sh, front, at));
    }
    FlippedChanges(sh, front, SizeOf(0));
    if n < |es| {
      FlipTargeted(sh, es[n]);
      FitsByValue(sh, b, Flip(es[n]));
      if Targeted(sh, es[n]) {
        FlipSwaps(sh, es[n]);
      }
    }
  }

  /** How applying a list backwards ends, in terms of what the entries of the list itself name: `nr` is 0, or
      the number, from 1, of the first that does not find its outcome. */
  ghost predicate BackwardsTo(sh: Shape, a: seq<Attrs>, es: seq<Entry>, nr: int, b: seq<Attrs>) {
    && 0 <= nr <= |es|
    && (forall n :: 0 <= n < (if nr == 0 then |es| else nr - 1) ==> FindsOutcome(sh, a, es, n))
    && (nr == 0 ==> TakenBack(sh, a, es, b))
    && (nr > 0 ==> !FindsOutcome(sh, a, es, nr - 1) && PutBack(sh, a, es[..nr - 1], b))
  }

  /** What undoing that in order leaves: entry by entry forwards again, as far as each fits. */
  ghost predicate PutBack(sh: Shape, a: seq<Attrs>, es: seq<Entry>, b: seq<Attrs>) {
    && WellShaped(sh) && |a| == |b| == |sh.parents| && AllTargeted(sh, es) && SameFrame(sh, a, b)
    && forall at :: ValuesOf(b, at) == Forth(Back(ValuesOf(a, at), Changes(sh, es, at)), Changes(sh, es, at))
  }

  lemma PutBackByValue(sh: Shape, a: seq<Attrs>, es: seq<Entry>)
    requires WellShaped(sh) && |a| == |sh.parents| && Applied(sh, a, FlipAll(es)).Some?
    ensures PutBack(sh, a, es, RolledBack(sh, a, FlipAll(es)))
  {
    var b := Applied(sh, a, FlipAll(es)).value;
    var c := RolledBack(sh, a, FlipAll(es));
    AppliedByValue(sh, a, FlipAll(es), SizeOf(0));
    UndoneByValue(sh, b, FlipAll(es), SizeOf(0));
    FrameTransitive(sh, a, b, c);
    FlippedChanges(sh, es, SizeOf(0));
    forall at
      ensures ValuesOf(c, at) == Forth(Back(ValuesOf(a, at), Changes(sh, es, at)), Changes(sh, es, at))
    {
      AppliedByValue(sh, a, FlipAll(es), at);
      UndoneByValue(sh, b, FlipAll(es), at);
      FlippedChanges(sh, es, at);
      SwappedForth(ValuesOf(a, at), Changes(sh, es, at));
      SwappedForth(Back(ValuesOf(a, at), Changes(sh, es, at)), Changes(sh, es, at));
    }
  }

  lemma {:induction false} PrefixApplied(sh: Shape, a: seq<Attrs>, es: seq<Entry>, n: nat)
    requires WellShaped(sh) && |a| == |sh.parents| && n <= |es| && Applied(sh, a, es).Some?
    ensures Applied(sh, a, es[..n]).Some?
    ensures n < |es| ==> CanStep(sh, Applied(sh, a, es[..n]).value, es[n])
  {
    if Applied(sh, a, es[..n]).None? {
      AppliedPrefix(sh, a, es, n);
    } else if n < |es| {
      AppliedOneMore(sh, a, es, n, Applied(sh, a, es[..n]).value);
      if !CanStep(sh, Applied(sh, a, es[..n]).value, es[n]) {
        AppliedPrefix(sh, a, es, n + 1);
      }
    }
  }

  lemma FoundBackwards(sh: Shape, a: seq<Attrs>, es: seq<Entry>, m: nat)
    requires WellShaped(sh) && |a| == |sh.parents| && m <= |es| && Applied(sh, a, FlipAll(es)[..m]).Some?
    ensures forall n :: 0 <= n < m ==> FindsOutcome(sh, a, es, n)
  {
    forall n | 0 <= n < m ensures FindsOutcome(sh, a, es, n) {
      PrefixApplied(sh, a, FlipAll(es)[..m], n);
      assert FlipAll(es)[..m][..n] == FlipAll(es)[..n];
      FlippedByValue(sh, a, es, n);
    }
  }

  /** The list was applied backwards to its end. */
  lemma BackwardsAll(sh: Shape, a: seq<Attrs>, es: seq<Entry>)
    requires WellShaped(sh) && |a| == |sh.parents| && Applied(sh, a, FlipAll(es)).Some?
    ensures BackwardsTo(sh, a, es, 0, Applied(sh, a, FlipAll(es)).value)
  {
    assert FlipAll(es)[..|es|] == FlipAll(es) && es[..|es|] == es;
    FlippedByValue(sh, a, es, |es|);
    FoundBackwards(sh, a, es, |es|);
  }

  /** Entry nr did not fit, and those before it were undone. */
  lemma BackwardsUntil(sh: Shape, a: seq<Attrs>, es: seq<Entry>, nr: nat)
    requires WellShaped(sh) && |a| == |sh.parents| && 0 < nr <= |es| && Applied(sh, a, FlipAll(es)[..nr - 1]).Some?
    requires !CanStep(sh, Applied(sh, a, FlipAll(es)[..nr - 1]).value, Flip(es[nr - 1]))
    ensures BackwardsTo(sh, a, es, nr, RolledBack(sh, a, FlipAll(es)[..nr - 1]))
  {
    assert FlipAll(es)[..nr - 1] == FlipAll(es[..nr - 1]);
    FlippedByValue(sh, a, es, nr - 1);
    FoundBackwards(sh, a, es, nr - 1);
    PutBackByValue(sh, a, es[..nr - 1]);
  }

  // ----- Lists of which no two entries are about the same attribute.

  lemma DistinctByAttribute(sh: Shape, e: Entry, f: Entry)
    requires WellShaped(sh) && Targeted(sh, e) && Targeted(sh, f)
    ensures Distinct(sh, e, f) <==> AttributeOf(sh, e) != AttributeOf(sh, f)
  {
  }

  lemma {:induction false} OnlyChange(sh: Shape, es: seq<Entry>, i: nat)
    requires WellShaped(sh) && AllTargeted(sh, es) && i < |es|
    requires forall j :: 0 <= j < |es| && j != i ==> AttributeOf(sh, es[j]) != AttributeOf(sh, es[i])
    ensures Changes(sh, es, AttributeOf(sh, es[i])) == [Replacement(From(es[i]), To(es[i]))]
  {
    var front := es[..|es| - 1];
    assert forall j :: 0 <= j < |front| ==> front[j] == es[j];
    if i == |es| - 1 {
      Untouched(sh, front, AttributeOf(sh, es[i]));
    } else {
      OnlyChange(sh, front, i);
    }
  }

  lemma DistinctAttributes(sh: Shape, es: seq<Entry>)
    requires WellShaped(sh) && AllTargeted(sh, es)
    ensures PairwiseDistinct(sh, es) <==>
            forall i, j :: 0 <= i < |es| && 0 <= j < |es| && i != j ==> AttributeOf(sh, es[i]) != AttributeOf(sh, es[j])
  {
    forall i, j | 0 <= i < |es| && 0 <= j < |es| && i != j
      ensures Distinct(sh, es[i], es[j]) <==> AttributeOf(sh, es[i]) != AttributeOf(sh, es[j])
    {
      DistinctByAttribute(sh, es[i], es[j]);
    }
  }

  lemma AppliedOne(sh: Shape, a: seq<Attrs>, e: Entry)
    requires WellShaped(sh) && |a| == |sh.parents| && CanStep(sh, a, e)
    ensures Applied(sh, a, [e]) == Some(Step(sh, a, e))
    ensures RolledBack(sh, a, [e]) == StateAfter(sh, Step(sh, a, e), Flip(e))
  {
    var none: seq<Entry> := [];
    assert [e][1..] == none && [e][..0] == none;
    assert Applied(sh, Step(sh, a, e), none) == Some(Step(sh, a, e));
    assert Undone(sh, Step(sh, a, e), none) == Step(sh, a, e);
  }

  /** The info that the entry changes is found again. */
  predicate Recoverable(sh: Shape, a: seq<Attrs>, e: Entry) {
    Addresses(sh, e) && Target(sh, e) < |a| && FoundAgain(a[Target(sh, e)].infos, e.change)
  }

  /** An entry alone on its attribute is undone exactly when the info it changed is found again. */
  lemma OneReturns(sh: Shape, a: seq<Attrs>, e: Entry)
    requires WellShaped(sh) && |a| == |sh.parents| && CanStep(sh, a, e)
    ensures Targeted(sh, e)
    ensures Returns(ValuesOf(a, AttributeOf(sh, e)), [Replacement(From(e), To(e))]) <==>
            Recoverable(sh, a, e)
  {
    FitsByValue(sh, a, e);
    AppliedOne(sh, a, e);
    RolledBackExactly(sh, a, [e]);
    StepUndoneExactly(sh, a, e);
    assert [e][0] == e;
    OnlyChange(sh, [e], 0);
  }

  /** Where no two entries are about the same attribute, the promise is kept if and only if each info that
      changes is found again: no earlier one is already as it becomes. So it is where infos of an object have
      different names. */
  lemma DistinctRestoredExactly(sh: Shape, a: seq<Attrs>, es: seq<Entry>)
    requires WellShaped(sh) && |a| == |sh.parents| && Applied(sh, a, es).Some? && PairwiseDistinct(sh, es)
    ensures forall i :: 0 <= i < |es| ==> CanStep(sh, a, es[i])
    ensures RolledBack(sh, a, es) == a <==> forall i :: 0 <= i < |es| ==> Recoverable(sh, a, es[i])
    ensures AllUnique(a) ==> RolledBack(sh, a, es) == a
  {
    RolledBackExactly(sh, a, es);
    AppliedByValue(sh, a, es, SizeOf(0));
    DistinctAttributes(sh, es);
    forall i | 0 <= i < |es|
      ensures CanStep(sh, a, es[i])
      ensures Returns(ValuesOf(a, AttributeOf(sh, es[i])), Changes(sh, es, AttributeOf(sh, es[i]))) <==>
              Recoverable(sh, a, es[i])
      ensures AllUnique(a) ==> Recoverable(sh, a, es[i])
    {
      AppliedByValue(sh, a, es, AttributeOf(sh, es[i]));
      OnlyChange(sh, es, i);
      ChainOfOne(ValuesOf(a, AttributeOf(sh, es[i])), Replacement(From(es[i]), To(es[i])));
      FitsByValue(sh, a, es[i]);
      OneReturns(sh, a, es[i]);
      FoundIfUnique(a, Target(sh, es[i]), es[i].change);
    }
  }

  lemma ChainOfOne(vs: seq<Value>, c: Replacement)
    ensures Chain(vs, [c]) <==> c.from in vs
    ensures Forth(vs, [c]) == Replaced(vs, c.from, c.to)
  {
    assert [] + [c] == [c];
    OneMore(vs, [], c);
  }

  lemma FoundIfUnique(a: seq<Attrs>, k: nat, change: Change)
    requires k < |a| && (change.InfoValue? ==> Find(a[k].infos, change.name, change.from) < |a[k].infos|)
    ensures AllUnique(a) ==> FoundAgain(a[k].infos, change)
  {
    if AllUnique(a) {
      assert UniqueNames(a[k].infos);
    }
  }

  lemma {:induction false} UndoneUpTo(sh: Shape, a: seq<Attrs>, es: seq<Entry>, n: nat)
    requires WellShaped(sh) && |a| == |sh.parents| && Applied(sh, a, es).Some? && PairwiseDistinct(sh, es)
    requires n <= |es|
    ensures
      var b := Applied(sh, a, es).value;
      Applied(sh, b, FlipAll(es)[..n]) == Some(Undone(sh, b, es[..n]))
  {
    var b := Applied(sh, a, es).value;
    if n > 0 {
      UndoneUpTo(sh, a, es, n - 1);
      assert es[..n][..n - 1] == es[..n - 1] && es[..n][n - 1] == es[n - 1];
      var mid := Undone(sh, b, es[..n - 1]);
      assert Undone(sh, b, es[..n]) == StateAfter(sh, mid, Flip(es[n - 1]));
      FlippedFits(sh, a, es, n - 1);
      AppliedOneMore(sh, b, FlipAll(es), n - 1, mid);
    }
  }

  /** Undoing such entries in the order in which they were applied, which is what the source does, passes none
      over, though it may find another info. */
  lemma UndoneInOrder(sh: Shape, a: seq<Attrs>, es: seq<Entry>)
    requires WellShaped(sh) && |a| == |sh.parents| && Applied(sh, a, es).Some? && PairwiseDistinct(sh, es)
    ensures Applied(sh, Applied(sh, a, es).value, FlipAll(es)) == Some(RolledBack(sh, a, es))
    ensures AllUnique(a) ==> RolledBack(sh, a, es) == a
  {
    UndoneUpTo(sh, a, es, |es|);
    assert FlipAll(es)[..|es|] == FlipAll(es) && es[..|es|] == es;
    DistinctRestoredExactly(sh, a, es);
  }

  lemma FlippedFits(sh: Shape, a: seq<Attrs>, es: seq<Entry>, i: nat)
    requires WellShaped(sh) && |a| == |sh.parents| && Applied(sh, a, es).Some? && PairwiseDistinct(sh, es)
    requires i < |es|
    ensures CanStep(sh, Undone(sh, Applied(sh, a, es).value, es[..i]), Flip(es[i]))
  {
    var b, front := Applied(sh, a, es).value, es[..i];
    AppliedByValue(sh, a, es, SizeOf(0));
    var at := AttributeOf(sh, es[i]);
    AppliedByValue(sh, a, es, at);
    DistinctAttributes(sh, es);
    OnlyChange(sh, es, i);
    ChainOfOne(ValuesOf(a, at), Replacement(From(es[i]), To(es[i])));
    ToIsThere(ValuesOf(a, at), From(es[i]), To(es[i]));
    assert forall j :: 0 <= j < i ==> front[j] == es[j];
    Untouched(sh, front, at);
    UndoneByValue(sh, b, front, at);
    FlipSwaps(sh, es[i]);
    FitsByValue(sh, Undone(sh, b, front), Flip(es[i]));
  }

  lemma {:induction false} ToIsThere(vs: seq<Value>, from: Value, to: Value)
    requires from in vs
    ensures to in Replaced(vs, from, to)
  {
    if vs[0] != from {
      ToIsThere(vs[1..], from, to);
    }
  }

  // ----- Attributes with one value: the values that an attribute goes through decide.

  /** The value before the first replacement, and after each. */
  function Values(cs: seq<Replacement>): (us: seq<Value>)
    ensures |us| == if cs == [] then 0 else |cs| + 1
  {
    if cs == [] then [] else [cs[0].from] + seq(|cs|, i requires 0 <= i < |cs| => cs[i].to)
  }

  /** Where undoing the changes us[0] -> us[1] -> ... in that order leads from v: each that does not find its
      outcome is passed over. */
  function BackAlong(us: seq<Value>, v: Value): Value {
    if |us| <= 1 then v
    else
      var u := BackAlong(us[..|us| - 1], v);
      if u == us[|us| - 1] then us[|us| - 2] else u
  }

  predicate ReturnsAlong(us: seq<Value>) {
    us == [] || BackAlong(us, us[|us| - 1]) == us[0]
  }

  predicate Linked(cs: seq<Replacement>) {
    forall i :: 0 < i < |cs| ==> cs[i].from == cs[i - 1].to
  }

  lemma {:induction false} OneValueForth(vs: seq<Value>, cs: seq<Replacement>)
    requires |vs| <= 1 && Chain(vs, cs) && cs != []
    ensures Linked(cs) && vs == [cs[0].from] && Forth(vs, cs) == [cs[|cs| - 1].to]
  {
    var n := |cs| - 1;
    var front := cs[..n];
    if n > 0 {
      OneValueForth(vs, front);
      assert forall i :: 0 <= i < n ==> front[i] == cs[i];
    }
  }

  lemma ValuesFront(cs: seq<Replacement>)
    requires |cs| > 1
    ensures Values(cs)[..|cs|] == Values(cs[..|cs| - 1])
  {
  }

  lemma OneValueReplaced(u: Value, from: Value, to: Value)
    ensures Replaced([u], from, to) == [if u == from then to else u]
  {
  }

  lemma {:induction false} OneValueBack(v: Value, cs: seq<Replacement>)
    requires Linked(cs)
    ensures Back([v], cs) == [BackAlong(Values(cs), v)]
  {
    if cs != [] {
      var n := |cs| - 1;
      OneValueBack(v, cs[..n]);
      if n > 0 {
        ValuesFront(cs);
      } else {
        assert Values(cs)[..1] == [cs[0].from];
      }
      OneValueReplaced(BackAlong(Values(cs)[..n + 1], v), cs[n].to, cs[n].from);
    }
  }

  lemma OneValueReturns(vs: seq<Value>, cs: seq<Replacement>)
    requires |vs| <= 1 && Chain(vs, cs)
    ensures Returns(vs, cs) <==> ReturnsAlong(Values(cs))
  {
    if cs != [] {
      OneValueForth(vs, cs);
      OneValueBack(cs[|cs| - 1].to, cs);
    }
  }

  /** Undoing in order leads every attribute back along its values. */
  predicate LeadsBack(sh: Shape, es: seq<Entry>) {
    && WellShaped(sh) && AllTargeted(sh, es)
    && forall i :: 0 <= i < |es| ==> ReturnsAlong(Values(Changes(sh, es, AttributeOf(sh, es[i]))))
  }

  lemma {:induction false} NamedOnce(infos: seq<Info>, name: string)
    ensures UniqueNames(infos) ==> |ValuesNamed(infos, name)| <= 1
    ensures (forall i :: 0 <= i < |infos| ==> infos[i].name != name) ==> ValuesNamed(infos, name) == []
  {
    if infos != [] {
      NamedOnce(infos[1..], name);
      if UniqueNames(infos) && infos[0].name == name {
        assert forall i :: 0 <= i < |infos[1..]| ==> infos[1..][i].name == infos[i + 1].name != name;
      }
      if forall i :: 0 <= i < |infos| ==> infos[i].name != name {
        assert forall i :: 0 <= i < |infos[1..]| ==> infos[1..][i] == infos[i + 1];
      }
    }
  }

  lemma OneValue(a: seq<Attrs>, at: Attribute)
    requires AllUnique(a)
    ensures |ValuesOf(a, at)| <= 1
  {
    if at.obj < |a| && at.InfoOf? {
      NamedOnce(a[at.obj].infos, at.name);
    }
  }

  /** Where infos of an object have different names, the list of entries alone decides. */
  lemma RestoredExactly(sh: Shape, a: seq<Attrs>, es: seq<Entry>)
    requires WellShaped(sh) && |a| == |sh.parents| && AllUnique(a) && Applied(sh, a, es).Some?
    ensures RolledBack(sh, a, es) == a <==> LeadsBack(sh, es)
  {
    RolledBackExactly(sh, a, es);
    AppliedByValue(sh, a, es, SizeOf(0));
    forall at ensures Returns(ValuesOf(a, at), Changes(sh, es, at)) <==> ReturnsAlong(Values(Changes(sh, es, at))) {
      AppliedByValue(sh, a, es, at);
      OneValue(a, at);
      OneValueReturns(ValuesOf(a, at), Changes(sh, es, at));
    }
  }

  /** One change is always undone, two exactly when one of them changes nothing. */
  lemma TwoChanges(x: Value, y: Value, z: Value)
    ensures ReturnsAlong([x, y])
    ensures ReturnsAlong([x, y, z]) <==> x == y || y == z
  {
    assert [x, y][..1] == [x] && [x, y, z][..2] == [x, y];
    assert BackAlong([x, y], y) == x && BackAlong([x, y], z) == if z == y then x else z;
  }

  // ----- Lists that give no attribute a value it held before.

  predicate Fresh(vs: seq<Value>, cs: seq<Replacement>) {
    && (forall i :: 0 <= i < |cs| ==> cs[i].to !in vs)
    && (forall i, j :: 0 <= i < j < |cs| ==> cs[i].to != cs[j].to)
  }

  /** No replacement takes up the outcome of an earlier one. */
  predicate Unchained(cs: seq<Replacement>) {
    forall i, j :: 0 <= i < j < |cs| ==> cs[i].to != cs[j].from
  }

  lemma {:induction false} ReplacedAt(vs: seq<Value>, from: Value, to: Value) returns (p: nat)
    requires from in vs
    ensures p < |vs| && vs[p] == from && Replaced(vs, from, to) == vs[p := to]
  {
    if vs[0] == from {
      p := 0;
    } else {
      p := ReplacedAt(vs[1..], from, to);
      p := p + 1;
    }
  }

  /** Each place has its old value, or the outcome of one of the replacements lo to hi, which replaced that;
      and no outcome is in two places. */
  ghost predicate Marked(vs: seq<Value>, us: seq<Value>, cs: seq<Replacement>, lo: nat, hi: nat) {
    && |us| == |vs| && hi <= |cs|
    && (forall p :: 0 <= p < |vs| ==> us[p] == vs[p] || exists i :: lo <= i < hi && cs[i] == Replacement(vs[p], us[p]))
    && (forall p, q :: 0 <= p < q < |vs| && us[p] == us[q] ==> us[p] == vs[p] && us[q] == vs[q])
  }

  lemma MarkedForth(vs: seq<Value>, us: seq<Value>, cs: seq<Replacement>, n: nat)
    requires Fresh(vs, cs) && Unchained(cs) && n < |cs| && Marked(vs, us, cs, 0, n) && cs[n].from in us
    ensures Marked(vs, Replaced(us, cs[n].from, cs[n].to), cs, 0, n + 1)
  {
    var p := ReplacedAt(us, cs[n].from, cs[n].to);
    assert us[p] == vs[p];
    assert cs[n] == Replacement(vs[p], cs[n].to);
  }

  lemma MarkedBack(vs: seq<Value>, us: seq<Value>, cs: seq<Replacement>, n: nat)
    requires Fresh(vs, cs) && n < |cs| && Marked(vs, us, cs, n, |cs|)
    ensures Marked(vs, Replaced(us, cs[n].to, cs[n].from), cs, n + 1, |cs|)
  {
    if cs[n].to in us {
      var p := ReplacedAt(us, cs[n].to, cs[n].from);
      assert us[p] != vs[p];
      var i :| n <= i < |cs| && cs[i] == Replacement(vs[p], us[p]);
      assert i == n;
    }
  }

  lemma {:induction false} UnchainedForth(vs: seq<Value>, cs: seq<Replacement>, n: nat)
    requires Fresh(vs, cs) && Unchained(cs) && n <= |cs| && Chain(vs, cs[..n])
    ensures Marked(vs, Forth(vs, cs[..n]), cs, 0, n)
  {
    if n > 0 {
      assert cs[..n][..n - 1] == cs[..n - 1];
      UnchainedForth(vs, cs, n - 1);
      MarkedForth(vs, Forth(vs, cs[..n - 1]), cs, n - 1);
    }
  }

  lemma {:induction false} UnchainedBack(vs: seq<Value>, us: seq<Value>, cs: seq<Replacement>, n: nat)
    requires Fresh(vs, cs) && n <= |cs| && Marked(vs, us, cs, 0, |cs|)
    ensures Marked(vs, Back(us, cs[..n]), cs, n, |cs|)
  {
    if n > 0 {
      assert cs[..n][..n - 1] == cs[..n - 1];
      UnchainedBack(vs, us, cs, n - 1);
      MarkedBack(vs, Back(us, cs[..n - 1]), cs, n - 1);
    }
  }

  lemma {:induction false} Stays(us: seq<Value>, from: Value, to: Value, v: Value)
    requires v in us && v != from
    ensures v in Replaced(us, from, to)
  {
    if us[0] != v && us[0] != from {
      Stays(us[1..], from, to, v);
    }
  }

  lemma {:induction false} StaysForth(vs: seq<Value>, cs: seq<Replacement>, v: Value, n: nat, m: nat)
    requires n <= m <= |cs| && v in Forth(vs, cs[..n]) && forall k :: n <= k < m ==> cs[k].from != v
    ensures v in Forth(vs, cs[..m])
    decreases m
  {
    if n < m {
      StaysForth(vs, cs, v, n, m - 1);
      PrefixStep(vs, cs, m);
      Stays(Forth(vs, cs[..m - 1]), cs[m - 1].from, cs[m - 1].to, v);
    }
  }

  lemma {:induction false} StaysBack(us: seq<Value>, cs: seq<Replacement>, v: Value, n: nat, m: nat)
    requires n <= m <= |cs| && v in Back(us, cs[..n]) && forall k :: n <= k < m ==> cs[k].to != v
    ensures v in Back(us, cs[..m])
    decreases m
  {
    if n < m {
      StaysBack(us, cs, v, n, m - 1);
      PrefixStep(us, cs, m);
      Stays(Back(us, cs[..m - 1]), cs[m - 1].to, cs[m - 1].from, v);
    }
  }

  lemma PrefixStep(vs: seq<Value>, cs: seq<Replacement>, m: nat)
    requires 0 < m <= |cs|
    ensures Forth(vs, cs[..m]) == Replaced(Forth(vs, cs[..m - 1]), cs[m - 1].from, cs[m - 1].to)
    ensures Back(vs, cs[..m]) == Replaced(Back(vs, cs[..m - 1]), cs[m - 1].to, cs[m - 1].from)
    ensures Chain(vs, cs[..m]) ==> cs[m - 1].from in Forth(vs, cs[..m - 1])
  {
    assert cs[..m][..m - 1] == cs[..m - 1];
  }

  /** The end of a chain: an outcome that is taken up, by a replacement whose own outcome is not. */
  lemma LastLink(cs: seq<Replacement>, i: nat, j: nat) returns (i': nat, j': nat)
    requires i < j < |cs| && cs[i].to == cs[j].from
    ensures i' < j' < |cs| && cs[i'].to == cs[j'].from
    ensures forall k :: j' < k < |cs| ==> cs[k].from != cs[j'].to
    decreases |cs| - j
  {
    if k :| j < k < |cs| && cs[k].from == cs[j].to {
      i', j' := LastLink(cs, j, k);
    } else {
      i', j' := i, j;
    }
  }

  lemma {:induction false} ChainPrefix(vs: seq<Value>, cs: seq<Replacement>, n: nat)
    requires Chain(vs, cs) && n <= |cs|
    ensures Chain(vs, cs[..n])
    decreases |cs|
  {
    if n < |cs| {
      ChainPrefix(vs, cs[..|cs| - 1], n);
      assert cs[..|cs| - 1][..n] == cs[..n];
    } else {
      assert cs[..n] == cs;
    }
  }

  /** Undoing the replacement that took up an outcome brings that back, and nothing later removes it. */
  lemma LeftBehind(us: seq<Value>, cs: seq<Replacement>, i: nat, j: nat)
    requires i < j < |cs| && cs[i].to == cs[j].from && cs[j].to in us
    requires forall k, l :: 0 <= k < l < |cs| ==> cs[k].to != cs[l].to
    ensures cs[i].to in Back(us, cs)
  {
    assert cs[..|cs|] == cs && cs[..0] == [];
    StaysBack(us, cs, cs[j].to, 0, j);
    PrefixStep(us, cs, j + 1);
    ToIsThere(Back(us, cs[..j]), cs[j].to, cs[j].from);
    StaysBack(us, cs, cs[i].to, j + 1, |cs|);
  }

  lemma OutcomeStays(vs: seq<Value>, cs: seq<Replacement>, j: nat)
    requires Chain(vs, cs) && j < |cs| && forall k :: j < k < |cs| ==> cs[k].from != cs[j].to
    ensures cs[j].to in Forth(vs, cs)
  {
    assert cs[..|cs|] == cs;
    ChainPrefix(vs, cs, j + 1);
    PrefixStep(vs, cs, j + 1);
    ToIsThere(Forth(vs, cs[..j]), cs[j].from, cs[j].to);
    StaysForth(vs, cs, cs[j].to, j + 1, |cs|);
  }

  /** At the end of a chain, undoing leaves an outcome that was not there before. */
  lemma ChainedStays(vs: seq<Value>, cs: seq<Replacement>, i: nat, j: nat)
    requires Chain(vs, cs) && Fresh(vs, cs) && i < j < |cs| && cs[i].to == cs[j].from
    requires forall k :: j < k < |cs| ==> cs[k].from != cs[j].to
    ensures !Returns(vs, cs)
  {
    OutcomeStays(vs, cs, j);
    LeftBehind(Forth(vs, cs), cs, i, j);
  }

  lemma FreshReturns(vs: seq<Value>, cs: seq<Replacement>)
    requires Chain(vs, cs) && Fresh(vs, cs)
    ensures Returns(vs, cs) <==> Unchained(cs)
  {
    assert cs[..|cs|] == cs;
    if Unchained(cs) {
      UnchainedForth(vs, cs, |cs|);
      UnchainedBack(vs, Forth(vs, cs), cs, |cs|);
    } else {
      var i, j :| 0 <= i < j < |cs| && cs[i].to == cs[j].from;
      i, j := LastLink(cs, i, j);
      ChainedStays(vs, cs, i, j);
    }
  }

  /** No entry gives an attribute a value that it holds in a or that another entry gives it. */
  predicate AllFresh(sh: Shape, a: seq<Attrs>, es: seq<Entry>) {
    && WellShaped(sh) && AllTargeted(sh, es)
    && forall i :: 0 <= i < |es| ==>
                     var at := AttributeOf(sh, es[i]); Fresh(ValuesOf(a, at), Changes(sh, es, at))
  }

  /** No entry takes up what an earlier one made of the same attribute. */
  predicate NoneTakenUp(sh: Shape, es: seq<Entry>) {
    && WellShaped(sh) && AllTargeted(sh, es)
    && forall i :: 0 <= i < |es| ==> Unchained(Changes(sh, es, AttributeOf(sh, es[i])))
  }

  lemma {:induction false} ManyChanges(sh: Shape, es: seq<Entry>, at: Attribute)
    requires WellShaped(sh) && AllTargeted(sh, es)
    ensures |Changes(sh, es, at)| > 1 <==>
            exists i, j :: 0 <= i < j < |es| && AttributeOf(sh, es[i]) == at && AttributeOf(sh, es[j]) == at
  {
    if es != [] {
      var n := |es| - 1;
      var front := es[..n];
      ManyChanges(sh, front, at);
      Untouched(sh, front, at);
      assert forall i :: 0 <= i < n ==> front[i] == es[i];
      if i :| 0 <= i < n && AttributeOf(sh, front[i]) == at {
        assert AttributeOf(sh, es[n]) == at ==> i < n && AttributeOf(sh, es[i]) == AttributeOf(sh, es[n]);
      }
    }
  }

  /** For lists that give no attribute a value it held before, the promise is kept if and only if no entry
      takes up the outcome of an earlier one; where infos of an object have different names, if and only if no
      two entries are about the same attribute. */
  lemma FreshRestoredExactly(sh: Shape, a: seq<Attrs>, es: seq<Entry>)
    requires WellShaped(sh) && |a| == |sh.parents| && Applied(sh, a, es).Some? && AllFresh(sh, a, es)
    ensures RolledBack(sh, a, es) == a <==> NoneTakenUp(sh, es)
    ensures AllUnique(a) ==> (NoneTakenUp(sh, es) <==> PairwiseDistinct(sh, es))
  {
    RolledBackExactly(sh, a, es);
    DistinctAttributes(sh, es);
    forall i | 0 <= i < |es|
      ensures var vs, cs := ValuesOf(a, AttributeOf(sh, es[i])), Changes(sh, es, AttributeOf(sh, es[i]));
              && (Returns(vs, cs) <==> Unchained(cs))
              && (AllUnique(a) ==> (Unchained(cs) <==> |cs| <= 1))
    {
      var at := AttributeOf(sh, es[i]);
      AppliedByValue(sh, a, es, at);
      FreshReturns(ValuesOf(a, at), Changes(sh, es, at));
      if AllUnique(a) {
        OneValue(a, at);
        OneValueUnchained(ValuesOf(a, at), Changes(sh, es, at));
      }
    }
    forall i | 0 <= i < |es| {
      ManyChanges(sh, es, AttributeOf(sh, es[i]));
    }
  }

  lemma OneValueUnchained(vs: seq<Value>, cs: seq<Replacement>)
    requires |vs| <= 1 && Chain(vs, cs)
    ensures Unchained(cs) <==> |cs| <= 1
  {
    if cs != [] {
      OneValueForth(vs, cs);
      assert |cs| > 1 ==> cs[0].to == cs[1].from;
    }
  }

  // ----- Examples: one object, which has a size only.

  function OneObject(): (sh: Shape)
    ensures WellShaped(sh) && |sh.parents| == 1
  {
    Shape([-1], [true], map[(0, 0) := 0])
  }

  function OfSize(n: U64): (a: seq<Attrs>)
    ensures |a| == 1 && AllUnique(a)
  {
    [Attrs(n, n, None, [])]
  }

  function Resize(from: U64, to: U64): Entry {
    ObjAttr(0, 0, Size(from, to))
  }

  lemma Resized(n: U64, from: U64, to: U64)
    requires n + to < MODULUS
    ensures CanStep(OneObject(), OfSize(n), Resize(from, to)) <==> n == from
    ensures n == from ==> Step(OneObject(), OfSize(n), Resize(from, to)) == OfSize(to)
    ensures StateAfter(OneObject(), OfSize(n), Resize(from, to)) == if n == from then OfSize(to) else OfSize(n)
    ensures Flip(Resize(from, to)) == Resize(to, from)
  {
  }

  /** The size 1 becomes 2 and then 3, and a third entry does not fit: undoing skips the first entry, and the
      size that is left is 2. */
  lemma ChainedIsNotUndone()
    ensures Applied(OneObject(), OfSize(1), [Resize(1, 2), Resize(2, 3)]) == Some(OfSize(3))
    ensures !CanStep(OneObject(), OfSize(3), Resize(7, 8))
    ensures RolledBack(OneObject(), OfSize(1), [Resize(1, 2), Resize(2, 3)]) == OfSize(2)
  {
    Resized(1, 1, 2);
    Resized(2, 2, 3);
    Resized(3, 7, 8);
    Resized(3, 2, 1);
    Resized(3, 3, 2);
    AppliedTwo(OneObject(), OfSize(1), Resize(1, 2), Resize(2, 3));
    UndoneTwo(OneObject(), OfSize(3), Resize(1, 2), Resize(2, 3));
  }

  /** Two entries about the same attribute that are undone all the same: the second changes nothing. */
  lemma ChainedYetUndone()
    ensures Applied(OneObject(), OfSize(1), [Resize(1, 2), Resize(2, 2)]) == Some(OfSize(2))
    ensures !PairwiseDistinct(OneObject(), [Resize(1, 2), Resize(2, 2)])
    ensures RolledBack(OneObject(), OfSize(1), [Resize(1, 2), Resize(2, 2)]) == OfSize(1)
  {
    Resized(1, 1, 2);
    Resized(2, 2, 2);
    Resized(2, 2, 1);
    Resized(1, 2, 2);
    AppliedTwo(OneObject(), OfSize(1), Resize(1, 2), Resize(2, 2));
    UndoneTwo(OneObject(), OfSize(2), Resize(1, 2), Resize(2, 2));
    var es := [Resize(1, 2), Resize(2, 2)];
    assert !Distinct(OneObject(), es[0], es[1]);
  }

  lemma AppliedTwo(sh: Shape, a: seq<Attrs>, e: Entry, f: Entry)
    requires WellShaped(sh) && |a| == |sh.parents| && CanStep(sh, a, e) && CanStep(sh, Step(sh, a, e), f)
    ensures Applied(sh, a, [e, f]) == Some(Step(sh, Step(sh, a, e), f))
  {
    var none: seq<Entry>, b := [], Step(sh, a, e);
    assert [e, f][1..] == [f] && [f][1..] == none;
    assert Applied(sh, Step(sh, b, f), none) == Some(Step(sh, b, f));
    assert Applied(sh, b, [f]) == Applied(sh, Step(sh, b, [f][0]), [f][1..]);
    assert Applied(sh, a, [e, f]) == Applied(sh, Step(sh, a, [e, f][0]), [e, f][1..]);
  }

  lemma UndoneTwo(sh: Shape, a: seq<Attrs>, e: Entry, f: Entry)
    requires WellShaped(sh) && |a| == |sh.parents|
    ensures Undone(sh, a, [e, f]) == StateAfter(sh, StateAfter(sh, a, Flip(e)), Flip(f))
  {
    var none: seq<Entry> := [];
    assert [e, f][..1] == [e] && [e][..0] == none && Undone(sh, a, none) == a;
    assert Undone(sh, a, [e]) == StateAfter(sh, Undone(sh, a, [e][..0]), Flip([e][0]));
    assert Undone(sh, a, [e, f]) == StateAfter(sh, Undone(sh, a, [e, f][..1]), Flip([e, f][1]));
  }

  // ----- An object with two infos of one name.

  function WithInfos(first: string, second: string): (a: seq<Attrs>)
    ensures |a| == 1
  {
    [Attrs(0, 0, None, [Info("n", first), Info("n", second)])]
  }

  /** One entry is enough: it changes the second info to what the first one is, and undoing changes the first. */
  lemma SameNameNotUndone()
    ensures PairwiseDistinct(OneObject(), [ObjAttr(0, 0, InfoValue("n", "a", "b"))])
    ensures Applied(OneObject(), WithInfos("b", "a"), [ObjAttr(0, 0, InfoValue("n", "a", "b"))]) ==
            Some(WithInfos("b", "b"))
    ensures RolledBack(OneObject(), WithInfos("b", "a"), [ObjAttr(0, 0, InfoValue("n", "a", "b"))]) ==
            WithInfos("a", "b")
  {
    var e := ObjAttr(0, 0, InfoValue("n", "a", "b"));
    var first := WithInfos("b", "a");
    FindSecond("b", "a");
    FindSecond("b", "b");
    var second := WithInfos("b", "b");
    assert CanStep(OneObject(), first, e);
    assert Step(OneObject(), first, e)[0] == StepAt(OneObject(), first[0], e, 0) == second[0];
    assert Step(OneObject(), first, e) == second;
    assert CanStep(OneObject(), second, Flip(e));
    var third := WithInfos("a", "b");
    assert Step(OneObject(), second, Flip(e))[0] == StepAt(OneObject(), second[0], Flip(e), 0) == third[0];
    AppliedOne(OneObject(), first, e);
  }

  lemma FindSecond(first: string, second: string)
    requires "b" == first
    ensures Find(WithInfos(first, second)[0].infos, "n", "b") == 0
    ensures second == "a" ==> Find(WithInfos(first, second)[0].infos, "n", "a") == 1
  {
    var infos := WithInfos(first, second)[0].infos;
    assert infos[1..] == [Info("n", second)];
    assert "a" != "b" by { assert "a"[0] != "b"[0]; }
  }
}
