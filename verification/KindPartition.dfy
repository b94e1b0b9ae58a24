/** CPU kinds as values: a list of disjoint sets of PUs, each with its info attributes. `Register` says
    in one step what the in-place pass of src/hwloc/hwloc/cpukinds.c does to each kind; the lemmas
    follow what any sequence of registrations, with any reordering in between, keeps. */
module KindPartition {
  datatype Info = Info(name: string, value: string)

  const EFFICIENCY_UNKNOWN: int := -1

  datatype KindView = KindView(cpus: iset<nat>, efficiency: int, forced: int, infos: seq<Info>)

  /** A registration that passed the argument checks. */
  datatype Registration = Registration(cpus: iset<nat>, forced: int, infos: seq<Info>, overwrite: bool)

  /** hwloc__cpukind_add_infos: appends what is not there yet. */
  function AddInfos(infos: seq<Info>, more: seq<Info>): seq<Info> {
    if more == [] then infos
    else
      var all := AddInfos(infos, more[..|more| - 1]);
      if more[|more| - 1] in all then all else all + [more[|more| - 1]]
  }

  lemma {:induction false} AddInfosMembers(infos: seq<Info>, more: seq<Info>, x: Info)
    ensures x in AddInfos(infos, more) <==> x in infos || x in more
  {
    if more != [] {
      var front, last := more[..|more| - 1], more[|more| - 1];
      assert more == front + [last];
      AddInfosMembers(infos, front, x);
    }
  }

  /** Where x first is in s. */
  function FirstAt(s: seq<Info>, x: Info): (i: nat)
    ensures i <= |s| && (i < |s| <==> x in s)
    ensures i < |s| ==> s[i] == x
    ensures forall j :: 0 <= j < i ==> s[j] != x
  {
    if s == [] || s[0] == x then 0 else 1 + FirstAt(s[1..], x)
  }

  /** infos lists what is in `given`, each pair once, in the order in which they first came. */
  ghost predicate ListsOnce(infos: seq<Info>, given: seq<Info>) {
    && (forall x :: x in infos <==> x in given)
    && (forall i, j :: 0 <= i < j < |infos| ==> FirstAt(given, infos[i]) < FirstAt(given, infos[j]))
  }

  lemma FirstAtAppended(s: seq<Info>, t: seq<Info>, x: Info)
    ensures FirstAt(s + t, x) == if x in s then FirstAt(s, x) else |s| + FirstAt(t, x)
  {
    if x in s {
      var i := FirstAt(s, x);
      assert (s + t)[i] == x && forall j :: 0 <= j < i ==> (s + t)[j] == s[j];
    } else {
      var i := FirstAt(t, x);
      assert i < |t| ==> (s + t)[|s| + i] == x;
      assert forall j :: 0 <= j < |s| ==> (s + t)[j] == s[j];
      assert forall j :: 0 <= j < |t| ==> (s + t)[|s| + j] == t[j];
    }
  }

  lemma ListedAgain(infos: seq<Info>, given: seq<Info>, x: Info)
    requires ListsOnce(infos, given) && x in infos
    ensures ListsOnce(infos, given + [x])
  {
    forall i | 0 <= i < |infos| ensures FirstAt(given + [x], infos[i]) == FirstAt(given, infos[i]) {
      assert infos[i] in infos;
      FirstAtAppended(given, [x], infos[i]);
    }
  }

  lemma NewlyListed(infos: seq<Info>, given: seq<Info>, x: Info)
    requires ListsOnce(infos, given) && x !in infos
    ensures ListsOnce(infos + [x], given + [x])
  {
    var all := infos + [x];
    forall i | 0 <= i < |infos| ensures FirstAt(given + [x], all[i]) == FirstAt(given, infos[i]) < |given| {
      assert all[i] == infos[i] && infos[i] in infos;
      FirstAtAppended(given, [x], infos[i]);
    }
    FirstAtAppended(given, [x], x);
    assert [x][0] == x && FirstAt([x], x) == 0;
    assert all[|infos|] == x;
    forall y ensures y in all <==> y in given + [x] {
      assert y in infos <==> y in given;
    }
  }

  lemma SplitLast(given: seq<Info>, more: seq<Info>)
    requires more != []
    ensures given + more[..|more| - 1] + [more[|more| - 1]] == given + more
  {
  }

  /** Adding infos lists once what was given before and then. */
  lemma {:induction false} AddInfosListsOnce(infos: seq<Info>, given: seq<Info>, more: seq<Info>)
    requires ListsOnce(infos, given)
    ensures ListsOnce(AddInfos(infos, more), given + more)
  {
    if more == [] {
      assert given + more == given;
    } else {
      var front, x := more[..|more| - 1], more[|more| - 1];
      AddInfosListsOnce(infos, given, front);
      if x in AddInfos(infos, front) {
        ListedAgain(AddInfos(infos, front), given + front, x);
      } else {
        NewlyListed(AddInfos(infos, front), given + front, x);
      }
      SplitLast(given, more);
    }
  }

  /** Listing again what is listed once changes nothing: the infos of a kind that is split are copied as they
      are. */
  lemma {:induction false} AddInfosCopies(infos: seq<Info>, n: nat)
    requires n <= |infos| && forall i, j :: 0 <= i < j < |infos| ==> infos[i] != infos[j]
    ensures AddInfos([], infos[..n]) == infos[..n]
  {
    if n > 0 {
      AddInfosCopies(infos, n - 1);
      assert infos[..n][..n - 1] == infos[..n - 1];
      assert infos[..n] == infos[..n - 1] + [infos[n - 1]];
    }
  }

  // What registering r does to an existing kind k: nothing when they are disjoint; k takes r's infos
  // when it lies within r; otherwise k is split.
  ghost predicate Splits(k: KindView, r: Registration) {
    k.cpus * r.cpus != iset{} && !(k.cpus <= r.cpus)
  }

  ghost function Kept(k: KindView, r: Registration): KindView {
    if k.cpus * r.cpus == iset{} then k
    else if k.cpus <= r.cpus then
      k.(infos := AddInfos(k.infos, r.infos),
      forced := if r.overwrite || k.forced == EFFICIENCY_UNKNOWN then r.forced else k.forced)
    else k.(cpus := k.cpus - r.cpus)
  }

  ghost function SplitOff(k: KindView, r: Registration): KindView {
    KindView(k.cpus * r.cpus, EFFICIENCY_UNKNOWN, r.forced, AddInfos(AddInfos([], k.infos), r.infos))
  }

  /** The split kinds among the first n, in order. */
  ghost function SplitIndexes(v: seq<KindView>, r: Registration, n: nat): (s: seq<nat>)
    requires n <= |v|
    ensures |s| <= n
    ensures forall i :: 0 <= i < |s| ==> s[i] < n && Splits(v[s[i]], r)
  {
    if n == 0 then []
    else SplitIndexes(v, r, n - 1) + if Splits(v[n - 1], r) then [n - 1] else []
  }

  ghost predicate Increasing(s: seq<nat>) {
    forall i, j :: 0 <= i < j < |s| ==> s[i] < s[j]
  }

  lemma {:induction false} SplitIndexesSorted(v: seq<KindView>, r: Registration, n: nat)
    requires n <= |v|
    ensures Increasing(SplitIndexes(v, r, n))
  {
    if n > 0 {
      SplitIndexesSorted(v, r, n - 1);
    }
  }

  lemma {:induction false} SplitIndexesComplete(v: seq<KindView>, r: Registration, n: nat, i: nat) returns (j: nat)
    requires i < n <= |v| && Splits(v[i], r)
    ensures j < |SplitIndexes(v, r, n)| && SplitIndexes(v, r, n)[j] == i
  {
    if i == n - 1 {
      j := |SplitIndexes(v, r, n)| - 1;
    } else {
      j := SplitIndexesComplete(v, r, n - 1, i);
    }
  }

  /** What is left for a final new kind. */
  ghost function Uncovered(v: seq<KindView>, r: Registration): iset<nat> {
    iset p: nat | p in r.cpus && !Covers(v, p)
  }

  ghost function KeptAll(v: seq<KindView>, r: Registration): seq<KindView> {
    seq(|v|, i requires 0 <= i < |v| => Kept(v[i], r))
  }

  ghost function Added(v: seq<KindView>, r: Registration, n: nat): seq<KindView>
    requires n <= |v|
  {
    var s := SplitIndexes(v, r, n);
    seq(|s|, j requires 0 <= j < |s| => SplitOff(v[s[j]], r))
  }

  ghost function Final(v: seq<KindView>, r: Registration): seq<KindView> {
    if Uncovered(v, r) == iset{} then []
    else [KindView(Uncovered(v, r), EFFICIENCY_UNKNOWN, r.forced, AddInfos([], r.infos))]
  }

  ghost function Register(v: seq<KindView>, r: Registration): (w: seq<KindView>)
    ensures |w| <= 2 * |v| + 1
  {
    KeptAll(v, r) + Added(v, r, |v|) + Final(v, r)
  }

  ghost predicate In(v: seq<KindView>, i: nat, p: nat) {
    i < |v| && p in v[i].cpus
  }

  ghost predicate Covers(v: seq<KindView>, p: nat) {
    exists i: nat :: In(v, i, p)
  }

  ghost predicate NonEmpty(k: KindView) {
    exists p: nat :: p in k.cpus
  }

  ghost predicate Partition(v: seq<KindView>) {
    && (forall i :: 0 <= i < |v| ==> NonEmpty(v[i]))
    && (forall i: nat, j: nat, p: nat :: In(v, i, p) && In(v, j, p) ==> i == j)
  }

  ghost predicate HasInfo(v: seq<KindView>, p: nat, x: Info) {
    exists i: nat :: In(v, i, p) && x in v[i].infos
  }

  ghost predicate HasForced(v: seq<KindView>, p: nat, forced: int) {
    exists i: nat :: In(v, i, p) && v[i].forced == forced
  }

  ghost predicate SameKind(v: seq<KindView>, p: nat, q: nat) {
    exists i: nat :: In(v, i, p) && In(v, i, q)
  }

  /** Where the PUs of an entry of Register(v, r) come from. */
  lemma Origin(v: seq<KindView>, r: Registration, j: nat, p: nat)
    requires In(Register(v, r), j, p)
    ensures j < |v| ==> In(v, j, p) && !(p in r.cpus && Splits(v[j], r))
    ensures var s := SplitIndexes(v, r, |v|); |v| <= j < |v| + |s| ==>
              p in r.cpus && Splits(v[s[j - |v|]], r) && In(v, s[j - |v|], p)
    ensures j >= |v| + |SplitIndexes(v, r, |v|)| ==>
              p in r.cpus && !Covers(v, p) && j == |v| + |SplitIndexes(v, r, |v|)|
  {
  }

  /** Where a PU ends up: in what its kind keeps, in the part split off it, or in the final new kind. */
  lemma Destination(v: seq<KindView>, r: Registration, p: nat, i: nat) returns (j: nat)
    requires In(v, i, p) || (p in r.cpus && !Covers(v, p))
    ensures In(Register(v, r), j, p)
    ensures Register(v, r)[j] ==
            if !In(v, i, p) then KindView(Uncovered(v, r), EFFICIENCY_UNKNOWN, r.forced, AddInfos([], r.infos))
            else if p in r.cpus && Splits(v[i], r) then SplitOff(v[i], r)
            else Kept(v[i], r)
  {
    var s := SplitIndexes(v, r, |v|);
    if !In(v, i, p) {
      assert p in Uncovered(v, r);
      j := |v| + |s|;
    } else if p in r.cpus && Splits(v[i], r) {
      j := SplitIndexesComplete(v, r, |v|, i);
      j := |v| + j;
    } else {
      j := i;
    }
  }

  /** One registration keeps the kinds non-empty and disjoint, and covers exactly what was covered
      together with what is registered. */
  lemma RegisterPartitions(v: seq<KindView>, r: Registration)
    requires Partition(v)
    ensures Partition(Register(v, r))
    ensures forall p: nat :: Covers(Register(v, r), p) <==> Covers(v, p) || p in r.cpus
  {
    var w, s := Register(v, r), SplitIndexes(v, r, |v|);
    SplitIndexesSorted(v, r, |v|);
    forall i: nat, j: nat, p: nat | In(w, i, p) && In(w, j, p) ensures i == j {
      Origin(v, r, i, p);
      Origin(v, r, j, p);
      if |v| <= i < |v| + |s| && |v| <= j < |v| + |s| {
        assert s[i - |v|] == s[j - |v|];
      }
    }
    forall i | 0 <= i < |w| ensures NonEmpty(w[i]) {
      EntryNonEmpty(v, r, i);
    }
    forall p: nat ensures Covers(w, p) <==> Covers(v, p) || p in r.cpus {
      if j: nat :| In(w, j, p) {
        Origin(v, r, j, p);
      }
      if i: nat :| In(v, i, p) {
        var j := Destination(v, r, p, i);
      } else if p in r.cpus {
        var j := Destination(v, r, p, 0);
      }
    }
  }

  lemma EntryNonEmpty(v: seq<KindView>, r: Registration, i: nat)
    requires i < |Register(v, r)| && (i < |v| ==> NonEmpty(v[i]))
    ensures NonEmpty(Register(v, r)[i])
  {
    var s := SplitIndexes(v, r, |v|);
    if i < |v| {
      if Splits(v[i], r) {
        var p :| p in v[i].cpus && p !in r.cpus;
        assert p in Kept(v[i], r).cpus;
      } else {
        var p: nat :| p in v[i].cpus;
        assert p in Kept(v[i], r).cpus;
      }
    } else if i < |v| + |s| {
      var p :| p in v[s[i - |v|]].cpus * r.cpus;
      assert p in SplitOff(v[s[i - |v|]], r).cpus;
    } else {
      var p :| p in Uncovered(v, r);
      assert p in Final(v, r)[0].cpus;
    }
  }

  /** One registration adds its infos to the PUs it covers and to no other. */
  lemma RegisterInfos(v: seq<KindView>, r: Registration, p: nat, x: Info)
    requires Partition(v)
    ensures HasInfo(Register(v, r), p, x) <==> HasInfo(v, p, x) || (p in r.cpus && x in r.infos)
  {
    RegisterPartitions(v, r);
    var w := Register(v, r);
    if i: nat :| In(v, i, p) {
      var j := Destination(v, r, p, i);
      assert HasInfo(w, p, x) <==> x in w[j].infos;
      assert HasInfo(v, p, x) <==> x in v[i].infos;
      AddInfosMembers(v[i].infos, r.infos, x);
      AddInfosMembers([], v[i].infos, x);
      AddInfosMembers(AddInfos([], v[i].infos), r.infos, x);
      if p in r.cpus {
        assert p in v[i].cpus * r.cpus;
      }
    } else if p in r.cpus {
      var j := Destination(v, r, p, 0);
      assert HasInfo(w, p, x) <==> x in w[j].infos;
      AddInfosMembers([], r.infos, x);
    } else {
      assert !Covers(w, p) && !HasInfo(w, p, x);
    }
  }

  /** Two PUs are in one kind after a registration when they were and it covers both or neither, or when
      it is the first to cover either and covers both. */
  lemma RegisterSameKind(v: seq<KindView>, r: Registration, p: nat, q: nat)
    requires Partition(v)
    ensures SameKind(Register(v, r), p, q) <==>
            || (SameKind(v, p, q) && (p in r.cpus <==> q in r.cpus))
            || (!Covers(v, p) && !Covers(v, q) && p in r.cpus && q in r.cpus)
  {
    if j: nat :| In(Register(v, r), j, p) && In(Register(v, r), j, q) {
      Origin(v, r, j, p);
      Origin(v, r, j, q);
      assert j < |v| && !Splits(v[j], r) && (p in r.cpus || q in r.cpus) ==>
          p in v[j].cpus * r.cpus || q in v[j].cpus * r.cpus;
    }
    if i: nat :| In(v, i, p) && In(v, i, q) && (p in r.cpus <==> q in r.cpus) {
      var j := Destination(v, r, p, i);
      assert In(Register(v, r), j, q);
    } else if !Covers(v, p) && !Covers(v, q) && p in r.cpus && q in r.cpus {
      var j := Destination(v, r, p, 0);
      assert In(Register(v, r), j, q);
    }
  }

  // ----- The pass over the kinds: after n turns, each against what earlier kinds left of the new set.

  ghost function Left(v: seq<KindView>, r: Registration, n: nat): iset<nat> {
    iset p: nat | p in r.cpus && forall i: nat :: i < n ==> !In(v, i, p)
  }

  ghost function Progress(v: seq<KindView>, r: Registration, n: nat): (w: seq<KindView>)
    requires n <= |v|
    ensures |v| <= |w| <= |v| + n
  {
    if n == 0 then v
    else
      Progress(v, r, n - 1)[n - 1 := Kept(v[n - 1], r)] + if Splits(v[n - 1], r) then [SplitOff(v[n - 1], r)] else []
  }

  lemma {:induction false} ProgressAhead(v: seq<KindView>, r: Registration, n: nat, k: nat)
    requires n <= k < |v|
    ensures Progress(v, r, n)[k] == v[k]
  {
    if n > 0 {
      ProgressAhead(v, r, n - 1, k);
    }
  }

  /** A turn that sees only what is left of the new set does what it would do with all of it. */
  lemma Turn(v: seq<KindView>, r: Registration, n: nat)
    requires Partition(v) && n < |v|
    ensures var r' := r.(cpus := Left(v, r, n));
            && (Splits(v[n], r') <==> Splits(v[n], r))
            && Kept(v[n], r') == Kept(v[n], r) && SplitOff(v[n], r') == SplitOff(v[n], r)
    ensures Left(v, r, n + 1) == Left(v, r, n) - v[n].cpus
  {
    var r' := r.(cpus := Left(v, r, n));
    forall p: nat | p in v[n].cpus ensures p in r'.cpus <==> p in r.cpus {
      assert In(v, n, p);
    }
    assert v[n].cpus * r'.cpus == v[n].cpus * r.cpus;
    assert v[n].cpus - r'.cpus == v[n].cpus - r.cpus;
    assert v[n].cpus <= r'.cpus <==> v[n].cpus <= r.cpus;
    LeftStep(v, r, n);
  }

  lemma LeftStep(v: seq<KindView>, r: Registration, n: nat)
    requires n < |v|
    ensures Left(v, r, n + 1) == Left(v, r, n) - v[n].cpus
  {
    forall p: nat ensures p in Left(v, r, n + 1) <==> p in Left(v, r, n) && p !in v[n].cpus {
      assert In(v, n, p) <==> p in v[n].cpus;
    }
  }

  /** Once nothing is left, the remaining kinds are out of reach and the pass may stop. */
  lemma {:induction false} Stop(v: seq<KindView>, r: Registration, n: nat, m: nat)
    requires Partition(v) && n <= m <= |v| && Left(v, r, n) == iset{}
    ensures Progress(v, r, m) == Progress(v, r, n) && Left(v, r, m) == iset{}
  {
    if n < m {
      Stop(v, r, n, m - 1);
      Turn(v, r, m - 1);
      ProgressAhead(v, r, m - 1, m - 1);
      assert v[m - 1].cpus * Left(v, r, m - 1) == iset{};
    }
  }

  /** The whole pass does to each kind what Register says. */
  lemma {:induction false} ProgressShape(v: seq<KindView>, r: Registration, n: nat)
    requires n <= |v|
    ensures Progress(v, r, n) == KeptAll(v, r)[..n] + v[n..] + Added(v, r, n)
  {
    if n > 0 {
      ProgressShape(v, r, n - 1);
      var off := if Splits(v[n - 1], r) then [SplitOff(v[n - 1], r)] else [];
      assert Added(v, r, n) == Added(v, r, n - 1) + off;
      var mid := KeptAll(v, r)[..n - 1] + v[n - 1..];
      assert mid[n - 1 := Kept(v[n - 1], r)] == KeptAll(v, r)[..n] + v[n..];
    }
  }

  lemma Finish(v: seq<KindView>, r: Registration)
    ensures Left(v, r, |v|) == Uncovered(v, r)
    ensures Register(v, r) == Progress(v, r, |v|) + Final(v, r)
  {
    ProgressShape(v, r, |v|);
    forall p: nat ensures p in Left(v, r, |v|) <==> p in Uncovered(v, r) {
      assert Covers(v, p) <==> exists i: nat :: i < |v| && In(v, i, p);
    }
  }

  // ----- Runs: registrations in any order, the kinds being reordered (ranked) after any of them.

  ghost predicate Reaches(regs: seq<Registration>, v: seq<KindView>)
    decreases |regs|, 1
  {
    if regs == [] then v == [] else exists u :: ReachesFrom(regs, u, v)
  }

  /** The last registration takes u to v. */
  ghost predicate ReachesFrom(regs: seq<Registration>, u: seq<KindView>, v: seq<KindView>)
    requires regs != []
    decreases |regs|, 0
  {
    Reaches(regs[..|regs| - 1], u) && Reordered(Register(u, regs[|regs| - 1]), v)
  }

  ghost predicate Reordered(v: seq<KindView>, w: seq<KindView>) {
    exists f: seq<nat> :: IsReordering(v, w, f)
  }

  /** Ranking gives kinds new efficiencies. */
  ghost predicate SameBut(k: KindView, k': KindView) {
    k == k'.(efficiency := k.efficiency)
  }

  ghost predicate IsReordering(v: seq<KindView>, w: seq<KindView>, f: seq<nat>) {
    && |f| == |v| == |w|
    && (forall i, j :: 0 <= i < |f| && 0 <= j < |f| && f[i] == f[j] ==> i == j)
    && (forall i :: 0 <= i < |f| ==> f[i] < |v| && SameBut(w[i], v[f[i]]))
    && (forall j: nat :: j < |v| ==> j in f)
  }

  lemma ReorderedKeeps(v: seq<KindView>, w: seq<KindView>)
    requires Reordered(v, w) && Partition(v)
    ensures Partition(w)
    ensures forall p: nat :: Covers(v, p) <==> Covers(w, p)
    ensures forall p: nat, x: Info :: HasInfo(v, p, x) <==> HasInfo(w, p, x)
    ensures forall p: nat, e: int :: HasForced(v, p, e) <==> HasForced(w, p, e)
    ensures forall p: nat, q: nat :: SameKind(v, p, q) <==> SameKind(w, p, q)
  {
    var f :| IsReordering(v, w, f);
    forall i: nat, p: nat | In(w, i, p) ensures In(v, f[i], p) && SameBut(w[i], v[f[i]]) {
    }
    forall j: nat, p: nat | In(v, j, p) ensures exists i: nat :: In(w, i, p) && SameBut(w[i], v[j]) {
      assert j in f;
      var i :| 0 <= i < |f| && f[i] == j;
      assert In(w, i, p);
    }
  }

  ghost predicate Registers(r: Registration, p: nat, x: Info) {
    p in r.cpus && x in r.infos
  }

  ghost predicate EverCovered(regs: seq<Registration>, p: nat) {
    exists n :: 0 <= n < |regs| && p in regs[n].cpus
  }

  ghost predicate EverRegistered(regs: seq<Registration>, p: nat, x: Info) {
    exists n :: 0 <= n < |regs| && Registers(regs[n], p, x)
  }

  lemma EverAppend(front: seq<Registration>, r: Registration, p: nat, x: Info)
    ensures EverCovered(front + [r], p) <==> EverCovered(front, p) || p in r.cpus
    ensures EverRegistered(front + [r], p, x) <==> EverRegistered(front, p, x) || Registers(r, p, x)
  {
    assert (front + [r])[|front|] == r;
    assert forall n :: 0 <= n < |front| ==> (front + [r])[n] == front[n];
  }

  /** The kinds cover what was registered, and each PU has the infos of the registrations covering it. */
  ghost predicate Exact(regs: seq<Registration>, v: seq<KindView>) {
    && (forall p: nat :: Covers(v, p) <==> EverCovered(regs, p))
    && (forall p: nat, x: Info :: HasInfo(v, p, x) <==> EverRegistered(regs, p, x))
  }

  lemma RegisterKeepsExact(front: seq<Registration>, u: seq<KindView>, r: Registration, v: seq<KindView>)
    requires Partition(u) && Exact(front, u) && ReachesFrom(front + [r], u, v)
    ensures Partition(v) && Exact(front + [r], v)
  {
    assert (front + [r])[|front|] == r;
    RegisterPartitions(u, r);
    ReorderedKeeps(Register(u, r), v);
    forall p: nat, x: Info
      ensures HasInfo(v, p, x) <==> EverRegistered(front + [r], p, x)
    {
      RegisterInfos(u, r, p, x);
      EverAppend(front, r, p, x);
    }
    forall p: nat ensures Covers(v, p) <==> EverCovered(front + [r], p) {
      EverAppend(front, r, p, Info("", ""));
    }
  }

  /** After any run: the kinds are non-empty and disjoint, they cover exactly what was registered, and
      each PU has exactly the infos of the registrations that covered it. */
  lemma {:induction false} RunKeepsPartition(regs: seq<Registration>, v: seq<KindView>)
    requires Reaches(regs, v)
    ensures Partition(v)
    ensures forall p: nat :: Covers(v, p) <==> EverCovered(regs, p)
    ensures forall p: nat, x: Info :: HasInfo(v, p, x) <==> EverRegistered(regs, p, x)
  {
    if regs != [] {
      var front, r := regs[..|regs| - 1], regs[|regs| - 1];
      var u: seq<KindView> :| ReachesFrom(regs, u, v);
      RunKeepsPartition(front, u);
      assert regs == front + [r];
      RegisterKeepsExact(front, u, r, v);
    }
  }

  // ----- The partition that a run leaves.

  /** Every registration covers both PUs or neither. */
  ghost predicate SameHistory(regs: seq<Registration>, p: nat, q: nat) {
    forall n :: 0 <= n < |regs| ==> (p in regs[n].cpus <==> q in regs[n].cpus)
  }

  lemma HistoryAppend(front: seq<Registration>, r: Registration, p: nat, q: nat)
    ensures SameHistory(front + [r], p, q) <==> SameHistory(front, p, q) && (p in r.cpus <==> q in r.cpus)
    ensures SameHistory(front, p, q) ==> (EverCovered(front, p) <==> EverCovered(front, q))
    ensures !EverCovered(front, p) && !EverCovered(front, q) ==> SameHistory(front, p, q)
  {
    assert (front + [r])[|front|] == r;
    assert forall n :: 0 <= n < |front| ==> (front + [r])[n] == front[n];
  }

  /** After any run, two PUs are in one kind exactly when they are covered at all and no registration told
      them apart: kinds are split as much as they must be, and never merged. */
  lemma {:induction false} KindsAreHistories(regs: seq<Registration>, v: seq<KindView>, p: nat, q: nat)
    requires Reaches(regs, v)
    ensures SameKind(v, p, q) <==> EverCovered(regs, p) && SameHistory(regs, p, q)
  {
    if regs != [] {
      var front, r := regs[..|regs| - 1], regs[|regs| - 1];
      assert regs == front + [r];
      var u: seq<KindView> :| ReachesFrom(regs, u, v);
      KindsAreHistories(front, u, p, q);
      RunKeepsPartition(front, u);
      RegisterPartitions(u, r);
      RegisterSameKind(u, r, p, q);
      ReorderedKeeps(Register(u, r), v);
      HistoryAppend(front, r, p, q);
      EverAppend(front, r, p, Info("", ""));
    }
  }

  /** So neither the order of the registrations nor repeating one changes the partition. */
  lemma OrderOfRegistrationsIrrelevant(
    regs: seq<Registration>, regs': seq<Registration>, v: seq<KindView>, w: seq<KindView>, p: nat, q: nat)
    requires Reaches(regs, v) && Reaches(regs', w)
    requires forall r :: r in regs <==> r in regs'
    ensures SameKind(v, p, q) <==> SameKind(w, p, q)
  {
    KindsAreHistories(regs, v, p, q);
    KindsAreHistories(regs', w, p, q);
    ToldApartByMember(regs, p, q);
    ToldApartByMember(regs', p, q);
  }

  lemma ToldApartByMember(regs: seq<Registration>, p: nat, q: nat)
    ensures EverCovered(regs, p) <==> exists r :: r in regs && p in r.cpus
    ensures SameHistory(regs, p, q) <==> forall r :: r in regs ==> (p in r.cpus <==> q in r.cpus)
  {
  }

  // ----- The infos of a PU's kind, in their order.

  /** All infos of the registrations that cover p, as they came. */
  function Given(regs: seq<Registration>, p: nat): seq<Info> {
    if regs == [] then []
    else Given(regs[..|regs| - 1], p) + if p in regs[|regs| - 1].cpus then regs[|regs| - 1].infos else []
  }

  lemma RegisterListsOnce(v: seq<KindView>, r: Registration, p: nat, j: nat, given: seq<Info>)
    requires Partition(v) && In(Register(v, r), j, p)
    requires forall i: nat :: In(v, i, p) ==> ListsOnce(v[i].infos, given)
    requires !Covers(v, p) ==> given == []
    ensures ListsOnce(Register(v, r)[j].infos, given + if p in r.cpus then r.infos else [])
  {
    RegisterPartitions(v, r);
    if i: nat :| In(v, i, p) {
      var k := Destination(v, r, p, i);
      assert k == j;
      var infos := v[i].infos;
      AddInfosListsOnce(infos, given, r.infos);
      AddInfosCopies(infos, |infos|);
      assert infos[..|infos|] == infos;
      if p in r.cpus {
        assert p in v[i].cpus * r.cpus;
      }
      assert given + [] == given;
    } else {
      var k := Destination(v, r, p, 0);
      assert k == j;
      AddInfosListsOnce([], [], r.infos);
      assert [] + r.infos == r.infos;
    }
  }

  /** After any run, the kind of a PU lists the infos of the registrations that covered it, each pair once and
      in the order in which they first came. */
  lemma {:induction false} RunListsOnce(regs: seq<Registration>, v: seq<KindView>, p: nat, i: nat)
    requires Reaches(regs, v) && In(v, i, p)
    ensures ListsOnce(v[i].infos, Given(regs, p))
  {
    if regs != [] {
      var front, r := regs[..|regs| - 1], regs[|regs| - 1];
      assert regs == front + [r];
      var u: seq<KindView> :| ReachesFrom(regs, u, v);
      RunKeepsPartition(front, u);
      forall k: nat | In(u, k, p) ensures ListsOnce(u[k].infos, Given(front, p)) {
        RunListsOnce(front, u, p, k);
      }
      if !Covers(u, p) {
        NothingGiven(front, p);
      }
      var f :| IsReordering(Register(u, r), v, f);
      assert In(Register(u, r), f[i], p);
      RegisterListsOnce(u, r, p, f[i], Given(front, p));
    }
  }

  lemma {:induction false} NothingGiven(regs: seq<Registration>, p: nat)
    requires !EverCovered(regs, p)
    ensures Given(regs, p) == []
  {
    if regs != [] {
      var front := regs[..|regs| - 1];
      assert forall n :: 0 <= n < |front| ==> front[n] == regs[n];
      NothingGiven(front, p);
    }
  }

  // ----- Forced efficiencies.

  /** p's kind lies within r, has a known value, and r does not overwrite it. */
  ghost predicate Protected(v: seq<KindView>, r: Registration, p: nat) {
    !r.overwrite && exists i: nat :: In(v, i, p) && v[i].cpus <= r.cpus && v[i].forced != -1
  }

  /** Exactly which forced efficiency a PU has after a registration: its old one if it is not covered, or if its
      kind is covered as a whole and keeps a known value; that of the registration otherwise. */
  lemma ForcedExactly(v: seq<KindView>, r: Registration, p: nat, e: int)
    requires Partition(v)
    ensures HasForced(Register(v, r), p, e) <==>
            if p !in r.cpus || Protected(v, r, p) then HasForced(v, p, e) else e == r.forced
  {
    RegisterPartitions(v, r);
    var w := Register(v, r);
    if i: nat :| In(v, i, p) {
      var j := Destination(v, r, p, i);
      assert HasForced(w, p, e) <==> w[j].forced == e;
      assert HasForced(v, p, e) <==> v[i].forced == e;
      if p in r.cpus {
        assert p in v[i].cpus * r.cpus;
      }
      assert Protected(v, r, p) <==> !r.overwrite && v[i].cpus <= r.cpus && v[i].forced != -1;
    } else if p in r.cpus {
      var j := Destination(v, r, p, 0);
      assert HasForced(w, p, e) <==> w[j].forced == e;
    } else {
      assert !Covers(w, p);
    }
  }

  /** What a run leaves as the forced efficiency of p: that of the last registration which covered it and either
      came first, or overwrote, or found it unknown, or told it apart from a PU of the same history. */
  ghost function ForcedAfter(regs: seq<Registration>, p: nat): int {
    if regs == [] then -1
    else
      var front, r := regs[..|regs| - 1], regs[|regs| - 1];
      if p !in r.cpus then ForcedAfter(front, p)
      else if EverCovered(front, p) && !r.overwrite && ForcedAfter(front, p) != -1 &&
              forall q: nat :: SameHistory(front, p, q) ==> q in r.cpus
      then ForcedAfter(front, p)
      else r.forced
  }

  lemma {:induction false} RunForced(regs: seq<Registration>, v: seq<KindView>, p: nat, e: int)
    requires Reaches(regs, v) && EverCovered(regs, p)
    ensures HasForced(v, p, e) <==> e == ForcedAfter(regs, p)
  {
    var front, r := regs[..|regs| - 1], regs[|regs| - 1];
    assert regs == front + [r];
    var u: seq<KindView> :| ReachesFrom(regs, u, v);
    RunKeepsPartition(front, u);
    RegisterPartitions(u, r);
    ReorderedKeeps(Register(u, r), v);
    EverAppend(front, r, p, Info("", ""));
    ForcedExactly(u, r, p, e);
    if EverCovered(front, p) {
      RunForced(front, u, p, e);
      RunForced(front, u, p, ForcedAfter(front, p));
      ProtectedByHistory(front, u, r, p, ForcedAfter(front, p));
    }
  }

  /** In terms of the run: whether p's kind lies within r. */
  lemma ProtectedByHistory(regs: seq<Registration>, v: seq<KindView>, r: Registration, p: nat, e: int)
    requires Reaches(regs, v) && HasForced(v, p, e)
    ensures Protected(v, r, p) <==> !r.overwrite && e != -1 && forall q: nat :: SameHistory(regs, p, q) ==> q in r.cpus
  {
    RunKeepsPartition(regs, v);
    var i: nat :| In(v, i, p) && v[i].forced == e;
    assert Covers(v, p);
    forall q: nat ensures SameHistory(regs, p, q) <==> q in v[i].cpus {
      KindsAreHistories(regs, v, p, q);
      assert SameKind(v, p, q) <==> In(v, i, q);
    }
  }

  /** The kinds there are stay where they are, with what the registration leaves of their PUs, and keep their
      efficiency; new kinds come after them, with an efficiency that is not known yet. */
  lemma KindsStay(v: seq<KindView>, r: Registration, i: nat)
    requires i < |Register(v, r)|
    ensures i < |v| ==> Register(v, r)[i].efficiency == v[i].efficiency
    ensures i < |v| ==> Register(v, r)[i].cpus == if v[i].cpus <= r.cpus then v[i].cpus else v[i].cpus - r.cpus
    ensures i >= |v| ==> Register(v, r)[i].efficiency == -1 && Register(v, r)[i].forced == r.forced
    ensures i >= |v| ==> Register(v, r)[i].cpus <= r.cpus
  {
    if i < |v| && v[i].cpus * r.cpus == iset{} {
      assert v[i].cpus - r.cpus == v[i].cpus by {
        assert forall p: nat :: p in v[i].cpus && p in r.cpus ==> p in v[i].cpus * r.cpus;
      }
    }
  }

  /** What one registration does to a PU's forced efficiency. Overwriting registrations decide it for
      every PU they cover. Others are documented (src/hwloc/hwloc/cpukinds.c:148-151) to leave a value
      that is known alone, which they do exactly when they cover the PU's whole kind. */
  lemma RegisterForced(v: seq<KindView>, r: Registration, p: nat, i: nat)
    requires Partition(v) && In(v, i, p)
    ensures p !in r.cpus ==> HasForced(Register(v, r), p, v[i].forced)
    ensures p in r.cpus && r.overwrite ==> HasForced(Register(v, r), p, r.forced)
    ensures p in r.cpus && !r.overwrite && v[i].forced != EFFICIENCY_UNKNOWN && v[i].forced != r.forced ==>
              (HasForced(Register(v, r), p, v[i].forced) <==> v[i].cpus <= r.cpus)
  {
    RegisterPartitions(v, r);
    var j := Destination(v, r, p, i);
    assert forall e: int :: HasForced(Register(v, r), p, e) <==> Register(v, r)[j].forced == e;
    if p in r.cpus {
      assert p in v[i].cpus * r.cpus;
    }
  }

  /** In terms of the run before it: a known value survives a registration that does not overwrite it
      exactly when that covers every PU that no earlier registration told apart from this one. */
  lemma KnownValueSurvives(regs: seq<Registration>, v: seq<KindView>, r: Registration, p: nat, e: int)
    requires Reaches(regs, v) && HasForced(v, p, e) && e != EFFICIENCY_UNKNOWN
    requires p in r.cpus && !r.overwrite && e != r.forced
    ensures HasForced(Register(v, r), p, e) <==> forall q: nat :: SameHistory(regs, p, q) ==> q in r.cpus
  {
    RunKeepsPartition(regs, v);
    var i: nat :| In(v, i, p) && v[i].forced == e;
    RegisterForced(v, r, p, i);
    assert Covers(v, p);
    forall q: nat ensures SameHistory(regs, p, q) <==> q in v[i].cpus {
      KindsAreHistories(regs, v, p, q);
      assert SameKind(v, p, q) <==> In(v, i, q);
    }
  }

  lemma FirstRegistration(r: Registration)
    requires exists p: nat :: p in r.cpus
    ensures Reaches([r], [KindView(r.cpus, EFFICIENCY_UNKNOWN, r.forced, AddInfos([], r.infos))])
  {
    var v := [KindView(r.cpus, EFFICIENCY_UNKNOWN, r.forced, AddInfos([], r.infos))];
    FirstKind(r);
    AsItIs(v[0]);
    OneRegistration(r, v);
  }

  lemma AsItIs(k: KindView)
    ensures Reordered([k], [k])
  {
    assert IsReordering([k], [k], [0]);
  }

  lemma OneRegistration(r: Registration, v: seq<KindView>)
    requires Reordered(Register([], r), v)
    ensures Reaches([r], v)
  {
    assert [r][..0] == [] && [r][0] == r;
    assert Reaches([r][..0], []);
    assert ReachesFrom([r], [], v);
  }

  lemma FirstKind(r: Registration)
    requires exists p: nat :: p in r.cpus
    ensures Register([], r) == [KindView(r.cpus, EFFICIENCY_UNKNOWN, r.forced, AddInfos([], r.infos))]
  {
    assert forall p: nat :: !Covers([], p);
    assert Uncovered([], r) == r.cpus;
    var p: nat :| p in r.cpus;
    assert Uncovered([], r) != iset{};
    assert KeptAll([], r) == [] && Added([], r, 0) == [];
  }

  /** The documented promise fails: a kind whose efficiency is known loses it on the PUs that a later,
      non-overwriting registration splits off. */
  lemma FirstForcedValueLost()
    ensures exists regs: seq<Registration>, v: seq<KindView>, r: Registration ::
              Reaches(regs, v) && !r.overwrite && HasForced(v, 0, 7) && !HasForced(Register(v, r), 0, 7)
  {
    var first, r := Registration(iset{0, 1}, 7, [], false), Registration(iset{0}, 9, [], false);
    assert 0 in first.cpus && 1 in first.cpus;
    FirstRegistration(first);
    var v := [KindView(first.cpus, EFFICIENCY_UNKNOWN, 7, AddInfos([], []))];
    assert In(v, 0, 0);
    assert HasForced(v, 0, 7);
    assert SameHistory([first], 0, 1) && 1 !in r.cpus;
    KnownValueSurvives([first], v, r, 0, 7);
  }

  lemma OverwritingStep(u: seq<KindView>, r: Registration, p: nat, e: int)
    requires Partition(u) && r.overwrite
    requires if p in r.cpus then e == r.forced else HasForced(u, p, e)
    ensures Partition(Register(u, r)) && HasForced(Register(u, r), p, e)
  {
    RegisterPartitions(u, r);
    if i: nat :| In(u, i, p) {
      RegisterForced(u, r, p, i);
    } else {
      var j := Destination(u, r, p, 0);
    }
  }

  /** When every registration overwrites (the public hwloc_cpukinds_register), the last one that
      covered a PU decides. */
  lemma {:induction false} LastForcedWins(regs: seq<Registration>, v: seq<KindView>, p: nat, last: nat)
    requires Reaches(regs, v)
    requires forall n :: 0 <= n < |regs| ==> regs[n].overwrite
    requires last < |regs| && p in regs[last].cpus && forall n :: last < n < |regs| ==> p !in regs[n].cpus
    ensures Partition(v) && HasForced(v, p, regs[last].forced)
  {
    var front, r := regs[..|regs| - 1], regs[|regs| - 1];
    var u: seq<KindView> :| ReachesFrom(regs, u, v);
    RunKeepsPartition(front, u);
    if last < |front| {
      LastForcedWins(front, u, p, last);
    }
    OverwritingStep(u, r, p, regs[last].forced);
    ReorderedKeeps(Register(u, r), v);
  }
}
