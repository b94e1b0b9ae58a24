/** Rebalancing selected processes over nodes (demos/nice-tid-distrib.c): when more are selected than
    wanted, the per-node counts are lowered in turns, and each node then unselects processes. */
module Stids {
  function Total(s: seq<int>): int {
    if s == [] then 0 else Total(s[..|s| - 1]) + s[|s| - 1]
  }

  function Busy(v: int): int {
    if v > 0 then 1 else 0
  }

  /** How many nodes have any. */
  function BusyNodes(s: seq<int>): int {
    if s == [] then 0 else BusyNodes(s[..|s| - 1]) + Busy(s[|s| - 1])
  }

  // ----- Sorting.

  datatype Tuple = Tuple(first: nat, second: int)

  predicate IsPermutation(order: seq<nat>, n: nat) {
    && |order| == n
    && (forall i :: 0 <= i < n ==> order[i] < n)
    && (forall i, j :: 0 <= i < j < n ==> order[i] != order[j])
    && (forall k :: 0 <= k < n ==> k in order)
  }

  /** compare_second: larger counts first, and of equal counts the later node. */
  predicate Before(counts: seq<int>, a: nat, b: nat)
    requires a < |counts| && b < |counts|
  {
    counts[a] > counts[b] || (counts[a] == counts[b] && a > b)
  }

  /** The order in which qsort leaves the nodes. */
  predicate IsSorted(order: seq<nat>, counts: seq<int>) {
    IsPermutation(order, |counts|) && forall i, j :: 0 <= i < j < |order| ==> Before(counts, order[i], order[j])
  }

  function Permuted(a: seq<int>, order: seq<nat>): (s: seq<int>)
    requires forall i :: 0 <= i < |order| ==> order[i] < |a|
    ensures |s| == |order| && forall i :: 0 <= i < |s| ==> s[i] == a[order[i]]
  {
    seq(|order|, i requires 0 <= i < |order| => a[order[i]])
  }

  lemma {:induction false} TotalWithout(s: seq<int>, j: nat)
    requires j < |s|
    ensures Total(s) == Total(s[..j] + s[j + 1..]) + s[j]
    ensures BusyNodes(s) == BusyNodes(s[..j] + s[j + 1..]) + Busy(s[j])
  {
    var last := |s| - 1;
    if j < last {
      TotalWithout(s[..last], j);
      assert (s[..j] + s[j + 1..])[..last - 1] == s[..last][..j] + s[..last][j + 1..];
    } else {
      assert s[..j] + s[j + 1..] == s[..last];
    }
  }

  lemma WithoutLast(order: seq<nat>, n: nat, j: nat)
    requires IsPermutation(order, n) && j < n && order[j] == n - 1
    ensures IsPermutation(order[..j] + order[j + 1..], n - 1)
  {
    var less := order[..j] + order[j + 1..];
    forall k: nat | k < n - 1 ensures k in less {
      assert k in order;
      var i :| 0 <= i < n && order[i] == k;
      assert less[if i < j then i else i - 1] == k;
    }
  }

  lemma PermutedWithout(a: seq<int>, order: seq<nat>, j: nat)
    requires a != [] && j < |order|
    requires (forall i :: 0 <= i < |order| ==> order[i] < |a|)
    requires forall i :: 0 <= i < |order| && i != j ==> order[i] < |a| - 1
    ensures Permuted(a[..|a| - 1], order[..j] + order[j + 1..]) == Permuted(a, order)[..j] + Permuted(a, order)[j + 1..]
  {
    var less := order[..j] + order[j + 1..];
    var p := Permuted(a, order);
    forall i | 0 <= i < |less| ensures less[i] < |a| - 1 && a[..|a| - 1][less[i]] == (p[..j] + p[j + 1..])[i] {
      assert less[i] == order[if i < j then i else i + 1];
    }
  }

  /** A total does not depend on the order. */
  lemma {:induction false} TotalPermuted(a: seq<int>, order: seq<nat>)
    requires IsPermutation(order, |a|)
    ensures Total(Permuted(a, order)) == Total(a) && BusyNodes(Permuted(a, order)) == BusyNodes(a)
    decreases |a|
  {
    if a == [] {
      assert Permuted(a, order) == [];
    } else {
      var last := |a| - 1;
      assert last in order;
      var j :| 0 <= j < |order| && order[j] == last;
      var less := order[..j] + order[j + 1..];
      WithoutLast(order, |a|, j);
      TotalPermuted(a[..last], less);
      TotalWithout(Permuted(a, order), j);
      PermutedWithout(a, order, j);
    }
  }

  // ----- One pass over the nodes.

  function Lowered(v: int): int {
    if v > 1 then v - 1 else v
  }

  /** The counts after the first n nodes gave one each, where they could. */
  function AfterPass(s: seq<int>, n: nat): (t: seq<int>)
    requires n <= |s|
    ensures |t| == |s| && forall i :: 0 <= i < |s| ==> t[i] == if i < n then Lowered(s[i]) else s[i]
  {
    seq(|s|, i requires 0 <= i < |s| => if i < n then Lowered(s[i]) else s[i])
  }

  predicate Decreasing(s: seq<int>) {
    forall i, j :: 0 <= i < j < |s| ==> s[i] >= s[j]
  }

  /** Every count is what it was or less, but no node loses its last. */
  predicate Shrunk(s: seq<int>, t: seq<int>) {
    |s| == |t| && forall i :: 0 <= i < |s| ==> t[i] <= s[i] && (s[i] > 0 ==> t[i] > 0) && (s[i] == 0 ==> t[i] == 0)
  }

  lemma {:induction false} TotalSame(s: seq<int>, t: seq<int>)
    requires |s| == |t| && forall i :: 0 <= i < |s| ==> Busy(s[i]) == Busy(t[i])
    ensures BusyNodes(s) == BusyNodes(t)
  {
    if s != [] {
      TotalSame(s[..|s| - 1], t[..|t| - 1]);
    }
  }

  lemma {:induction false} TotalStep(s: seq<int>, i: nat, v: int)
    requires i < |s|
    ensures Total(s[i := v]) == Total(s) - s[i] + v
  {
    var last := |s| - 1;
    if i < last {
      TotalStep(s[..last], i, v);
      assert s[i := v][..last] == s[..last][i := v];
    } else {
      assert s[i := v][..last] == s[..last];
    }
  }

  lemma PassStep(s: seq<int>, n: nat)
    requires n < |s|
    ensures AfterPass(s, n + 1) == AfterPass(s, n)[n := Lowered(s[n])]
    ensures Total(AfterPass(s, n + 1)) == Total(AfterPass(s, n)) - s[n] + Lowered(s[n])
  {
    TotalStep(AfterPass(s, n), n, Lowered(s[n]));
    assert AfterPass(s, n + 1) == AfterPass(s, n)[n := Lowered(s[n])];
  }

  lemma LoweredDecreasing(s: seq<int>, t: seq<int>)
    requires Decreasing(s) && |t| == |s| && forall i :: 0 <= i < |s| ==> t[i] == Lowered(s[i])
    ensures Decreasing(t)
  {
  }

  /** Had the node after the first n one to give, all of those n did give. */
  lemma NextIsDown(s: seq<int>, n: nat)
    requires Decreasing(s) && n < |s| && Total(s) - Total(AfterPass(s, n)) < n
    ensures s[n] <= 1
  {
    assert forall i :: 0 <= i < n ==> s[i] >= s[n];
    if s[n] > 1 {
      AllGive(s, n);
    }
  }

  lemma OthersAreDown(s: seq<int>, n: nat)
    requires Decreasing(s) && n <= |s| && (n < |s| ==> s[n] <= 1)
    ensures forall i :: 0 <= i < |s| ==> AfterPass(s, n)[i] == Lowered(s[i])
  {
    forall i | n <= i < |s| ensures s[i] <= 1 {
      assert s[n] >= s[i];
    }
  }

  /** If a pass could not satisfy the request, the counts are still sorted. */
  lemma StillDecreasing(s: seq<int>, n: nat, wanted: int)
    requires Decreasing(s) && 0 < wanted && n == (if wanted < |s| then wanted else |s|)
    requires Total(s) - Total(AfterPass(s, n)) < wanted
    ensures Decreasing(AfterPass(s, n))
  {
    if n < |s| {
      NextIsDown(s, n);
    }
    OthersAreDown(s, n);
    LoweredDecreasing(s, AfterPass(s, n));
  }

  lemma {:induction false} AllGive(s: seq<int>, n: nat)
    requires n <= |s| && forall i :: 0 <= i < n ==> s[i] > 1
    ensures Total(s) - Total(AfterPass(s, n)) == n
  {
    if n > 0 {
      AllGive(s, n - 1);
      PassStep(s, n - 1);
    } else {
      assert AfterPass(s, 0) == s;
    }
  }

  /** If a pass changes nothing, every node is down to one or none. */
  lemma {:induction false} NothingGiven(s: seq<int>, n: nat)
    requires n <= |s|
    ensures Total(AfterPass(s, n)) <= Total(s)
    ensures Total(AfterPass(s, n)) == Total(s) ==> forall i :: 0 <= i < n ==> s[i] <= 1
  {
    if n > 0 {
      NothingGiven(s, n - 1);
      PassStep(s, n - 1);
    } else {
      assert AfterPass(s, 0) == s;
    }
  }

  lemma {:induction false} AtLeastBusy(s: seq<int>)
    requires forall i :: 0 <= i < |s| ==> s[i] >= 0
    ensures Total(s) >= BusyNodes(s)
    ensures (forall i :: 0 <= i < |s| ==> s[i] <= 1) ==> Total(s) == BusyNodes(s)
  {
    if s != [] {
      AtLeastBusy(s[..|s| - 1]);
    }
  }

  // ----- Who gives up how many.

  /** What is left of v after k turns, each taking one but never the last. */
  function Given(v: int, k: nat): int {
    if v < 1 then v else if v <= k then 1 else if v - k < 1 then 1 else v - k
  }

  /** Every node gave k times, as far as it could, and the first n of them once more. */
  ghost predicate Levelled(s: seq<int>, t: seq<int>, k: nat, n: nat) {
    |t| == |s| && forall i :: 0 <= i < |s| ==> t[i] == Given(s[i], if i < n then k + 1 else k)
  }

  lemma GivenOnceMore(v: int, k: nat)
    ensures Lowered(Given(v, k)) == Given(v, k + 1)
  {
  }

  /** A pass is one more turn for the first n; if it did not finish, those behind had nothing left to give. */
  lemma PassLevels(s: seq<int>, t: seq<int>, k: nat, nunsel: int)
    requires nunsel > 0 && Decreasing(t) && Levelled(s, t, k, 0)
    ensures var n := if nunsel < |t| then nunsel else |t|;
            && Levelled(s, AfterPass(t, n), k, n)
            && (Total(t) - Total(AfterPass(t, n)) < nunsel ==> Levelled(s, AfterPass(t, n), k + 1, 0))
  {
    var n := if nunsel < |t| then nunsel else |t|;
    forall i | 0 <= i < |s| ensures Lowered(t[i]) == Given(s[i], k + 1) {
      GivenOnceMore(s[i], k);
    }
    if n < |t| && Total(t) - Total(AfterPass(t, n)) < nunsel {
      NextIsDown(t, n);
      forall i | n <= i < |t| ensures t[i] == Lowered(t[i]) {
        assert t[n] >= t[i];
      }
    }
  }

  /** A node that gave two or more beyond another leaves that with at most one; and one that could give once more
      has given no less than any after it. */
  ghost predicate Fair(was: int, now: int, was': int, now': int, first: bool) {
    && (was - now >= was' - now' + 2 ==> now' <= 1)
    && (first && now > 1 ==> was - now >= was' - now')
  }

  lemma LevelledIsFair(s: seq<int>, t: seq<int>, k: nat, n: nat, i: nat, j: nat)
    requires Levelled(s, t, k, n) && i < |s| && j < |s| && s[i] >= 0 && s[j] >= 0
    ensures Fair(s[i], t[i], s[j], t[j], i < j)
  {
  }

  function Seconds(tuples: seq<Tuple>): (s: seq<int>)
    ensures |s| == |tuples| && forall i :: 0 <= i < |s| ==> s[i] == tuples[i].second
  {
    seq(|tuples|, i requires 0 <= i < |tuples| => tuples[i].second)
  }

  ghost predicate SameNodes(tuples: seq<Tuple>, order: seq<nat>) {
    |tuples| == |order| && forall i :: 0 <= i < |order| ==> tuples[i].first == order[i]
  }

  lemma GiveStep(tuples: seq<Tuple>, s: seq<int>, i: nat)
    requires i < |tuples| && |s| == |tuples| && Seconds(tuples) == AfterPass(s, i)
    ensures tuples[i].second == s[i]
    ensures Seconds(tuples[i := tuples[i].(second := Lowered(s[i]))]) == AfterPass(s, i + 1)
    ensures Lowered(s[i]) == s[i] ==> Seconds(tuples) == AfterPass(s, i + 1)
  {
    assert Seconds(tuples)[i] == AfterPass(s, i)[i];
    assert Seconds(tuples[i := tuples[i].(second := Lowered(s[i]))]) == AfterPass(s, i)[i := Lowered(s[i])];
    PassStep(s, i);
  }

  method Pass(nodes: array<Tuple>, nunsel: int, ghost order: seq<nat>) returns (left: int)
    requires nunsel > 0 && SameNodes(nodes[..], order)
    modifies nodes
    ensures SameNodes(nodes[..], order)
    ensures Seconds(nodes[..]) ==
            AfterPass(old(Seconds(nodes[..])), if nunsel < nodes.Length then nunsel else nodes.Length)
    ensures left == nunsel - (old(Total(Seconds(nodes[..]))) - Total(Seconds(nodes[..])))
    ensures left >= 0
  {
    ghost var s := Seconds(nodes[..]);
    left := nunsel;
    var i := 0;
    while i < nodes.Length && i < nunsel
      invariant 0 <= i <= nodes.Length && i <= nunsel && SameNodes(nodes[..], order)
      invariant Seconds(nodes[..]) == AfterPass(s, i)
      invariant left == nunsel - (Total(s) - Total(AfterPass(s, i))) && left >= nunsel - i
    {
      PassStep(s, i);
      GiveStep(nodes[..], s, i);
      if nodes[i].second > 1 {
        nodes[i] := nodes[i].(second := nodes[i].second - 1);
        left := left - 1;
      }
      i := i + 1;
    }
  }

  /** The state of the loop: what has been given up so far, and from where. */
  ghost predicate Lowering(s: seq<int>, t: seq<int>, maxStids: int, nunsel: int) {
    && Shrunk(s, t) && BusyNodes(t) == BusyNodes(s)
    && Total(t) == maxStids + nunsel && nunsel >= 0
    && (nunsel > 0 ==> Decreasing(t))
    && forall i :: 0 <= i < |t| ==> t[i] >= 0
  }

  lemma PassLowers(s: seq<int>, t: seq<int>, maxStids: int, nunsel: int)
    requires Lowering(s, t, maxStids, nunsel) && nunsel > 0
    ensures var n := if nunsel < |t| then nunsel else |t|;
            var u := AfterPass(t, n);
            var left := nunsel - (Total(t) - Total(u));
            && Total(u) <= Total(t) && (left >= 0 ==> Lowering(s, u, maxStids, left))
            && (left == nunsel ==> maxStids < BusyNodes(s))
  {
    var n := if nunsel < |t| then nunsel else |t|;
    var u := AfterPass(t, n);
    NothingGiven(t, n);
    TotalSame(t, u);
    if Total(t) - Total(u) < nunsel {
      StillDecreasing(t, n, nunsel);
    }
    AtLeastBusy(t);
    if Total(t) == Total(u) && t != [] {
      assert t[0] <= 1;
      assert forall i :: 0 <= i < |t| ==> t[0] >= t[i];
    }
  }

  /** The loop of update_nstids: pass after pass, until enough is given up or a pass changes nothing. */
  method Lower(nodes: array<Tuple>, wanted: int, maxStids: int, ghost order: seq<nat>)
    returns (rc: int, ghost k: nat, ghost n: nat)
    requires SameNodes(nodes[..], order) && Decreasing(Seconds(nodes[..]))
    requires wanted == Total(Seconds(nodes[..])) - maxStids
    requires forall i :: 0 <= i < nodes.Length ==> nodes[i].second >= 0
    modifies nodes
    ensures SameNodes(nodes[..], order)
    ensures rc == 0 || rc == 1
    ensures rc == 0 ==> Shrunk(old(Seconds(nodes[..])), Seconds(nodes[..]))
    ensures rc == 0 && wanted <= 0 ==> Seconds(nodes[..]) == old(Seconds(nodes[..]))
    ensures rc == 0 && wanted > 0 ==>
              Total(Seconds(nodes[..])) == maxStids && old(BusyNodes(Seconds(nodes[..]))) <= maxStids
    ensures rc == 1 ==> wanted > 0 && maxStids < old(BusyNodes(Seconds(nodes[..])))
    ensures rc == 0 && wanted > 0 ==> Levelled(old(Seconds(nodes[..])), Seconds(nodes[..]), k, n)
  {
    ghost var s := Seconds(nodes[..]);
    var nunsel := wanted;
    k, n := 0, 0;
    while nunsel > 0
      invariant SameNodes(nodes[..], order)
      invariant wanted <= 0 ==> nunsel == wanted && Seconds(nodes[..]) == s
      invariant wanted > 0 ==> Lowering(s, Seconds(nodes[..]), maxStids, nunsel)
      invariant wanted > 0 ==> Levelled(s, Seconds(nodes[..]), k, n) && (nunsel > 0 ==> n == 0)
    {
      PassLowers(s, Seconds(nodes[..]), maxStids, nunsel);
      PassLevels(s, Seconds(nodes[..]), k, nunsel);
      var left := Pass(nodes, nunsel, order);
      if left == nunsel {
        rc := 1;
        return;
      }
      if left > 0 {
        k := k + 1;
      } else {
        n := if nunsel < nodes.Length then nunsel else nodes.Length;
      }
      nunsel := left;
    }
    AtLeastBusy(Seconds(nodes[..]));
    rc := 0;
  }

  method Sum(a: array<int>) returns (res: int)
    ensures res == Total(a[..])
  {
    res := 0;
    for i := 0 to a.Length
      invariant res == Total(a[..i])
    {
      assert a[..i + 1][..i] == a[..i];
      res := res + a[i];
    }
    assert a[..a.Length] == a[..];
  }

  method WriteBack(nstids: array<int>, nodes: array<Tuple>, order: seq<nat>)
    requires IsPermutation(order, nstids.Length) && SameNodes(nodes[..], order)
    modifies nstids
    ensures Permuted(nstids[..], order) == Seconds(nodes[..])
  {
    for i := 0 to nodes.Length
      invariant forall k :: 0 <= k < i ==> nstids[order[k]] == nodes[k].second
    {
      assert nodes[..][i].first == order[i];
      nstids[nodes[i].first] := nodes[i].second;
    }
  }

  lemma ShrunkBack(s: seq<int>, t: seq<int>, order: seq<nat>)
    requires |s| == |t| && IsPermutation(order, |s|) && Shrunk(Permuted(s, order), Permuted(t, order))
    ensures Shrunk(s, t)
    ensures Permuted(s, order) == Permuted(t, order) ==> s == t
  {
    forall k: nat | k < |s| ensures t[k] <= s[k] && (s[k] > 0 ==> t[k] > 0) && (s[k] == 0 ==> t[k] == 0)
      ensures Permuted(s, order) == Permuted(t, order) ==> s[k] == t[k]
    {
      assert k in order;
      var i :| 0 <= i < |order| && order[i] == k;
      assert Permuted(s, order)[i] == s[k] && Permuted(t, order)[i] == t[k];
    }
  }

  lemma FairBack(s: seq<int>, t: seq<int>, order: seq<nat>, k: nat, n: nat)
    requires |s| == |t| && IsSorted(order, s) && forall i :: 0 <= i < |s| ==> s[i] >= 0
    requires Levelled(Permuted(s, order), Permuted(t, order), k, n)
    ensures forall a, b :: 0 <= a < |s| && 0 <= b < |s| ==>
                             Fair(s[a], t[a], s[b], t[b], s[a] > s[b] || (s[a] == s[b] && a > b))
  {
    forall a: nat, b: nat | a < |s| && b < |s|
      ensures Fair(s[a], t[a], s[b], t[b], s[a] > s[b] || (s[a] == s[b] && a > b))
    {
      assert a in order && b in order;
      var i, j :| 0 <= i < |order| && 0 <= j < |order| && order[i] == a && order[j] == b;
      LevelledIsFair(Permuted(s, order), Permuted(t, order), k, n, i, j);
      assert j < i ==> Before(s, b, a);
    }
  }

  /** update_nstids: the request can be met exactly when no more is kept than before, or there is one to
      keep for every busy node; then it is met exactly, and otherwise nothing changes. */
  method UpdateNstids(nstids: array<int>, maxStids: int, order: seq<nat>) returns (rc: int)
    requires IsSorted(order, nstids[..]) && forall i :: 0 <= i < nstids.Length ==> nstids[i] >= 0
    modifies nstids
    ensures rc == 0 <==> old(Total(nstids[..])) <= maxStids || old(BusyNodes(nstids[..])) <= maxStids
    ensures rc == 0 ==> Shrunk(old(nstids[..]), nstids[..])
    ensures rc == 0 ==>
              Total(nstids[..]) == if old(Total(nstids[..])) <= maxStids then old(Total(nstids[..])) else maxStids
    ensures rc == 0 && old(Total(nstids[..])) <= maxStids ==> nstids[..] == old(nstids[..])
    ensures rc != 0 ==> rc == 1 && nstids[..] == old(nstids[..])
    ensures rc == 0 ==>
              forall a, b :: 0 <= a < nstids.Length && 0 <= b < nstids.Length ==>
                               Fair(old(nstids[a]), nstids[a], old(nstids[b]), nstids[b],
                                    old(nstids[a]) > old(nstids[b]) || (old(nstids[a]) == old(nstids[b]) && a > b))
  {
    ghost var was := nstids[..];
    var nodes := Listed(nstids[..], order);
    TotalPermuted(was, order);
    var total := Sum(nstids);
    ghost var k, n;
    rc, k, n := Lower(nodes, total - maxStids, maxStids, order);
    if rc != 0 {
      return 1;
    }
    WriteBack(nstids, nodes, order);
    WrittenBack(was, nstids[..], order, maxStids, k, n);
  }

  method Listed(counts: seq<int>, order: seq<nat>) returns (nodes: array<Tuple>)
    requires IsSorted(order, counts)
    ensures fresh(nodes) && nodes.Length == |counts| && SameNodes(nodes[..], order)
    ensures Seconds(nodes[..]) == Permuted(counts, order) && Decreasing(Permuted(counts, order))
    ensures forall i :: 0 <= i < |counts| ==> nodes[i].second == counts[order[i]]
  {
    nodes := new Tuple[|counts|](
                       i requires 0 <= i < |order| && order[i] < |counts| => Tuple(order[i], counts[order[i]]));
    assert Seconds(nodes[..]) == Permuted(counts, order);
  }

  /** What was found out about the sorted counts holds of the counts of the nodes. */
  lemma WrittenBack(was: seq<int>, now: seq<int>, order: seq<nat>, maxStids: int, k: nat, n: nat)
    requires |was| == |now| && IsSorted(order, was) && forall i :: 0 <= i < |was| ==> was[i] >= 0
    requires Shrunk(Permuted(was, order), Permuted(now, order))
    requires Total(was) <= maxStids ==> Permuted(now, order) == Permuted(was, order)
    requires Total(was) > maxStids ==>
               Total(Permuted(now, order)) == maxStids && Levelled(Permuted(was, order), Permuted(now, order), k, n)
    ensures Shrunk(was, now) && Total(now) == if Total(was) <= maxStids then Total(was) else maxStids
    ensures Total(was) <= maxStids ==> now == was
    ensures forall a, b :: 0 <= a < |was| && 0 <= b < |was| ==>
                             Fair(was[a], now[a], was[b], now[b], was[a] > was[b] || (was[a] == was[b] && a > b))
  {
    TotalPermuted(now, order);
    ShrunkBack(was, now, order);
    if Total(was) > maxStids {
      FairBack(was, now, order, k, n);
    }
  }

  // ----- The node's part: stid_fixup unselects from the back.

  /** How many processes are selected. */
  function Selected(flags: seq<int>): nat {
    if flags == [] then 0 else Selected(flags[..|flags| - 1]) + if flags[|flags| - 1] == 1 then 1 else 0
  }

  /** The first `keep` selected processes stay selected, and nothing else changes. */
  ghost predicate KeepsFirst(before: seq<int>, after: seq<int>, keep: int) {
    && |before| == |after|
    && forall i :: 0 <= i < |before| ==>
                     after[i] == if before[i] == 1 && Selected(before[..i]) >= keep then 0 else before[i]
  }

  /** Selected processes from index n on. */
  function From(flags: seq<int>, n: nat): int
    requires n <= |flags|
  {
    Selected(flags) - Selected(flags[..n])
  }

  lemma OneLower(flags: seq<int>, n: nat)
    requires n < |flags|
    ensures Selected(flags[..n + 1]) == Selected(flags[..n]) + if flags[n] == 1 then 1 else 0
    ensures From(flags, n) == From(flags, n + 1) + if flags[n] == 1 then 1 else 0
  {
    assert flags[..n + 1][..n] == flags[..n];
  }

  lemma {:induction false} SelectedGrows(flags: seq<int>, k: nat, n: nat)
    requires k < n <= |flags|
    ensures Selected(flags[..n]) >= Selected(flags[..k]) + if flags[k] == 1 then 1 else 0
  {
    OneLower(flags, n - 1);
    if k < n - 1 {
      SelectedGrows(flags, k, n - 1);
    }
  }

  method Unselect(sflags: array<int>, surplus: int)
    modifies sflags
    ensures KeepsFirst(old(sflags[..]), sflags[..], if surplus < 0 then 0 else Selected(old(sflags[..])) - surplus)
  {
    ghost var was := sflags[..];
    var nunsel := surplus;
    var i := sflags.Length - 1;
    assert was[..sflags.Length] == was;
    while i >= 0
      invariant -1 <= i < sflags.Length
      invariant nunsel == surplus - From(was, i + 1)
      invariant nunsel <= surplus && (surplus >= 0 ==> nunsel >= 0)
      invariant forall k :: 0 <= k <= i ==> sflags[k] == was[k]
      invariant forall k :: i < k < sflags.Length ==> sflags[k] == if was[k] == 1 then 0 else was[k]
      invariant forall k :: i < k < sflags.Length ==>
                              Selected(was[..k]) >= if surplus < 0 then 0 else Selected(was) - surplus
    {
      if nunsel == 0 {
        break;
      }
      OneLower(was, i);
      if sflags[i] == 1 {
        sflags[i] := 0;
        nunsel := nunsel - 1;
      }
      i := i - 1;
    }
    forall k | 0 <= k <= i && was[k] == 1 ensures Selected(was[..k]) < Selected(was) - surplus {
      SelectedGrows(was, k, i + 1);
    }
  }

  /** So exactly the surplus is unselected, and the first process stays selected while any does. */
  lemma KeepsCount(before: seq<int>, after: seq<int>, keep: int)
    requires KeepsFirst(before, after, keep) && 0 <= keep <= Selected(before)
    ensures Selected(after) == keep
    ensures keep >= 1 && |before| > 0 && before[0] == 1 ==> after[0] == 1
  {
    KeepsUpTo(before, after, keep, |before|);
    assert before[..|before|] == before && after[..|before|] == after;
  }

  lemma {:induction false} KeepsUpTo(before: seq<int>, after: seq<int>, keep: nat, n: nat)
    requires KeepsFirst(before, after, keep) && n <= |before|
    ensures Selected(after[..n]) == if Selected(before[..n]) <= keep then Selected(before[..n]) else keep
  {
    if n > 0 {
      KeepsUpTo(before, after, keep, n - 1);
      OneLower(before, n - 1);
      OneLower(after, n - 1);
    }
  }
}
