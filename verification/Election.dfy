/** What all the processes of a node decide together: how many selected ranks touch each resource. */
module Election {
  import opened QuoSet
  import opened AutoDistrib

  /** The ranks that select themselves, each deciding alone on the same table. */
  ghost function Elected(table: seq<seq<int>>, kset: seq<int>, nqid: nat, max: int): set<int> {
    set r | 0 <= r < nqid && Selected(table, kset, nqid, max, r)
  }

  ghost function Members(s: seq<int>): set<int> {
    set x | x in s
  }

  /** The elected ranks that cover resource rid. */
  ghost function Touching(table: seq<seq<int>>, e: set<int>, rid: nat): set<int>
    requires rid < |table|
  {
    e * Members(table[rid])
  }

  lemma {:induction false} MembersBound(s: seq<int>)
    ensures |Members(s)| <= |s|
  {
    if s != [] {
      var front := s[..|s| - 1];
      MembersBound(front);
      assert s == front + [s[|s| - 1]];
      assert Members(s) == Members(front) + {s[|s| - 1]};
    }
  }

  lemma SubsetBound(a: set<int>, b: set<int>)
    requires a <= b
    ensures |a| <= |b|
  {
    assert b == a + (b - a);
  }

  lemma {:induction false} DistinctMembers(s: seq<int>)
    requires StrictlyIncreasing(s)
    ensures |Members(s)| == |s|
  {
    if s != [] {
      var front, last := s[..|s| - 1], s[|s| - 1];
      DistinctMembers(front);
      assert s == front + [last];
      assert Members(s) == Members(front) + {last};
      assert last !in front;
    }
  }

  function Smaller(m: nat, n: nat): nat {
    if m <= n then m else n
  }

  /** Those among the first max of an increasing list are as many as the list allows. */
  lemma AmongCount(s: seq<int>, max: nat, e: set<int>)
    requires StrictlyIncreasing(s)
    requires forall r :: r in e <==> Among(s, max, r)
    ensures |e| == Smaller(max, |s|)
  {
    var first := s[..Smaller(max, |s|)];
    forall r ensures Among(s, max, r) <==> r in first {
      if i :| 0 <= i < |s| && i < max && s[i] == r {
        assert first[i] == r;
      }
    }
    forall r ensures r in e <==> r in Members(first) {
      assert r in e <==> Among(s, max, r);
    }
    assert e == Members(first);
    DistinctMembers(first);
  }

  lemma {:induction false} UnsharedMembers(s: seq<int>, kset: seq<int>, r: int)
    ensures r in Unshared(s, kset) <==> r in s && r !in kset
  {
    if s != [] {
      UnsharedMembers(s[..|s| - 1], kset, r);
      assert s == s[..|s| - 1] + [s[|s| - 1]];
    }
  }

  lemma {:induction false} UnsharedIncreasing(s: seq<int>, kset: seq<int>)
    requires StrictlyIncreasing(s)
    ensures StrictlyIncreasing(Unshared(s, kset))
    ensures kset == [] ==> Unshared(s, kset) == s
  {
    if s != [] {
      var front := s[..|s| - 1];
      UnsharedIncreasing(front, kset);
      assert s == front + [s[|s| - 1]];
      var u := Unshared(front, kset);
      forall i | 0 <= i < |u| ensures u[i] < s[|s| - 1] {
        UnsharedMembers(front, kset, u[i]);
      }
    }
  }

  lemma ElectedWhere(table: seq<seq<int>>, kset: seq<int>, nqid: nat, max: nat, r: int) returns (k: nat)
    requires IsTable(table, nqid) && IsKSet(table, kset) && r in Elected(table, kset, nqid, max)
    requires |kset| == 0 || |kset| != nqid
    ensures k < |table| && r in table[k] && r !in kset && Among(Unshared(table[k], kset), max, r)
  {
    forall i | 0 <= i < |table| ensures kset == [] ==> Unshared(table[i], kset) == table[i] {
      UnsharedIncreasing(table[i], kset);
    }
    k :| k < |table| && Among(Unshared(table[k], kset), max, r);
    assert r in Unshared(table[k], kset);
    UnsharedMembers(table[k], kset, r);
  }

  /** When some rank shares no resource (or none does), a rank that covers a resource is elected exactly
      when it is among the first max of those that share none there. */
  lemma ElectedOn(table: seq<seq<int>>, kset: seq<int>, nqid: nat, max: nat, rid: nat, r: int)
    requires IsTable(table, nqid) && IsKSet(table, kset) && rid < |table|
    requires |kset| == 0 || |kset| != nqid
    ensures r in Touching(table, Elected(table, kset, nqid, max), rid) <==> Among(Unshared(table[rid], kset), max, r)
    ensures r in Elected(table, kset, nqid, max) ==> r !in kset
  {
    if r in Elected(table, kset, nqid, max) {
      var k := ElectedWhere(table, kset, nqid, max, r);
      assert r in table[rid] ==> k == rid || InTwo(table, r);
    }
    if Among(Unshared(table[rid], kset), max, r) {
      assert r in Unshared(table[rid], kset);
      UnsharedMembers(table[rid], kset, r);
      UnsharedIncreasing(table[rid], kset);
      assert Selected(table, kset, nqid, max, r);
    }
  }

  /** When some rank shares no resource (or none does), each resource is touched by as many elected ranks as
      it has ranks that share nothing, up to max; and no rank that shares a resource is elected. */
  lemma CountPerResource(table: seq<seq<int>>, kset: seq<int>, nqid: nat, max: nat, rid: nat)
    requires IsTable(table, nqid) && IsKSet(table, kset) && rid < |table|
    requires |kset| == 0 || |kset| != nqid
    ensures |Touching(table, Elected(table, kset, nqid, max), rid)| == Smaller(max, |Unshared(table[rid], kset)|)
    ensures forall r :: r in Elected(table, kset, nqid, max) ==> r !in kset
    ensures |kset| == 0 ==> Unshared(table[rid], kset) == table[rid]
  {
    forall r {
      ElectedOn(table, kset, nqid, max, rid, r);
    }
    UnsharedIncreasing(table[rid], kset);
    AmongCount(Unshared(table[rid], kset), max, Touching(table, Elected(table, kset, nqid, max), rid));
  }

  /** Of the ranks that share nothing on a resource the lowest are elected. */
  lemma LowestElected(table: seq<seq<int>>, kset: seq<int>, nqid: nat, max: nat, rid: nat, r: int, lower: int)
    requires IsTable(table, nqid) && IsKSet(table, kset) && rid < |table|
    requires |kset| == 0 || |kset| != nqid
    requires r in Touching(table, Elected(table, kset, nqid, max), rid)
    requires lower < r && lower in table[rid] && lower !in kset
    ensures lower in Elected(table, kset, nqid, max)
  {
    ElectedOn(table, kset, nqid, max, rid, r);
    ElectedOn(table, kset, nqid, max, rid, lower);
    UnsharedMembers(table[rid], kset, lower);
    UnsharedIncreasing(table[rid], kset);
    LowerAmong(Unshared(table[rid], kset), max, r, lower);
  }

  lemma LowerAmong(s: seq<int>, max: nat, r: int, lower: int)
    requires StrictlyIncreasing(s) && Among(s, max, r) && lower in s && lower < r
    ensures Among(s, max, lower)
  {
    var i :| 0 <= i < |s| && i < max && s[i] == r;
    var j :| 0 <= j < |s| && s[j] == lower;
    assert j < i;
  }

  // ----- The total.

  ghost function TouchingUpTo(table: seq<seq<int>>, e: set<int>, n: nat): set<int>
    requires n <= |table|
  {
    set r | r in e && exists k :: 0 <= k < n && r in table[k]
  }

  /** What the first n resources contribute. */
  function Places(table: seq<seq<int>>, kset: seq<int>, max: nat, n: nat): nat
    requires n <= |table|
  {
    if n == 0 then 0 else Places(table, kset, max, n - 1) + Smaller(max, |Unshared(table[n - 1], kset)|)
  }

  lemma {:induction false} PlacesBound(table: seq<seq<int>>, kset: seq<int>, max: nat, n: nat)
    requires n <= |table|
    ensures Places(table, kset, max, n) <= max * n
  {
    if n > 0 {
      PlacesBound(table, kset, max, n - 1);
      assert max * n == max * (n - 1) + max;
    }
  }

  /** No elected rank is counted for two resources. */
  lemma CountedOnce(table: seq<seq<int>>, kset: seq<int>, e: set<int>, n: nat)
    requires IsKSet(table, kset) && n < |table| && forall r :: r in e ==> r !in kset
    ensures |TouchingUpTo(table, e, n + 1)| == |TouchingUpTo(table, e, n)| + |Touching(table, e, n)|
  {
    var a, b := TouchingUpTo(table, e, n), Touching(table, e, n);
    forall r | r in a ensures r !in b {
      var k :| 0 <= k < n && r in table[k];
      assert r in table[n] ==> InTwo(table, r);
    }
    assert TouchingUpTo(table, e, n + 1) == a + b;
  }

  lemma {:induction false} TotalFromResources(table: seq<seq<int>>, kset: seq<int>, e: set<int>, max: nat, n: nat)
    requires n <= |table|
    requires forall k: nat :: k < n ==>
                                |TouchingUpTo(table, e, k + 1)| ==
                                |TouchingUpTo(table, e, k)| + Smaller(max, |Unshared(table[k], kset)|)
    ensures |TouchingUpTo(table, e, n)| == Places(table, kset, max, n)
  {
    if n == 0 {
      assert TouchingUpTo(table, e, 0) == {};
    } else {
      TotalFromResources(table, kset, e, max, n - 1);
    }
  }

  ghost function Ranks(n: nat): set<int> {
    if n == 0 then {} else Ranks(n - 1) + {n - 1}
  }

  lemma {:induction false} RanksCount(n: nat)
    ensures forall r :: r in Ranks(n) <==> 0 <= r < n
    ensures |Ranks(n)| == n
  {
    if n > 0 {
      RanksCount(n - 1);
    }
  }

  lemma AllShareTotal(table: seq<seq<int>>, kset: seq<int>, nqid: nat, max: nat)
    requires |kset| != 0 && |kset| == nqid
    ensures |Elected(table, kset, nqid, max)| == Smaller(nqid, max * |table|)
  {
    var total := Smaller(nqid, max * |table|);
    RanksCount(total);
    forall r ensures r in Elected(table, kset, nqid, max) <==> r in Ranks(total) {
    }
    assert Elected(table, kset, nqid, max) == Ranks(total);
  }

  lemma SomeUnsharedTotal(table: seq<seq<int>>, kset: seq<int>, nqid: nat, max: nat)
    requires IsTable(table, nqid) && IsKSet(table, kset) && (|kset| == 0 || |kset| != nqid)
    ensures |Elected(table, kset, nqid, max)| == Places(table, kset, max, |table|)
  {
    var e := Elected(table, kset, nqid, max);
    forall r | r in e ensures r !in kset && r in TouchingUpTo(table, e, |table|) {
      var k := ElectedWhere(table, kset, nqid, max, r);
    }
    assert e == TouchingUpTo(table, e, |table|);
    forall k: nat | k < |table|
      ensures |TouchingUpTo(table, e, k + 1)| ==
              |TouchingUpTo(table, e, k)| + Smaller(max, |Unshared(table[k], kset)|)
    {
      CountPerResource(table, kset, nqid, max, k);
      CountedOnce(table, kset, e, k);
    }
    TotalFromResources(table, kset, e, max, |table|);
  }

  /** How many are elected in all: when every rank shares, the first ones up to max times the number of
      resources; otherwise the sum of what the resources allow. In every case no more than max for each. */
  lemma TotalElected(table: seq<seq<int>>, kset: seq<int>, nqid: nat, max: nat)
    requires IsTable(table, nqid) && IsKSet(table, kset)
    ensures |Elected(table, kset, nqid, max)| ==
            if |kset| != 0 && |kset| == nqid then Smaller(nqid, max * |table|) else Places(table, kset, max, |table|)
    ensures |Elected(table, kset, nqid, max)| <= max * |table|
    ensures |kset| != 0 && |kset| == nqid ==>
              forall r, lower :: r in Elected(table, kset, nqid, max) && 0 <= lower < r ==>
                                   lower in Elected(table, kset, nqid, max)
  {
    PlacesBound(table, kset, max, |table|);
    if |kset| != 0 && |kset| == nqid {
      AllShareTotal(table, kset, nqid, max);
    } else {
      SomeUnsharedTotal(table, kset, nqid, max);
    }
  }

  // ----- When the documented bound per resource holds.

  lemma {:induction false} BelowCount(s: seq<int>, b: int, max: nat)
    requires StrictlyIncreasing(s)
    ensures |set r | r in s && r < b| <= max <==> |s| <= max || s[max] >= b
  {
    var below := set r | r in s && r < b;
    if |s| <= max {
      MembersBound(s);
      SubsetBound(below, Members(s));
    } else if s[max] >= b {
      forall r | r in below ensures r in s[..max] {
        var i :| 0 <= i < |s| && s[i] == r;
        assert s[..max][i] == r;
      }
      MembersBound(s[..max]);
      SubsetBound(below, Members(s[..max]));
    } else {
      var first := s[..max + 1];
      forall r | r in first ensures r in below {
        var i :| 0 <= i < |first| && first[i] == r;
        assert s[i] == r;
      }
      DistinctMembers(first);
      SubsetBound(Members(first), below);
    }
  }

  /** Exactly when the documented bound per resource holds: some rank shares no resource (or none does), or
      else every resource covered by more than max ranks has its (max+1)-th rank beyond max times the number
      of resources. */
  lemma BoundHoldsExactly(table: seq<seq<int>>, kset: seq<int>, nqid: nat, max: nat)
    requires IsTable(table, nqid) && IsKSet(table, kset) && nqid > 0 && max > 0
    ensures (forall rid: nat :: rid < |table| ==> |Touching(table, Elected(table, kset, nqid, max), rid)| <= max) <==>
            |kset| != nqid ||
            forall rid: nat :: rid < |table| ==> |table[rid]| <= max || table[rid][max] >= max * |table|
  {
    var e := Elected(table, kset, nqid, max);
    if |kset| != nqid {
      forall rid: nat | rid < |table| ensures |Touching(table, e, rid)| <= max {
        CountPerResource(table, kset, nqid, max, rid);
      }
    } else {
      forall rid: nat | rid < |table|
        ensures |Touching(table, e, rid)| <= max <==> |table[rid]| <= max || table[rid][max] >= max * |table|
      {
        BelowCount(table[rid], max * |table|, max);
        assert Touching(table, e, rid) == set r | r in table[rid] && r < max * |table|;
      }
    }
  }

  lemma AtLeastDouble(max: nat, n: nat)
    requires n >= 2
    ensures max * n >= 2 * max
  {
    assert max * n == 2 * max + max * (n - 2);
  }

  /** The case the source names, nobody being bound (every rank covers every resource): the bound per
      resource holds exactly when there are at most max ranks. */
  lemma UnboundRanks(table: seq<seq<int>>, kset: seq<int>, nqid: nat, max: nat)
    requires IsTable(table, nqid) && IsKSet(table, kset) && nqid > 0 && max > 0 && |table| >= 2
    requires forall k, r :: 0 <= k < |table| && 0 <= r < nqid ==> r in table[k]
    ensures |kset| == nqid
    ensures (forall rid: nat :: rid < |table| ==> |Touching(table, Elected(table, kset, nqid, max), rid)| <= max) <==>
            nqid <= max
  {
    forall r | 0 <= r < nqid ensures r in kset {
      assert r in table[0] && r in table[1] && InTwo(table, r);
    }
    forall v | v in kset ensures 0 <= v < nqid {
      var a, b :| 0 <= a < |table| && 0 <= b < |table| && a != b && v in table[a] && v in table[b];
    }
    DistinctMembers(kset);
    RanksCount(nqid);
    assert Members(kset) == Ranks(nqid);
    var e := Elected(table, kset, nqid, max);
    var bound := max * |table|;
    AtLeastDouble(max, |table|);
    RanksCount(if nqid < bound then nqid else bound);
    assert e == Ranks(if nqid < bound then nqid else bound);
    forall rid: nat | rid < |table| ensures Touching(table, e, rid) == e {
    }
    assert |Touching(table, e, 0)| == |e|;
  }

  /** Two ranks that both cover two resources are both elected for at most one per resource. */
  lemma BothElected()
    ensures exists table: seq<seq<int>>, kset: seq<int> ::
              && IsTable(table, 2) && IsKSet(table, kset) && |table| == 2
              && |Touching(table, Elected(table, kset, 2, 1), 0)| == 2
  {
    var s := [0, 1];
    var table := [s, s];
    assert IsSet(s);
    forall v ensures v in s <==> InTwo(table, v) {
      if v in s {
        assert v in table[0] && v in table[1];
      }
    }
    assert Elected(table, s, 2, 1) == {0, 1};
    assert 0 in s && 1 in s;
    assert Touching(table, Elected(table, s, 2, 1), 0) == {0, 1};
  }
}
