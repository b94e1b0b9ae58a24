/** QUO_auto_distrib (src/quo-auto-distrib.c): each process of a node decides alone, from the same table
    of which ranks cover which resource, whether it is one of the selected ones. */
module AutoDistrib {
  import opened QuoSet

  const ERR: int := 2

  // ----- Building the table.

  /** The answer to "is this rank's cpuset within the resource". */
  datatype Probe = Answer(covers: bool) | Fails(rc: int)

  ghost predicate NoFailure(probes: seq<Probe>) {
    forall r :: 0 <= r < |probes| ==> probes[r].Answer?
  }

  /** QUO_qids_in_type: the ranks that cover a resource. The list always passes the set routine's
      sanity check. */
  method QidsInType(probes: seq<Probe>) returns (rc: int, qids: seq<int>)
    ensures rc == SUCCESS ==> IsSet(qids)
    ensures rc == SUCCESS ==> forall r :: r in qids <==> 0 <= r < |probes| && probes[r] == Answer(true)
    ensures rc != SUCCESS ==> qids == []
    ensures NoFailure(probes) && probes != [] ==> rc == SUCCESS
  {
    rc, qids := ERR, [];
    var rank := 0;
    while rank < |probes|
      invariant rank <= |probes| && NoFailure(probes[..rank])
      invariant rc == if rank == 0 then ERR else SUCCESS
      invariant IsSet(qids) && forall r :: r in qids <==> 0 <= r < rank && probes[r] == Answer(true)
    {
      match probes[rank]
      case Fails(e) =>
        if e != SUCCESS {
          return e, [];
        }
        return ERR, [];
      case Answer(covers) =>
        rc := SUCCESS;
        if covers {
          assert forall k :: 0 <= k < |qids| ==> qids[k] in qids;
          qids := qids + [rank];
        }
        rank := rank + 1;
    }
    if rc != SUCCESS {
      qids := [];
    }
  }

  // ----- Deciding.

  ghost predicate IsTable(table: seq<seq<int>>, nqid: nat) {
    AllSets(table) && forall k, v :: 0 <= k < |table| && v in table[k] ==> 0 <= v < nqid
  }

  /** kset is the outcome of the k-set computation on the table. */
  ghost predicate IsKSet(table: seq<seq<int>>, kset: seq<int>) {
    StrictlyIncreasing(kset) && forall v :: v in kset <==> InTwo(table, v)
  }

  /** The members of s that share no resource, in order. */
  function Unshared(s: seq<int>, kset: seq<int>): seq<int> {
    if s == [] then []
    else Unshared(s[..|s| - 1], kset) + if s[|s| - 1] in kset then [] else [s[|s| - 1]]
  }

  /** me is among the first max of s. */
  ghost predicate Among(s: seq<int>, max: int, me: int) {
    exists i :: 0 <= i < |s| && i < max && s[i] == me
  }

  ghost predicate Selected(table: seq<seq<int>>, kset: seq<int>, nqid: nat, max: int, me: int) {
    if |kset| == 0 then exists rid :: 0 <= rid < |table| && Among(table[rid], max, me)
    else if nqid == |kset| then me < max * |table|
    else exists rid :: 0 <= rid < |table| && Among(Unshared(table[rid], kset), max, me)
  }

  method Decide(table: seq<seq<int>>, kset: seq<int>, nqid: nat, max: int, me: int) returns (selected: bool)
    requires IsTable(table, nqid) && IsKSet(table, kset) && 0 <= me < nqid && max > 0
    ensures selected <==> Selected(table, kset, nqid, max, me)
  {
    var nres := |table|;
    if |kset| == 0 {
      selected := false;
      var rid := 0;
      while rid < nres && !selected
        invariant rid <= nres
        invariant selected <==> exists k :: 0 <= k < rid && Among(table[k], max, me)
      {
        var rank := 0;
        while rank < |table[rid]|
          invariant rank <= |table[rid]|
          invariant selected <==> exists i :: 0 <= i < rank && i < max && table[rid][i] == me
        {
          if me == table[rid][rank] && rank < max {
            selected := true;
          }
          rank := rank + 1;
        }
        assert selected <==> Among(table[rid], max, me);
        rid := rid + 1;
      }
    } else if nqid == |kset| {
      selected := me < max * nres;
    } else {
      selected := DecideUnshared(table, kset, nqid, max, me);
    }
  }

  /** The branch where only some ranks share a resource. */
  method DecideUnshared(table: seq<seq<int>>, kset: seq<int>, nqid: nat, max: int, me: int) returns (selected: bool)
    requires IsTable(table, nqid) && IsKSet(table, kset) && 0 <= me < nqid && max > 0
    ensures selected <==> exists rid :: 0 <= rid < |table| && Among(Unshared(table[rid], kset), max, me)
  {
    var bigHtab := MarkShared(table, kset, nqid);
    selected := false;
    var rid := 0;
    while rid < |table| && !selected
      invariant rid <= |table|
      invariant forall v :: 0 <= v < nqid ==> (bigHtab[v] != -1 <==> v in kset)
      invariant selected <==> exists k :: 0 <= k < rid && Among(Unshared(table[k], kset), max, me)
    {
      selected := Covered(table[rid], kset, bigHtab, max, me);
      rid := rid + 1;
    }
  }

  method MarkShared(table: seq<seq<int>>, kset: seq<int>, nqid: nat) returns (bigHtab: array<int>)
    requires IsTable(table, nqid) && IsKSet(table, kset)
    ensures fresh(bigHtab) && bigHtab.Length == nqid
    ensures forall v :: 0 <= v < nqid ==> (bigHtab[v] != -1 <==> v in kset)
  {
    bigHtab := new int[nqid](_ => -1);
    var i := 0;
    while i < |kset|
      invariant i <= |kset|
      invariant forall v :: 0 <= v < nqid ==> (bigHtab[v] != -1 <==> v in kset[..i])
    {
      assert kset[i] in kset && kset[..i + 1] == kset[..i] + [kset[i]];
      bigHtab[kset[i]] := kset[i];
      i := i + 1;
    }
    assert kset[..i] == kset;
  }

  /** Whether me is one of the first max unshared ranks on one resource. */
  method Covered(s: seq<int>, kset: seq<int>, bigHtab: array<int>, max: int, me: int) returns (selected: bool)
    requires forall v :: v in s ==> 0 <= v < bigHtab.Length
    requires forall v :: 0 <= v < bigHtab.Length ==> (bigHtab[v] != -1 <==> v in kset)
    ensures selected <==> Among(Unshared(s, kset), max, me)
  {
    var rmapped, rank := 0, 0;
    while rank < |s|
      invariant rank <= |s| && rmapped == |Unshared(s[..rank], kset)|
      invariant !Among(Unshared(s[..rank], kset), max, me)
    {
      assert s[rank] in s && s[..rank + 1][..rank] == s[..rank];
      if bigHtab[s[rank]] == -1 {
        ghost var u := Unshared(s[..rank], kset);
        assert Unshared(s[..rank + 1], kset) == u + [s[rank]];
        if me == s[rank] && rmapped < max {
          UnsharedPrefix(s, kset, rank + 1);
          assert Unshared(s, kset)[rmapped] == me;
          return true;
        }
        assert forall i :: 0 <= i < |u| ==> (u + [s[rank]])[i] == u[i];
        rmapped := rmapped + 1;
      }
      rank := rank + 1;
    }
    assert s[..rank] == s;
    return false;
  }

  lemma {:induction false} UnsharedPrefix(s: seq<int>, kset: seq<int>, n: nat)
    requires n <= |s|
    ensures Unshared(s[..n], kset) <= Unshared(s, kset)
  {
    if n == |s| {
      assert s[..n] == s;
    } else {
      UnsharedPrefix(s[..|s| - 1], kset, n);
      assert s[..|s| - 1][..n] == s[..n];
    }
  }
}
