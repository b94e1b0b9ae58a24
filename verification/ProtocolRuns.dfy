/** What holds in every run of the protocol: safety at every moment, no deadlock, an end, and agreement. */
module ProtocolRuns {
  import opened TableSegment
  import opened QuoSet
  import opened AutoDistrib
  import opened Election
  import opened Protocol

  /** s is reached from some start by some interleaving of steps and rebindings. */
  ghost predicate Reachable(c: Config, s: State) {
    c.nres > 0 && exists init, events :: Init(init) && Reaches(c, init, events, s)
  }

  lemma ReachableInv(c: Config, s: State)
    requires Reachable(c, s)
    ensures Inv(c, s)
  {
    var init, events :| Init(init) && Reaches(c, init, events, s);
    InitEstablishes(c, init);
    RunKeeps(c, init, events, s);
  }

  // ----- Safety.

  /** Nobody attaches before the segment is completely written, nor after it is unlinked: what is linked
      under the path is the whole table of the call in progress. */
  lemma AttachIsSafe(c: Config, s: State, p: nat)
    requires Reachable(c, s) && p < |s.procs| && s.procs[p].pc == Attach
    ensures var q := s.procs[p];
            && |q.results| < |s.frozen| && q.path in s.files && s.files[q.path] < |s.segs|
            && s.segs[s.files[q.path]] == Flat(TableOf(c, s.frozen[|q.results|]))
            && q.len == |s.segs[s.files[q.path]]|
  {
    ReachableInv(c, s);
    AttachFinds(c, s, p);
  }

  /** And what a process is attached to stays so until it returns, though the path may be gone. */
  lemma AttachedStaysIntact(c: Config, s: State, p: nat)
    requires Reachable(c, s) && 0 < p < |s.procs| && Attached(s.procs[p].pc)
    ensures var q := s.procs[p];
            |q.results| < |s.frozen| && q.seg < |s.segs| && s.segs[q.seg] == Flat(TableOf(c, s.frozen[|q.results|]))
  {
    ReachableInv(c, s);
    assert Own(c, s, p, s.procs[p]);
  }

  /** While process 0 queries, no binding can change, and the bindings are those when it began. */
  lemma NoRebindDuringQuery(c: Config, s: State, e: Event)
    requires Reachable(c, s) && |s.procs| > 0 && s.procs[0].pc.Query? && Allowed(c, s, e)
    ensures e.Step?
    ensures |s.frozen| > 0 && s.frozen[|s.frozen| - 1] == s.binds
  {
    ReachableInv(c, s);
    assert Own(c, s, 0, s.procs[0]);
    if e.Rebind? {
      WhileRootWorks(c, s, e.p);
    }
  }

  // ----- No deadlock.

  predicate Done(c: Config, q: Proc) {
    q.pc == Outside && |q.results| == c.rounds
  }

  predicate Blocked(s: State, q: Proc) {
    q.pc.In? && q.ticket >= s.generation
  }

  lemma RootCanStep(c: Config, s: State)
    requires Inv(c, s) && !Done(c, s.procs[0]) && !Blocked(s, s.procs[0])
    ensures CanStep(c, s, 0)
  {
    var q := s.procs[0];
    assert Own(c, s, 0, q);
    if q.pc == WriteHeader {
      FlatSize(q.rows);
    } else if q.pc.WriteRow? {
      RowWritten(s.segs[q.seg], q.rows, q.pc.rid);
    }
  }

  /** A process other than 0 waits for the barrier or for a broadcast, and for nothing else. */
  lemma PeerCanStep(c: Config, s: State, p: nat)
    requires Inv(c, s) && 0 < p < |s.procs| && !Done(c, s.procs[p]) && !Blocked(s, s.procs[p])
    requires s.procs[p].pc == RecvPath || s.procs[p].pc == RecvLength ==> s.procs[p].received < |s.log|
    ensures CanStep(c, s, p)
  {
    var q := s.procs[p];
    assert Own(c, s, p, q);
    if q.pc == Attach {
      AttachFinds(c, s, p);
    } else if q.pc == ReadHeader {
      var table := Current(c, s, q);
      FlatSize(table);
      assert forall i :: 0 <= i < c.nres ==> Flat(table)[i] == Lens(table)[i];
    } else if q.pc.ReadRow? {
      FlatRow(Current(c, s, q), q.pc.rid);
    } else if q.pc == RecvPath || q.pc == RecvLength {
      assert if q.received % 2 == 0 then s.log[q.received].Path? else s.log[q.received].Length?;
    }
  }

  lemma {:induction false} CountAll(procs: seq<Proc>, a: nat)
    requires forall p :: 0 <= p < |procs| ==> Arrivals(procs[p]) == a
    ensures Count(procs, a) == |procs|
  {
    if procs != [] {
      CountAll(procs[..|procs| - 1], a);
    }
  }

  /** Somebody has yet to enter the barrier. */
  lemma SomebodyBehind(s: State) returns (p: nat)
    requires BarrierInv(s)
    ensures p < |s.procs| && Arrivals(s.procs[p]) == s.generation
  {
    if forall p :: 0 <= p < |s.procs| ==> Arrivals(s.procs[p]) == s.generation + 1 {
      CountAll(s.procs, s.generation + 1);
    }
    p :| 0 <= p < |s.procs| && Arrivals(s.procs[p]) != s.generation + 1;
    assert Level(s, s.procs[p]);
  }

  /** When process 0 waits in the barrier or is done, whoever is behind and not done can step. */
  lemma BehindCanStep(c: Config, s: State, p: nat)
    requires Inv(c, s) && p < |s.procs| && Arrivals(s.procs[p]) == s.generation && !Done(c, s.procs[p])
    requires Done(c, s.procs[0]) || Blocked(s, s.procs[0])
    ensures CanStep(c, s, p)
  {
    var root, q := s.procs[0], s.procs[p];
    assert Own(c, s, 0, root) && Own(c, s, p, q) && Level(s, root);
    assert p != 0 && !Blocked(s, q);
    PeerCanStep(c, s, p);
  }

  /** Unless all processes are done, one of them has a step. */
  lemma NoDeadlock(c: Config, s: State)
    requires Reachable(c, s) && exists p :: 0 <= p < |s.procs| && !Done(c, s.procs[p])
    ensures exists p: nat :: p < |s.procs| && CanStep(c, s, p)
  {
    ReachableInv(c, s);
    var root := s.procs[0];
    assert Own(c, s, 0, root) && Level(s, root);
    if !Done(c, root) && !Blocked(s, root) {
      RootCanStep(c, s);
    } else if Blocked(s, root) {
      var p := SomebodyBehind(s);
      assert Own(c, s, p, s.procs[p]);
      BehindCanStep(c, s, p);
    } else {
      var p :| 0 <= p < |s.procs| && !Done(c, s.procs[p]);
      assert Own(c, s, p, s.procs[p]) && Level(s, s.procs[p]);
      BehindCanStep(c, s, p);
    }
  }

  // ----- An end.

  /** A process's position within a call. */
  function Position(c: Config, pc: Pc): nat {
    match pc
    case Outside => 0
    case At(k) => 6 + 2 * c.nres + if k == 2 then 0 else 3
    case In(k) => if k == 1 then 1 else 7 + 2 * c.nres + if k == 2 then 0 else 3
    case SendPath => 2
    case Query(i) => 3 + i
    case SendLength => 3 + c.nres
    case Create => 4 + c.nres
    case WriteHeader => 5 + c.nres
    case WriteRow(i) => 6 + c.nres + i
    case Unlink => 11 + 2 * c.nres
    case RecvPath => 2
    case RecvLength => 3
    case Attach => 8 + 2 * c.nres
    case ReadHeader => 11 + 2 * c.nres
    case ReadRow(i) => 12 + 2 * c.nres + i
  }

  /** Steps to one call of one process, at most. */
  function CallSteps(c: Config): nat {
    12 + 3 * c.nres
  }

  function CallsSteps(c: Config, n: nat): nat {
    if n == 0 then 0 else CallSteps(c) + CallsSteps(c, n - 1)
  }

  function Left(c: Config, q: Proc): int {
    (if |q.results| <= c.rounds then CallsSteps(c, c.rounds - |q.results|) else 0) - Position(c, q.pc)
  }

  ghost function TotalLeft(c: Config, procs: seq<Proc>): int {
    if procs == [] then 0 else TotalLeft(c, procs[..|procs| - 1]) + Left(c, procs[|procs| - 1])
  }

  lemma {:induction false} TotalPut(c: Config, procs: seq<Proc>, p: nat, q: Proc)
    requires p < |procs|
    ensures TotalLeft(c, procs[p := q]) == TotalLeft(c, procs) - Left(c, procs[p]) + Left(c, q)
  {
    var last := |procs| - 1;
    if p < last {
      TotalPut(c, procs[..last], p, q);
      assert procs[p := q][..last] == procs[..last][p := q];
    } else {
      assert procs[p := q][..last] == procs[..last];
    }
  }

  predicate InCall(c: Config, p: nat, q: Proc) {
    && PcOf(p, q.pc)
    && |q.results| <= c.rounds && (q.pc != Outside ==> |q.results| < c.rounds)
    && (q.pc.Query? || q.pc.WriteRow? || q.pc.ReadRow? ==> q.pc.rid < c.nres)
  }

  lemma OwnInCall(c: Config, s: State, p: nat, q: Proc)
    requires Own(c, s, p, q)
    ensures InCall(c, p, q)
  {
  }

  lemma MoveSpends(c: Config, q: Proc, q': Proc)
    requires |q'.results| == |q.results| && Position(c, q'.pc) > Position(c, q.pc)
    ensures Left(c, q') < Left(c, q)
  {
  }

  lemma FinishSpends(c: Config, q: Proc, q': Proc)
    requires |q'.results| == |q.results| + 1 <= c.rounds && q'.pc == Outside && Position(c, q.pc) < CallSteps(c)
    ensures Left(c, q') < Left(c, q)
  {
  }

  lemma StepIsLocal(c: Config, s: State, p: nat, path: nat)
    requires p < |s.procs| && CanStep(c, s, p)
    ensures Do(c, s, p, path).procs == s.procs[p := Do(c, s, p, path).procs[p]]
  {
  }

  lemma StepMoves(c: Config, s: State, p: nat, path: nat)
    requires c.nres > 0 && p < |s.procs| && InCall(c, p, s.procs[p]) && CanStep(c, s, p)
    ensures var q, q' := s.procs[p], Do(c, s, p, path).procs[p];
            if q.pc == Unlink || (q.pc.ReadRow? && q.pc.rid + 1 == c.nres)
            then |q'.results| == |q.results| + 1 && q'.pc == Outside
            else q'.results == q.results && Position(c, q'.pc) > Position(c, q.pc)
  {
  }

  lemma StepSpends(c: Config, s: State, p: nat, path: nat)
    requires c.nres > 0 && p < |s.procs| && InCall(c, p, s.procs[p]) && CanStep(c, s, p)
    ensures Left(c, Do(c, s, p, path).procs[p]) < Left(c, s.procs[p])
  {
    StepMoves(c, s, p, path);
    var q, q' := s.procs[p], Do(c, s, p, path).procs[p];
    if q.pc == Unlink || (q.pc.ReadRow? && q.pc.rid + 1 == c.nres) {
      FinishSpends(c, q, q');
    } else {
      MoveSpends(c, q, q');
    }
  }

  lemma LeftIsNatural(c: Config, s: State, p: nat)
    requires c.nres > 0 && p < |s.procs| && InCall(c, p, s.procs[p])
    ensures Left(c, s.procs[p]) >= 0
  {
  }

  lemma {:induction false} TotalIsNatural(c: Config, procs: seq<Proc>)
    requires forall p :: 0 <= p < |procs| ==> Left(c, procs[p]) >= 0
    ensures TotalLeft(c, procs) >= 0
  {
    if procs != [] {
      TotalIsNatural(c, procs[..|procs| - 1]);
    }
  }

  /** Steps, not counting rebindings. */
  ghost function Steps(events: seq<Event>): nat {
    if events == [] then 0 else (if events[0].Step? then 1 else 0) + Steps(events[1..])
  }

  lemma {:induction false} StepsBounded(c: Config, s: State, events: seq<Event>, t: State)
    requires c.nres > 0 && Inv(c, s) && Reaches(c, s, events, t)
    ensures Steps(events) <= TotalLeft(c, s.procs)
    decreases |events|
  {
    if events == [] {
      forall p: nat | p < |s.procs| ensures Left(c, s.procs[p]) >= 0 {
        assert Own(c, s, p, s.procs[p]);
        OwnInCall(c, s, p, s.procs[p]);
        LeftIsNatural(c, s, p);
      }
      TotalIsNatural(c, s.procs);
    } else {
      var e := events[0];
      var next := After(c, s, e);
      if e.Step? {
        assert Own(c, s, e.p, s.procs[e.p]);
        StepKeeps(c, s, e.p, e.path);
        OwnInCall(c, s, e.p, s.procs[e.p]);
        StepIsLocal(c, s, e.p, e.path);
        StepSpends(c, s, e.p, e.path);
        TotalPut(c, s.procs, e.p, next.procs[e.p]);
      } else {
        RebindKeeps(c, s, e.p, e.binding);
      }
      StepsBounded(c, next, events[1..], t);
    }
  }

  lemma {:induction false} TotalAtStart(c: Config, procs: seq<Proc>)
    requires forall p :: 0 <= p < |procs| ==> procs[p].pc == Outside && procs[p].results == []
    ensures TotalLeft(c, procs) == |procs| * CallsSteps(c, c.rounds)
  {
    if procs != [] {
      TotalAtStart(c, procs[..|procs| - 1]);
    }
  }

  lemma {:induction false} CallsStepsProduct(c: Config, n: nat)
    ensures CallsSteps(c, n) == n * CallSteps(c)
  {
    if n > 0 {
      CallsStepsProduct(c, n - 1);
      assert n * CallSteps(c) == (n - 1) * CallSteps(c) + CallSteps(c);
    }
  }

  /** No interleaving lets the processes take more than so many steps: with NoDeadlock, every run in which
      somebody who can step eventually does so brings all processes to the end of their last call. */
  lemma EveryRunEnds(c: Config, s: State, events: seq<Event>, t: State)
    requires c.nres > 0 && Init(s) && Reaches(c, s, events, t)
    ensures Steps(events) <= |s.procs| * (c.rounds * CallSteps(c))
  {
    InitEstablishes(c, s);
    StepsBounded(c, s, events, t);
    TotalAtStart(c, s.procs);
    CallsStepsProduct(c, c.rounds);
  }

  // ----- Agreement.

  /** Whatever calls two processes have completed, they ended them with the same tables, and these are
      valid inputs to the set routine: in particular with process 0's. */
  lemma Agreement(c: Config, s: State, p: nat, i: nat)
    requires Reachable(c, s) && p < |s.procs| && i < |s.procs[p].results|
    ensures i < |s.frozen| && s.procs[p].results[i] == TableOf(c, s.frozen[i])
    ensures forall p': nat :: p' < |s.procs| && i < |s.procs[p'].results| ==>
                                s.procs[p'].results[i] == s.procs[p].results[i]
  {
    ReachableInv(c, s);
    forall p': nat | p' < |s.procs| && i < |s.procs[p'].results|
      ensures i < |s.frozen| && s.procs[p'].results[i] == TableOf(c, s.frozen[i])
    {
      assert Own(c, s, p', s.procs[p']);
    }
  }

  /** When nobody can step any more, all calls are complete. */
  lemma AllDoneAtEnd(c: Config, s: State, p: nat)
    requires Reachable(c, s) && p < |s.procs|
    requires forall p': nat :: p' < |s.procs| ==> !CanStep(c, s, p')
    ensures |s.procs[p].results| == c.rounds && |s.frozen| >= c.rounds
  {
    ReachableInv(c, s);
    assert Own(c, s, p, s.procs[p]);
    if !Done(c, s.procs[p]) {
      NoDeadlock(c, s);
    }
  }

  // ----- The election that follows.

  lemma WithoutLargest(s: seq<int>, v: int)
    requires StrictlyIncreasing(s) && s != []
    ensures v in s[..|s| - 1] <==> v in s && v != s[|s| - 1]
    ensures v in s ==> v <= s[|s| - 1]
  {
    assert s == s[..|s| - 1] + [s[|s| - 1]];
  }

  lemma {:induction false} KSetUnique(a: seq<int>, b: seq<int>)
    requires StrictlyIncreasing(a) && StrictlyIncreasing(b) && forall v :: v in a <==> v in b
    ensures a == b
  {
    assert |a| > 0 ==> a[0] in a && a[0] in b;
    assert |b| > 0 ==> b[0] in b && b[0] in a;
    if a != [] {
      var x, y := a[|a| - 1], b[|b| - 1];
      WithoutLargest(a, y);
      WithoutLargest(b, x);
      assert x in a && y in b;
      var a', b' := a[..|a| - 1], b[..|b| - 1];
      forall v ensures v in a' <==> v in b' {
        WithoutLargest(a, v);
        WithoutLargest(b, v);
      }
      KSetUnique(a', b');
      assert a == a' + [x] && b == b' + [y];
    }
  }

  /** The processes that select themselves in call i, each from its own copy of the table and its own
      result of the set routine. */
  ghost function SelfSelected(s: State, i: nat, ksets: seq<seq<int>>, max: int): set<int>
    requires |ksets| == |s.procs| && forall p :: 0 <= p < |s.procs| ==> i < |s.procs[p].results|
  {
    set p | 0 <= p < |s.procs| && Selected(s.procs[p].results[i], ksets[p], |s.procs|, max, p)
  }

  /** Without further communication the processes act as one: in every completed call they select, per
      resource, as many as it has processes that share nothing, up to max (but for the case that all of
      them share resources), and in all the sum of that, or in that case the first processes up to max times
      the number of resources. */
  lemma CallElects(c: Config, s: State, i: nat, ksets: seq<seq<int>>, max: nat)
    requires Reachable(c, s) && |ksets| == |s.procs| && forall p :: 0 <= p < |s.procs| ==> i < |s.procs[p].results|
    requires forall p :: 0 <= p < |s.procs| ==> IsKSet(s.procs[p].results[i], ksets[p])
    ensures i < |s.frozen| && ksets != []
    ensures SelfSelected(s, i, ksets, max) == Elected(TableOf(c, s.frozen[i]), ksets[0], |s.procs|, max)
    ensures |SelfSelected(s, i, ksets, max)| ==
            if |ksets[0]| == |s.procs| then Smaller(|s.procs|, max * c.nres)
            else Places(TableOf(c, s.frozen[i]), ksets[0], max, c.nres)
    ensures |SelfSelected(s, i, ksets, max)| <= max * c.nres
    ensures forall rid: nat, p: nat :: rid < c.nres && p < |s.procs| && |ksets[p]| != |s.procs| ==>
                                         |Touching(TableOf(c, s.frozen[i]), SelfSelected(s, i, ksets, max), rid)| ==
                                         Smaller(max, |Unshared(TableOf(c, s.frozen[i])[rid], ksets[p])|)
  {
    ReachableInv(c, s);
    var n := |s.procs|;
    Agreement(c, s, 0, i);
    var table, kset := TableOf(c, s.frozen[i]), ksets[0];
    SameDecision(c, s, i, ksets, max);
    TableIsValid(c, s.frozen[i]);
    TotalElected(table, kset, n, max);
    forall rid: nat, p: nat | rid < c.nres && p < n && |ksets[p]| != n
      ensures |Touching(table, Elected(table, kset, n, max), rid)| == Smaller(max, |Unshared(table[rid], kset)|)
    {
      CountPerResource(table, kset, n, max, rid);
    }
  }

  lemma SameDecision(c: Config, s: State, i: nat, ksets: seq<seq<int>>, max: nat)
    requires Inv(c, s) && |ksets| == |s.procs| && forall p :: 0 <= p < |s.procs| ==> i < |s.procs[p].results|
    requires forall p :: 0 <= p < |s.procs| ==> IsKSet(s.procs[p].results[i], ksets[p])
    ensures i < |s.frozen|
    ensures forall p :: 0 <= p < |s.procs| ==> ksets[p] == ksets[0]
    ensures SelfSelected(s, i, ksets, max) == Elected(TableOf(c, s.frozen[i]), ksets[0], |s.procs|, max)
    ensures IsKSet(TableOf(c, s.frozen[i]), ksets[0])
  {
    assert Own(c, s, 0, s.procs[0]);
    var table, kset := TableOf(c, s.frozen[i]), ksets[0];
    forall p | 0 <= p < |s.procs| ensures s.procs[p].results[i] == table && ksets[p] == kset {
      assert Own(c, s, p, s.procs[p]);
      KSetUnique(ksets[p], kset);
    }
  }
}
