/** QUO_auto_distrib as a protocol (src/quo-auto-distrib.c, src/quo-mpi.c, src/quo-sm.c): the processes
    of a node call it over and over, and may change their bindings between calls. In each call process 0
    asks which ranks cover which resource, and the others read its answer from a shared segment. One
    barrier, reused for every synchronisation, and a path name broadcast by process 0 hold it together.
    Every step of a process is atomic; processes interleave freely. */
module Protocol {
  import opened TableSegment
  import opened QuoSet
  import opened AutoDistrib

  /** The resources a process's binding covers. */
  type Binding = set<nat>

  datatype Config = Config(nres: nat, rounds: nat)

  /** Where a process is. In(k) is waiting in the k-th barrier of a call, At(k) about to enter it. */
  datatype Pc =
    | Outside
    | At(k: nat)
    | In(k: nat)
    | SendPath
    | Query(rid: nat)
    | SendLength
    | Create
    | WriteHeader
    | WriteRow(rid: nat)
    | Unlink
    | RecvPath
    | RecvLength
    | Attach
    | ReadHeader
    | ReadRow(rid: nat)

  datatype Proc = Proc(
    pc: Pc,
    results: seq<Table>, // the table of each completed call
    ticket: nat,         // the generation in which it entered the barrier
    received: nat,       // broadcasts it took part in
    path: nat,
    len: nat,
    lens: seq<nat>,
    rows: Table,
    seg: nat)

  datatype Message = Path(path: nat) | Length(len: nat)

  datatype State = State(
    procs: seq<Proc>,
    binds: seq<Binding>,
    arrived: nat,            // in the barrier, this generation
    generation: nat,
    log: seq<Message>,       // all broadcasts so far
    files: map<nat, nat>,    // path to segment
    segs: seq<seq<int>>,     // a segment outlives its path
    frozen: seq<seq<Binding>>) // history: the bindings when process 0 began each query

  // ----- The table that a call is about.

  /** The first n ranks that cover resource rid, in order. */
  function Covering(binds: seq<Binding>, rid: nat, n: nat): seq<int>
    requires n <= |binds|
  {
    if n == 0 then [] else Covering(binds, rid, n - 1) + if rid in binds[n - 1] then [n - 1] else []
  }

  function TableOf(c: Config, binds: seq<Binding>): (table: Table)
    ensures |table| == c.nres
    ensures forall rid :: 0 <= rid < c.nres ==> table[rid] == Covering(binds, rid, |binds|)
  {
    seq(c.nres, rid requires 0 <= rid < c.nres => Covering(binds, rid, |binds|))
  }

  lemma {:induction false} CoveringIsSet(binds: seq<Binding>, rid: nat, n: nat)
    requires n <= |binds|
    ensures StrictlyIncreasing(Covering(binds, rid, n))
    ensures forall r :: r in Covering(binds, rid, n) <==> 0 <= r < n && rid in binds[r]
  {
    if n > 0 {
      CoveringIsSet(binds, rid, n - 1);
      var before := Covering(binds, rid, n - 1);
      assert forall k :: 0 <= k < |before| ==> before[k] in before;
    }
  }

  /** What process 0 learns passes the set routine's check, and holds ranks of this node only. */
  lemma TableIsValid(c: Config, binds: seq<Binding>)
    ensures IsTable(TableOf(c, binds), |binds|)
    ensures forall rid: nat, r: nat :: rid < c.nres && r < |binds| ==>
                                         (r in TableOf(c, binds)[rid] <==> rid in binds[r])
  {
    var table := TableOf(c, binds);
    forall rid | 0 <= rid < c.nres
      ensures IsSet(table[rid])
      ensures forall r :: r in table[rid] <==> 0 <= r < |binds| && rid in binds[r]
    {
      CoveringIsSet(binds, rid, |binds|);
      assert forall k :: 0 <= k < |table[rid]| ==> table[rid][k] in table[rid];
    }
  }

  // ----- Steps.

  function Put(s: State, p: nat, q: Proc): State
    requires p < |s.procs|
  {
    s.(procs := s.procs[p := q])
  }

  /** pthread_barrier_wait, entering: the last one in opens the barrier for this generation. */
  function Enter(s: State, p: nat, k: nat): State
    requires p < |s.procs|
  {
    var t := Put(s, p, s.procs[p].(pc := In(k), ticket := s.generation));
    if s.arrived + 1 == |s.procs| then t.(arrived := 0, generation := s.generation + 1)
    else t.(arrived := s.arrived + 1)
  }

  function AfterBarrier(p: nat, k: nat): Pc {
    if p == 0 then
      if k == 1 then SendPath else if k == 2 then At(3) else Unlink
    else
    if k == 1 then RecvPath else if k == 2 then Attach else ReadHeader
  }

  function Zeros(n: nat): (s: seq<int>)
    ensures |s| == n
  {
    seq(n, _ => 0)
  }

  /** ftruncate: cut, or extend with zeros. */
  function Resize(cells: seq<int>, n: nat): (s: seq<int>)
    ensures |s| == n
  {
    if n <= |cells| then cells[..n] else cells + Zeros(n - |cells|)
  }

  /** Whether process p has a step: it is not done, not blocked, and what it touches exists. */
  predicate CanStep(c: Config, s: State, p: nat)
    requires p < |s.procs|
  {
    var q := s.procs[p];
    match q.pc
    case Outside => |q.results| < c.rounds
    case At(_) => true
    case In(_) => q.ticket < s.generation
    case SendPath => true
    case Query(_) => true
    case SendLength => true
    case Create => q.path in s.files ==> s.files[q.path] < |s.segs|
    case WriteHeader => q.seg < |s.segs| && |q.rows| <= |s.segs[q.seg]|
    case WriteRow(i) =>
      && i < |q.rows| && q.seg < |s.segs|
      && Offset(Lens(q.rows), i) + |q.rows[i]| <= |s.segs[q.seg]|
    case Unlink => q.path in s.files
    case RecvPath => q.received < |s.log| && s.log[q.received].Path?
    case RecvLength => q.received < |s.log| && s.log[q.received].Length?
    case Attach => q.path in s.files && s.files[q.path] < |s.segs| && q.len <= |s.segs[s.files[q.path]]|
    case ReadHeader =>
      && q.seg < |s.segs| && c.nres <= q.len <= |s.segs[q.seg]|
      && forall i :: 0 <= i < c.nres ==> s.segs[q.seg][i] >= 0
    case ReadRow(i) =>
      && i < |q.lens| && q.seg < |s.segs|
      && Offset(q.lens, i) + q.lens[i] <= q.len <= |s.segs[q.seg]|
  }

  function QueryStep(c: Config, s: State, p: nat, i: nat): State
    requires p < |s.procs|
  {
    var q := s.procs[p];
    Put(s, p, q.(rows := q.rows + [Covering(s.binds, i, |s.binds|)],
        pc := if i + 1 < c.nres then Query(i + 1) else SendLength))
  }

  function CreateStep(s: State, p: nat): State
    requires p < |s.procs| && (s.procs[p].path in s.files ==> s.files[s.procs[p].path] < |s.segs|)
  {
    var q := s.procs[p];
    if q.path in s.files then
      var seg := s.files[q.path];
      Put(s, p, q.(pc := WriteHeader, seg := seg)).(segs := s.segs[seg := Resize(s.segs[seg], q.len)])
    else
      Put(s, p, q.(pc := WriteHeader, seg := |s.segs|))
      .(segs := s.segs + [Zeros(q.len)], files := s.files[q.path := |s.segs|])
  }

  function WriteRowStep(c: Config, s: State, p: nat, i: nat): State
    requires p < |s.procs|
    requires i < |s.procs[p].rows| && s.procs[p].seg < |s.segs|
    requires Offset(Lens(s.procs[p].rows), i) + |s.procs[p].rows[i]| <= |s.segs[s.procs[p].seg]|
  {
    var q := s.procs[p];
    Put(s, p, q.(pc := if i + 1 < c.nres then WriteRow(i + 1) else At(2)))
    .(segs := s.segs[q.seg := Overwrite(s.segs[q.seg], Offset(Lens(q.rows), i), q.rows[i])])
  }

  function ReadHeaderStep(c: Config, s: State, p: nat): State
    requires p < |s.procs| && s.procs[p].pc == ReadHeader && CanStep(c, s, p)
  {
    var q := s.procs[p];
    var lens: seq<nat> := seq(c.nres, i requires 0 <= i < c.nres => s.segs[q.seg][i]);
    Put(s, p, q.(pc := ReadRow(0), lens := lens, rows := []))
  }

  function ReadRowStep(c: Config, s: State, p: nat, i: nat): State
    requires p < |s.procs| && s.procs[p].pc == ReadRow(i) && CanStep(c, s, p)
  {
    var q := s.procs[p];
    var tab := Offset(q.lens, i);
    var rows := q.rows + [s.segs[q.seg][tab..tab + q.lens[i]]];
    if i + 1 < c.nres then Put(s, p, q.(pc := ReadRow(i + 1), rows := rows))
    else Put(s, p, q.(pc := Outside, rows := rows, results := q.results + [rows]))
  }

  /** One step of process p; path is the name process 0 makes up. */
  function Do(c: Config, s: State, p: nat, path: nat): State
    requires p < |s.procs| && CanStep(c, s, p)
  {
    var q := s.procs[p];
    match q.pc
    case Outside => Enter(s, p, 1)
    case At(k) => Enter(s, p, k)
    case In(k) => Put(s, p, q.(pc := AfterBarrier(p, k)))
    case SendPath =>
      Put(s, p, q.(pc := Query(0), path := path, rows := [], received := q.received + 1))
      .(log := s.log + [Path(path)], frozen := s.frozen + [s.binds])
    case Query(i) => QueryStep(c, s, p, i)
    case SendLength =>
      var len := Offset(Lens(q.rows), |q.rows|);
      Put(s, p, q.(pc := Create, len := len, received := q.received + 1)).(log := s.log + [Length(len)])
    case Create => CreateStep(s, p)
    case WriteHeader =>
      Put(s, p, q.(pc := WriteRow(0)))
      .(segs := s.segs[q.seg := Overwrite(s.segs[q.seg], 0, Lens(q.rows))])
    case WriteRow(i) => WriteRowStep(c, s, p, i)
    case Unlink =>
      Put(s, p, q.(pc := Outside, results := q.results + [q.rows])).(files := s.files - {q.path})
    case RecvPath =>
      Put(s, p, q.(pc := RecvLength, path := s.log[q.received].path, received := q.received + 1))
    case RecvLength =>
      Put(s, p, q.(pc := At(2), len := s.log[q.received].len, received := q.received + 1))
    case Attach => Put(s, p, q.(pc := At(3), seg := s.files[q.path]))
    case ReadHeader => ReadHeaderStep(c, s, p)
    case ReadRow(i) => ReadRowStep(c, s, p, i)
  }

  datatype Event = Step(p: nat, path: nat) | Rebind(p: nat, binding: Binding)

  predicate Allowed(c: Config, s: State, e: Event) {
    e.p < |s.procs| && e.p < |s.binds| && if e.Step? then CanStep(c, s, e.p) else s.procs[e.p].pc == Outside
  }

  function After(c: Config, s: State, e: Event): State
    requires Allowed(c, s, e)
  {
    if e.Step? then Do(c, s, e.p, e.path) else s.(binds := s.binds[e.p := e.binding])
  }

  ghost predicate Reaches(c: Config, s: State, events: seq<Event>, t: State)
    decreases |events|
  {
    if events == [] then s == t
    else Allowed(c, s, events[0]) && Reaches(c, After(c, s, events[0]), events[1..], t)
  }

  /** Any number of processes, bound in any way, with any files already there. */
  ghost predicate Init(s: State) {
    && 0 < |s.procs| == |s.binds|
    && (forall p :: 0 <= p < |s.procs| ==>
                      s.procs[p].pc == Outside && s.procs[p].results == [] && s.procs[p].received == 0)
    && s.arrived == s.generation == 0
    && s.log == [] && s.frozen == []
    && FilesValid(s)
  }

  ghost predicate FilesValid(s: State) {
    forall path :: path in s.files ==> s.files[path] < |s.segs|
  }

  // ----- Where a process is within its call.

  /** Barriers of this call that it has entered. */
  function Passed(pc: Pc): nat {
    match pc
    case Outside => 0
    case At(k) => if k > 0 then k - 1 else 0
    case In(k) => k
    case SendPath => 1
    case Query(_) => 1
    case SendLength => 1
    case Create => 1
    case WriteHeader => 1
    case WriteRow(_) => 1
    case Unlink => 3
    case RecvPath => 1
    case RecvLength => 1
    case Attach => 2
    case ReadHeader => 3
    case ReadRow(_) => 3
  }

  /** Barriers it has entered in all its calls. */
  function Arrivals(q: Proc): nat {
    3 * |q.results| + Passed(q.pc)
  }

  /** Broadcasts of this call that it took part in. */
  function Seen(pc: Pc): nat {
    match pc
    case Outside => 0
    case At(_) => 2
    case In(k) => if k == 1 then 0 else 2
    case SendPath => 0
    case Query(_) => 1
    case SendLength => 1
    case Create => 2
    case WriteHeader => 2
    case WriteRow(_) => 2
    case Unlink => 2
    case RecvPath => 0
    case RecvLength => 1
    case Attach => 2
    case ReadHeader => 2
    case ReadRow(_) => 2
  }

  predicate PcOf(p: nat, pc: Pc) {
    match pc
    case Outside => true
    case At(k) => k == 2 || k == 3
    case In(k) => 1 <= k <= 3
    case SendPath => p == 0
    case Query(_) => p == 0
    case SendLength => p == 0
    case Create => p == 0
    case WriteHeader => p == 0
    case WriteRow(_) => p == 0
    case Unlink => p == 0
    case RecvPath => p != 0
    case RecvLength => p != 0
    case Attach => p != 0
    case ReadHeader => p != 0
    case ReadRow(_) => p != 0
  }

  // ----- The invariant.

  /** How many processes have entered a barriers. */
  ghost function Count(procs: seq<Proc>, a: nat): nat {
    if procs == [] then 0
    else Count(procs[..|procs| - 1], a) + if Arrivals(procs[|procs| - 1]) == a then 1 else 0
  }

  /** One process is level with the barrier's generation, or one ahead and inside it. */
  predicate Level(s: State, q: Proc) {
    Arrivals(q) == s.generation || (Arrivals(q) == s.generation + 1 && q.pc.In?)
  }

  ghost predicate BarrierInv(s: State) {
    && s.arrived < |s.procs|
    && s.arrived == Count(s.procs, s.generation + 1)
    && forall p :: 0 <= p < |s.procs| ==> Level(s, s.procs[p])
  }

  ghost predicate LogInv(c: Config, s: State) {
    forall t: nat :: t < |s.log| ==>
                       if t % 2 == 0 then s.log[t].Path?
                       else t / 2 < |s.frozen| && s.log[t] == Length(|Flat(TableOf(c, s.frozen[t / 2]))|)
  }

  ghost predicate Agrees(c: Config, s: State, q: Proc) {
    && |q.results| <= |s.frozen|
    && forall t :: 0 <= t < |q.results| ==> q.results[t] == TableOf(c, s.frozen[t])
  }

  ghost predicate Common(c: Config, s: State, p: nat, q: Proc) {
    && Agrees(c, s, q)
    && |q.results| <= c.rounds && (q.pc != Outside ==> |q.results| < c.rounds)
    && PcOf(p, q.pc)
    && (q.pc.In? ==> q.ticket + 1 == Arrivals(q))
    && q.received == 2 * |q.results| + Seen(q.pc)
    && (Seen(q.pc) >= 1 ==> 2 * |q.results| < |s.log| && s.log[2 * |q.results|] == Path(q.path))
    && (Seen(q.pc) >= 2 ==> |q.results| < |s.frozen| && q.len == |Flat(TableOf(c, s.frozen[|q.results|]))|)
  }

  /** The current call's table, once process 0 has begun to query. */
  ghost function Current(c: Config, s: State, q: Proc): Table
    requires |q.results| < |s.frozen|
  {
    TableOf(c, s.frozen[|q.results|])
  }

  ghost predicate Published(c: Config, s: State, q: Proc)
    requires |q.results| < |s.frozen|
  {
    q.seg < |s.segs| && s.segs[q.seg] == Flat(Current(c, s, q))
  }

  ghost predicate Linked(s: State, q: Proc) {
    q.path in s.files && s.files[q.path] == q.seg < |s.segs|
  }

  ghost predicate RootInv(c: Config, s: State, q: Proc) {
    && |s.log| == 2 * |q.results| + Seen(q.pc)
    && |s.frozen| == |q.results| + (if Seen(q.pc) >= 1 then 1 else 0)
    && (Seen(q.pc) >= 1 && !q.pc.Query? ==> q.rows == Current(c, s, q))
    && (q.pc.Query? ==>
          && q.pc.rid < c.nres
          && s.frozen[|q.results|] == s.binds
          && q.rows == Current(c, s, q)[..q.pc.rid])
    && (q.pc.WriteHeader? ==> Linked(s, q) && |s.segs[q.seg]| == q.len)
    && (q.pc.WriteRow? ==>
          && q.pc.rid < c.nres && Linked(s, q)
          && WrittenUpTo(s.segs[q.seg], q.rows, Offset(Lens(q.rows), q.pc.rid)))
    && (q.pc.At? || (q.pc.In? && q.pc.k > 1) || q.pc.Unlink? ==> Linked(s, q) && Published(c, s, q))
  }

  /** Attached, and not yet back from the call. */
  predicate Attached(pc: Pc) {
    (pc.At? && pc.k == 3) || (pc.In? && pc.k == 3) || pc.ReadHeader? || pc.ReadRow?
  }

  ghost predicate PeerInv(c: Config, s: State, q: Proc) {
    Attached(q.pc) ==>
      && |q.results| < |s.frozen| && Published(c, s, q)
      && (q.pc.ReadRow? ==>
            && q.pc.rid < c.nres
            && q.lens == Lens(Current(c, s, q))
            && q.rows == Current(c, s, q)[..q.pc.rid])
  }

  ghost predicate Own(c: Config, s: State, p: nat, q: Proc) {
    Common(c, s, p, q) && if p == 0 then RootInv(c, s, q) else PeerInv(c, s, q)
  }

  ghost predicate Inv(c: Config, s: State) {
    && 0 < |s.procs| == |s.binds|
    && BarrierInv(s)
    && LogInv(c, s)
    && FilesValid(s)
    && (forall i :: 0 <= i < |s.frozen| ==> |s.frozen[i]| == |s.binds|)
    && forall p :: 0 <= p < |s.procs| ==> Own(c, s, p, s.procs[p])
  }

  lemma InitEstablishes(c: Config, s: State)
    requires Init(s)
    ensures Inv(c, s)
  {
    CountNone(s.procs, 1);
  }

  // ----- The barrier.

  lemma {:induction false} CountNone(procs: seq<Proc>, a: nat)
    requires forall p :: 0 <= p < |procs| ==> Arrivals(procs[p]) != a
    ensures Count(procs, a) == 0
  {
    if procs != [] {
      CountNone(procs[..|procs| - 1], a);
    }
  }

  lemma {:induction false} CountFull(procs: seq<Proc>, a: nat)
    ensures Count(procs, a) <= |procs|
    ensures Count(procs, a) == |procs| ==> forall p :: 0 <= p < |procs| ==> Arrivals(procs[p]) == a
    ensures (exists p :: 0 <= p < |procs| && Arrivals(procs[p]) != a) ==> Count(procs, a) < |procs|
  {
    if procs != [] {
      CountFull(procs[..|procs| - 1], a);
      assert forall p :: 0 <= p < |procs| - 1 ==> procs[..|procs| - 1][p] == procs[p];
    }
  }

  lemma {:induction false} CountPut(procs: seq<Proc>, p: nat, q: Proc, a: nat)
    requires p < |procs|
    ensures Count(procs[p := q], a)
         == Count(procs, a) - (if Arrivals(procs[p]) == a then 1 else 0) + (if Arrivals(q) == a then 1 else 0)
  {
    var last := |procs| - 1;
    if p < last {
      CountPut(procs[..last], p, q, a);
      assert procs[p := q][..last] == procs[..last][p := q];
    } else {
      assert procs[p := q][..last] == procs[..last];
    }
  }

  /** A step outside the barrier. */
  lemma BarrierUntouched(s: State, t: State, p: nat, q: Proc)
    requires BarrierInv(s) && p < |s.procs| && t.procs == s.procs[p := q]
    requires t.arrived == s.arrived && t.generation == s.generation
    requires Arrivals(q) == Arrivals(s.procs[p]) == s.generation
    ensures BarrierInv(t)
  {
    CountPut(s.procs, p, q, s.generation + 1);
  }

  lemma BarrierEntered(s: State, p: nat, k: nat)
    requires BarrierInv(s) && p < |s.procs| && !s.procs[p].pc.In? && Passed(s.procs[p].pc) + 1 == k
    ensures BarrierInv(Enter(s, p, k))
  {
    var q := s.procs[p].(pc := In(k), ticket := s.generation);
    var g := s.generation;
    assert Level(s, s.procs[p]);
    CountPut(s.procs, p, q, g + 1);
    if s.arrived + 1 == |s.procs| {
      BarrierOpens(s.procs[p := q], g);
    } else {
      BarrierWaits(s, Enter(s, p, k), p, q);
    }
  }

  lemma BarrierOpens(procs: seq<Proc>, g: nat)
    requires Count(procs, g + 1) == |procs|
    ensures forall p :: 0 <= p < |procs| ==> Arrivals(procs[p]) == g + 1
    ensures Count(procs, g + 2) == 0
  {
    CountFull(procs, g + 1);
    CountNone(procs, g + 2);
  }

  lemma BarrierWaits(s: State, t: State, p: nat, q: Proc)
    requires BarrierInv(s) && p < |s.procs| && t.procs == s.procs[p := q]
    requires t.generation == s.generation && t.arrived == Count(t.procs, t.generation + 1) < |t.procs|
    requires Arrivals(q) == s.generation + 1 && q.pc.In?
    ensures BarrierInv(t)
  {
  }

  // ----- What process 0 may rely on, and what it must not disturb.

  /** While process 0 is between the first two barriers, every process is in the call and none attached. */
  lemma WhileRootWorks(c: Config, s: State, p: nat)
    requires Inv(c, s) && p < |s.procs| && Passed(s.procs[0].pc) == 1 && !s.procs[0].pc.In?
    ensures s.procs[p].pc != Outside && !(p != 0 && Attached(s.procs[p].pc))
  {
    var root, q := s.procs[0], s.procs[p];
    assert Level(s, root) && Level(s, q) && Own(c, s, 0, root) && Own(c, s, p, q);
  }

  /** A process about to attach finds the segment linked under the path it was sent, and completely
      written: it is that of its own call. */
  lemma AttachFinds(c: Config, s: State, p: nat)
    requires Inv(c, s) && p < |s.procs| && s.procs[p].pc == Attach
    ensures var q := s.procs[p];
            && |q.results| < |s.frozen| && q.path in s.files && s.files[q.path] < |s.segs|
            && s.segs[s.files[q.path]] == Flat(Current(c, s, q))
            && |s.segs[s.files[q.path]]| == q.len
  {
    var root, q := s.procs[0], s.procs[p];
    assert Level(s, root) && Level(s, q) && Own(c, s, 0, root) && Own(c, s, p, q);
    assert |root.results| == |q.results|;
    assert s.log[2 * |q.results|] == Path(q.path) == Path(root.path);
  }

  lemma CommonKept(c: Config, s: State, t: State, p: nat, q: Proc)
    requires Common(c, s, p, q) && s.log <= t.log && s.frozen <= t.frozen
    ensures Common(c, t, p, q)
  {
  }

  lemma PeerKept(c: Config, s: State, t: State, q: Proc)
    requires PeerInv(c, s, q) && s.frozen <= t.frozen
    requires Attached(q.pc) ==> q.seg < |s.segs| && q.seg < |t.segs| && t.segs[q.seg] == s.segs[q.seg]
    ensures PeerInv(c, t, q)
  {
  }

  lemma KeptByPeer(c: Config, s: State, t: State, p: nat, q: Proc)
    requires Inv(c, s) && 0 < p < |s.procs| && t.procs == s.procs[p := q]
    requires t.binds == s.binds && t.log == s.log && t.files == s.files && t.segs == s.segs && t.frozen == s.frozen
    requires BarrierInv(t) && Own(c, t, p, q)
    ensures Inv(c, t)
  {
    forall i | 0 <= i < |s.procs| ensures Own(c, t, i, t.procs[i]) {
      assert Own(c, s, i, s.procs[i]);
      if i != p {
        CommonKept(c, s, t, i, s.procs[i]);
      }
    }
  }

  ghost predicate SegsKept(s: State, t: State) {
    forall i :: 0 < i < |s.procs| && Attached(s.procs[i].pc) && s.procs[i].seg < |s.segs| ==>
                  s.procs[i].seg < |t.segs| && t.segs[s.procs[i].seg] == s.segs[s.procs[i].seg]
  }

  lemma KeptByRoot(c: Config, s: State, t: State, q: Proc)
    requires Inv(c, s) && t.procs == s.procs[0 := q]
    requires t.binds == s.binds && s.log <= t.log && s.frozen <= t.frozen && SegsKept(s, t)
    requires BarrierInv(t) && LogInv(c, t) && FilesValid(t) && Own(c, t, 0, q)
    requires forall i :: 0 <= i < |t.frozen| ==> |t.frozen[i]| == |t.binds|
    ensures Inv(c, t)
  {
    forall i | 0 <= i < |s.procs| ensures Own(c, t, i, t.procs[i]) {
      assert Own(c, s, i, s.procs[i]);
      if i != 0 {
        CommonKept(c, s, t, i, s.procs[i]);
        PeerKept(c, s, t, s.procs[i]);
      }
    }
  }

  // ----- Every step keeps the invariant.

  lemma EnterOwn(c: Config, s: State, p: nat, path: nat)
    requires p < |s.procs| && Own(c, s, p, s.procs[p]) && CanStep(c, s, p) && Level(s, s.procs[p])
    requires s.procs[p].pc == Outside || s.procs[p].pc.At?
    ensures Own(c, Do(c, s, p, path), p, Do(c, s, p, path).procs[p])
  {
  }

  lemma EnterKeeps(c: Config, s: State, p: nat, path: nat)
    requires Inv(c, s) && p < |s.procs| && CanStep(c, s, p) && (s.procs[p].pc == Outside || s.procs[p].pc.At?)
    ensures Inv(c, Do(c, s, p, path))
  {
    var q := s.procs[p];
    assert Own(c, s, p, q) && Level(s, q);
    var k := if q.pc == Outside then 1 else q.pc.k;
    EnterOwn(c, s, p, path);
    EnterKept(c, s, p, k);
  }

  lemma EnterKept(c: Config, s: State, p: nat, k: nat)
    requires Inv(c, s) && p < |s.procs| && !s.procs[p].pc.In? && Passed(s.procs[p].pc) + 1 == k
    requires Own(c, Enter(s, p, k), p, Enter(s, p, k).procs[p])
    ensures Inv(c, Enter(s, p, k))
  {
    BarrierEntered(s, p, k);
    var t := Enter(s, p, k);
    if p == 0 {
      KeptByRoot(c, s, t, t.procs[0]);
    } else {
      KeptByPeer(c, s, t, p, t.procs[p]);
    }
  }

  lemma LeaveOwn(c: Config, s: State, p: nat, path: nat)
    requires p < |s.procs| && Own(c, s, p, s.procs[p]) && CanStep(c, s, p) && s.procs[p].pc.In?
    ensures Own(c, Do(c, s, p, path), p, Do(c, s, p, path).procs[p])
    ensures Arrivals(Do(c, s, p, path).procs[p]) == Arrivals(s.procs[p])
  {
  }

  lemma LeaveKeeps(c: Config, s: State, p: nat, path: nat)
    requires Inv(c, s) && p < |s.procs| && CanStep(c, s, p) && s.procs[p].pc.In?
    ensures Inv(c, Do(c, s, p, path))
  {
    var q := s.procs[p];
    assert Own(c, s, p, q) && Level(s, q);
    LeaveOwn(c, s, p, path);
    var t := Do(c, s, p, path);
    BarrierUntouched(s, t, p, t.procs[p]);
    if p == 0 {
      KeptByRoot(c, s, t, t.procs[0]);
    } else {
      KeptByPeer(c, s, t, p, t.procs[p]);
    }
  }

  lemma RecvKeeps(c: Config, s: State, p: nat, path: nat)
    requires Inv(c, s) && p < |s.procs| && CanStep(c, s, p) &&
             (s.procs[p].pc == RecvPath || s.procs[p].pc == RecvLength)
    ensures Inv(c, Do(c, s, p, path))
  {
    var q := s.procs[p];
    var t := Do(c, s, p, path);
    assert Own(c, s, p, q) && Level(s, q);
    BarrierUntouched(s, t, p, t.procs[p]);
    assert q.received / 2 == |q.results|;
    KeptByPeer(c, s, t, p, t.procs[p]);
  }

  lemma AttachKeeps(c: Config, s: State, p: nat, path: nat)
    requires Inv(c, s) && p < |s.procs| && CanStep(c, s, p) && s.procs[p].pc == Attach
    ensures Inv(c, Do(c, s, p, path))
  {
    var t := Do(c, s, p, path);
    assert Own(c, s, p, s.procs[p]) && Level(s, s.procs[p]);
    AttachFinds(c, s, p);
    BarrierUntouched(s, t, p, t.procs[p]);
    KeptByPeer(c, s, t, p, t.procs[p]);
  }

  lemma ReadHeaderKeeps(c: Config, s: State, p: nat, path: nat)
    requires Inv(c, s) && c.nres > 0 && p < |s.procs| && CanStep(c, s, p) && s.procs[p].pc == ReadHeader
    ensures Inv(c, Do(c, s, p, path))
  {
    var q := s.procs[p];
    var t := Do(c, s, p, path);
    assert Own(c, s, p, q) && Level(s, q);
    var table := Current(c, s, q);
    FlatSize(table);
    assert forall i :: 0 <= i < c.nres ==> Flat(table)[i] == Lens(table)[i];
    assert t.procs[p].lens == Lens(table);
    BarrierUntouched(s, t, p, t.procs[p]);
    KeptByPeer(c, s, t, p, t.procs[p]);
  }

  lemma ReadRowOwn(c: Config, s: State, p: nat, path: nat)
    requires p < |s.procs| && Own(c, s, p, s.procs[p]) && CanStep(c, s, p) && s.procs[p].pc.ReadRow?
    ensures Own(c, Do(c, s, p, path), p, Do(c, s, p, path).procs[p])
    ensures Arrivals(Do(c, s, p, path).procs[p]) == Arrivals(s.procs[p])
  {
    var q := s.procs[p];
    RowRead(s.segs[q.seg], Current(c, s, q), q.pc.rid);
  }

  lemma ReadRowKeeps(c: Config, s: State, p: nat, path: nat)
    requires Inv(c, s) && p < |s.procs| && CanStep(c, s, p) && s.procs[p].pc.ReadRow?
    ensures Inv(c, Do(c, s, p, path))
  {
    assert Own(c, s, p, s.procs[p]) && Level(s, s.procs[p]);
    ReadRowOwn(c, s, p, path);
    var t := Do(c, s, p, path);
    BarrierUntouched(s, t, p, t.procs[p]);
    KeptByPeer(c, s, t, p, t.procs[p]);
  }

  lemma SendPathKeeps(c: Config, s: State, p: nat, path: nat)
    requires Inv(c, s) && c.nres > 0 && p < |s.procs| && CanStep(c, s, p) && s.procs[p].pc == SendPath
    ensures Inv(c, Do(c, s, p, path))
  {
    var q := s.procs[p];
    var t := Do(c, s, p, path);
    assert Own(c, s, p, q) && Level(s, q);
    BarrierUntouched(s, t, p, t.procs[p]);
    KeptByRoot(c, s, t, t.procs[0]);
  }

  lemma QueryKeeps(c: Config, s: State, p: nat, path: nat)
    requires Inv(c, s) && p < |s.procs| && CanStep(c, s, p) && s.procs[p].pc.Query?
    ensures Inv(c, Do(c, s, p, path))
  {
    var q := s.procs[p];
    var t := Do(c, s, p, path);
    assert Own(c, s, p, q) && Level(s, q);
    var table := Current(c, s, q);
    assert t.procs[p].rows == table[..q.pc.rid + 1];
    assert table[..c.nres] == table;
    BarrierUntouched(s, t, p, t.procs[p]);
    KeptByRoot(c, s, t, t.procs[0]);
  }

  lemma SendLengthOwn(c: Config, s: State, p: nat, path: nat)
    requires p < |s.procs| && Own(c, s, p, s.procs[p]) && LogInv(c, s) && CanStep(c, s, p) &&
             s.procs[p].pc == SendLength
    ensures Own(c, Do(c, s, p, path), p, Do(c, s, p, path).procs[p]) && LogInv(c, Do(c, s, p, path))
  {
    FlatSize(s.procs[p].rows);
  }

  lemma SendLengthKeeps(c: Config, s: State, p: nat, path: nat)
    requires Inv(c, s) && p < |s.procs| && CanStep(c, s, p) && s.procs[p].pc == SendLength
    ensures Inv(c, Do(c, s, p, path))
  {
    assert Own(c, s, p, s.procs[p]) && Level(s, s.procs[p]);
    SendLengthOwn(c, s, p, path);
    var t := Do(c, s, p, path);
    BarrierUntouched(s, t, p, t.procs[p]);
    KeptByRoot(c, s, t, t.procs[0]);
  }

  lemma CreateKeeps(c: Config, s: State, p: nat, path: nat)
    requires Inv(c, s) && p < |s.procs| && CanStep(c, s, p) && s.procs[p].pc == Create
    ensures Inv(c, Do(c, s, p, path))
  {
    assert Own(c, s, p, s.procs[p]) && Level(s, s.procs[p]);
    var t := Do(c, s, p, path);
    WriteKept(c, s, t, t.procs[p]);
  }

  lemma WriteHeaderOwn(c: Config, s: State, p: nat, path: nat)
    requires c.nres > 0 && p < |s.procs| && Own(c, s, p, s.procs[p]) && CanStep(c, s, p)
    requires s.procs[p].pc == WriteHeader
    ensures Own(c, Do(c, s, p, path), p, Do(c, s, p, path).procs[p])
  {
    var q := s.procs[p];
    HeaderWritten(s.segs[q.seg], q.rows);
  }

  lemma WriteRowOwn(c: Config, s: State, p: nat, path: nat)
    requires c.nres > 0 && p < |s.procs| && Own(c, s, p, s.procs[p]) && CanStep(c, s, p)
    requires s.procs[p].pc.WriteRow?
    ensures Own(c, Do(c, s, p, path), p, Do(c, s, p, path).procs[p])
  {
    var q := s.procs[p];
    var i := q.pc.rid;
    RowWritten(s.segs[q.seg], q.rows, i);
    if i + 1 == c.nres {
      AllWritten(Overwrite(s.segs[q.seg], Offset(Lens(q.rows), i), q.rows[i]), q.rows);
    }
  }

  lemma WriteShape(c: Config, s: State, p: nat, path: nat)
    requires 0 < c.nres && p < |s.procs| && CanStep(c, s, p) && PcOf(p, s.procs[p].pc)
    requires s.procs[p].pc == WriteHeader || s.procs[p].pc.WriteRow?
    ensures var t := Do(c, s, p, path);
            && p == 0 && t.procs == s.procs[0 := t.procs[0]] && t.files == s.files && |t.segs| == |s.segs|
            && t.binds == s.binds && t.log == s.log && t.frozen == s.frozen
            && t.arrived == s.arrived && t.generation == s.generation
            && Passed(s.procs[0].pc) == Passed(t.procs[0].pc) == 1 && !s.procs[0].pc.In? &&
               t.procs[0].results == s.procs[0].results
  {
  }

  lemma WriteKeeps(c: Config, s: State, p: nat, path: nat)
    requires Inv(c, s) && c.nres > 0 && p < |s.procs| && CanStep(c, s, p)
    requires s.procs[p].pc == WriteHeader || s.procs[p].pc.WriteRow?
    ensures Inv(c, Do(c, s, p, path))
  {
    assert Own(c, s, p, s.procs[p]);
    if s.procs[p].pc == WriteHeader {
      WriteHeaderOwn(c, s, p, path);
    } else {
      WriteRowOwn(c, s, p, path);
    }
    WriteShape(c, s, p, path);
    WriteKept(c, s, Do(c, s, p, path), Do(c, s, p, path).procs[p]);
  }

  /** What process 0 does to a segment before the second barrier disturbs nobody. */
  lemma WriteKept(c: Config, s: State, t: State, q: Proc)
    requires Inv(c, s) && t.procs == s.procs[0 := q] && FilesValid(t)
    requires t.binds == s.binds && t.log == s.log && t.frozen == s.frozen
    requires t.arrived == s.arrived && t.generation == s.generation
    requires Passed(s.procs[0].pc) == Passed(q.pc) == 1 && !s.procs[0].pc.In? && q.results == s.procs[0].results
    requires Own(c, t, 0, q)
    ensures Inv(c, t)
  {
    forall i: nat | 0 < i < |s.procs| ensures !Attached(s.procs[i].pc) {
      WhileRootWorks(c, s, i);
    }
    assert Level(s, s.procs[0]);
    BarrierUntouched(s, t, 0, q);
    KeptByRoot(c, s, t, q);
  }

  lemma UnlinkKeeps(c: Config, s: State, p: nat, path: nat)
    requires Inv(c, s) && p < |s.procs| && CanStep(c, s, p) && s.procs[p].pc == Unlink
    ensures Inv(c, Do(c, s, p, path))
  {
    var t := Do(c, s, p, path);
    assert Own(c, s, p, s.procs[p]) && Level(s, s.procs[p]);
    BarrierUntouched(s, t, p, t.procs[p]);
    KeptByRoot(c, s, t, t.procs[0]);
  }

  lemma StepKeeps(c: Config, s: State, p: nat, path: nat)
    requires Inv(c, s) && c.nres > 0 && p < |s.procs| && CanStep(c, s, p)
    ensures Inv(c, Do(c, s, p, path))
  {
    match s.procs[p].pc
    case Outside => EnterKeeps(c, s, p, path);
    case At(_) => EnterKeeps(c, s, p, path);
    case In(_) => LeaveKeeps(c, s, p, path);
    case SendPath => SendPathKeeps(c, s, p, path);
    case Query(_) => QueryKeeps(c, s, p, path);
    case SendLength => SendLengthKeeps(c, s, p, path);
    case Create => CreateKeeps(c, s, p, path);
    case WriteHeader => WriteKeeps(c, s, p, path);
    case WriteRow(_) => WriteKeeps(c, s, p, path);
    case Unlink => UnlinkKeeps(c, s, p, path);
    case RecvPath => RecvKeeps(c, s, p, path);
    case RecvLength => RecvKeeps(c, s, p, path);
    case Attach => AttachKeeps(c, s, p, path);
    case ReadHeader => ReadHeaderKeeps(c, s, p, path);
    case ReadRow(_) => ReadRowKeeps(c, s, p, path);
  }

  lemma OwnAfterRebind(c: Config, s: State, p: nat, binding: Binding, i: nat)
    requires p < |s.procs| == |s.binds| && i < |s.procs| && Own(c, s, i, s.procs[i]) &&
             !(i == 0 && s.procs[i].pc.Query?)
    ensures Own(c, s.(binds := s.binds[p := binding]), i, s.procs[i])
  {
  }

  lemma RebindKeeps(c: Config, s: State, p: nat, binding: Binding)
    requires Inv(c, s) && p < |s.procs| && s.procs[p].pc == Outside
    ensures Inv(c, s.(binds := s.binds[p := binding]))
  {
    if s.procs[0].pc.Query? {
      WhileRootWorks(c, s, p);
    }
    forall i: nat | i < |s.procs| ensures Own(c, s.(binds := s.binds[p := binding]), i, s.procs[i]) {
      OwnAfterRebind(c, s, p, binding, i);
    }
  }

  lemma {:induction false} RunKeeps(c: Config, s: State, events: seq<Event>, t: State)
    requires c.nres > 0 && Inv(c, s) && Reaches(c, s, events, t)
    ensures Inv(c, t)
    decreases |events|
  {
    if events != [] {
      var e := events[0];
      if e.Step? {
        StepKeeps(c, s, e.p, e.path);
      } else {
        RebindKeeps(c, s, e.p, e.binding);
      }
      RunKeeps(c, After(c, s, e), events[1..], t);
    }
  }
}
