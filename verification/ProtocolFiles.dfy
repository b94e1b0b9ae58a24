/** What the protocol leaves in the file system: nothing of its own. */
module ProtocolFiles {
  import opened Protocol

  /** Process 0 has broadcast that path. */
  ghost predicate Announced(s: State, path: nat) {
    exists t :: 0 <= t < |s.log| && s.log[t] == Path(path)
  }

  /** Process 0 is in a call for which it has announced a path. */
  predicate Busy(s: State) {
    s.procs != [] && Seen(s.procs[0].pc) >= 1
  }

  /** But for the path of the call under way, the files are those there were at the beginning, without the paths
      that were ever announced. */
  ghost predicate Clean(init: State, s: State) {
    forall path: nat :: !(Busy(s) && path == s.procs[0].path) ==> CleanAt(init, s, path)
  }

  ghost predicate CleanAt(init: State, s: State, path: nat) {
    && (path in s.files <==> path in init.files && !Announced(s, path))
    && (path in s.files ==> s.files[path] == init.files[path])
  }

  lemma AnnouncedMore(s: State, t: State, m: Message, path: nat)
    requires t.log == s.log + [m]
    ensures Announced(t, path) <==> Announced(s, path) || m == Path(path)
  {
    assert t.log[|s.log|] == m;
    assert forall i :: 0 <= i < |s.log| ==> t.log[i] == s.log[i];
  }

  /** Steps that touch neither files nor broadcasts, nor the path of process 0. */
  lemma Untouched(init: State, s: State, t: State)
    requires Clean(init, s) && t.files == s.files && t.log == s.log && |t.procs| == |s.procs|
    requires s.procs != [] ==> t.procs[0].path == s.procs[0].path && (Busy(t) <==> Busy(s))
    ensures Clean(init, t)
  {
    forall path: nat ensures CleanAt(init, s, path) ==> CleanAt(init, t, path) {
      assert Announced(s, path) <==> Announced(t, path);
    }
  }

  lemma SendPathCleans(c: Config, init: State, s: State, path: nat)
    requires Clean(init, s) && |s.procs| > 0 && s.procs[0].pc == SendPath && CanStep(c, s, 0)
    ensures Clean(init, Do(c, s, 0, path))
  {
    var t := Do(c, s, 0, path);
    forall other: nat | other != path ensures CleanAt(init, t, other) {
      assert CleanAt(init, s, other);
      AnnouncedMore(s, t, Path(path), other);
    }
  }

  lemma SendLengthCleans(c: Config, init: State, s: State, path: nat)
    requires Clean(init, s) && |s.procs| > 0 && s.procs[0].pc == SendLength && CanStep(c, s, 0)
    ensures Clean(init, Do(c, s, 0, path))
  {
    var t := Do(c, s, 0, path);
    forall other: nat | other != s.procs[0].path ensures CleanAt(init, t, other) {
      assert CleanAt(init, s, other);
      AnnouncedMore(s, t, t.log[|s.log|], other);
    }
  }

  lemma CreateCleans(c: Config, init: State, s: State, path: nat)
    requires Clean(init, s) && |s.procs| > 0 && s.procs[0].pc == Create && CanStep(c, s, 0)
    ensures Clean(init, Do(c, s, 0, path))
  {
    var t := Do(c, s, 0, path);
    forall other: nat | other != s.procs[0].path ensures CleanAt(init, t, other) {
      assert CleanAt(init, s, other);
      assert Announced(s, other) <==> Announced(t, other);
    }
  }

  lemma UnlinkCleans(c: Config, init: State, s: State, path: nat)
    requires Inv(c, s) && Clean(init, s) && s.procs[0].pc == Unlink && CanStep(c, s, 0)
    ensures Clean(init, Do(c, s, 0, path))
  {
    var t, q := Do(c, s, 0, path), s.procs[0];
    assert Own(c, s, 0, q) && s.log[2 * |q.results|] == Path(q.path);
    assert Announced(s, q.path);
    forall other: nat ensures CleanAt(init, t, other) {
      assert other != q.path ==> CleanAt(init, s, other);
      assert Announced(s, other) <==> Announced(t, other);
    }
  }

  /** Every step keeps that. */
  lemma StepCleans(c: Config, init: State, s: State, p: nat, path: nat)
    requires Inv(c, s) && Clean(init, s) && p < |s.procs| && CanStep(c, s, p)
    ensures Clean(init, Do(c, s, p, path))
  {
    assert Own(c, s, p, s.procs[p]) && PcOf(p, s.procs[p].pc);
    match s.procs[p].pc
    case SendPath => SendPathCleans(c, init, s, path);
    case SendLength => SendLengthCleans(c, init, s, path);
    case Create => CreateCleans(c, init, s, path);
    case Unlink => UnlinkCleans(c, init, s, path);
    case _ => QuietStep(c, init, s, p, path);
  }

  /** What Untouched asks for. */
  ghost predicate Quiet(s: State, t: State) {
    && t.files == s.files && t.log == s.log && |t.procs| == |s.procs| > 0
    && t.procs[0].path == s.procs[0].path && (Busy(t) <==> Busy(s))
  }

  lemma BarrierIsQuiet(c: Config, s: State, p: nat, path: nat)
    requires p < |s.procs| && CanStep(c, s, p) && PcOf(p, s.procs[p].pc)
    requires s.procs[p].pc.Outside? || s.procs[p].pc.At? || s.procs[p].pc.In?
    ensures Quiet(s, Do(c, s, p, path))
  {
  }

  lemma WorkIsQuiet(c: Config, s: State, path: nat)
    requires |s.procs| > 0 && CanStep(c, s, 0)
    requires s.procs[0].pc.Query? || s.procs[0].pc.WriteHeader? || s.procs[0].pc.WriteRow?
    ensures Quiet(s, Do(c, s, 0, path))
  {
  }

  lemma ReceivingIsQuiet(c: Config, s: State, p: nat, path: nat)
    requires 0 < p < |s.procs| && CanStep(c, s, p)
    requires s.procs[p].pc.RecvPath? || s.procs[p].pc.RecvLength? || s.procs[p].pc.Attach?
    ensures Quiet(s, Do(c, s, p, path))
  {
  }

  lemma ReadingIsQuiet(c: Config, s: State, p: nat, path: nat)
    requires 0 < p < |s.procs| && CanStep(c, s, p)
    requires s.procs[p].pc.ReadHeader? || s.procs[p].pc.ReadRow?
    ensures Quiet(s, Do(c, s, p, path))
  {
  }

  lemma QuietStep(c: Config, init: State, s: State, p: nat, path: nat)
    requires Clean(init, s) && p < |s.procs| && CanStep(c, s, p) && PcOf(p, s.procs[p].pc)
    requires var pc := s.procs[p].pc; !pc.SendPath? && !pc.SendLength? && !pc.Create? && !pc.Unlink?
    ensures Clean(init, Do(c, s, p, path))
  {
    var pc := s.procs[p].pc;
    if pc.Outside? || pc.At? || pc.In? {
      BarrierIsQuiet(c, s, p, path);
    } else if p == 0 {
      WorkIsQuiet(c, s, path);
    } else if pc.ReadHeader? || pc.ReadRow? {
      ReadingIsQuiet(c, s, p, path);
    } else {
      ReceivingIsQuiet(c, s, p, path);
    }
    Untouched(init, s, Do(c, s, p, path));
  }

  lemma {:induction false} RunCleans(c: Config, init: State, s: State, events: seq<Event>, t: State)
    requires c.nres > 0 && Inv(c, s) && Clean(init, s) && Reaches(c, s, events, t)
    ensures Inv(c, t) && Clean(init, t)
    decreases |events|
  {
    if events != [] {
      var e := events[0];
      var u := After(c, s, e);
      if e.Step? {
        StepKeeps(c, s, e.p, e.path);
        StepCleans(c, init, s, e.p, e.path);
      } else {
        RebindKeeps(c, s, e.p, e.binding);
        Untouched(init, s, u);
      }
      RunCleans(c, init, u, events[1..], t);
    }
  }

  /** Whenever process 0 is outside, exactly the files are left that were there at the beginning under paths it
      never used: no path of a completed call remains. */
  lemma NothingLeftBehind(c: Config, init: State, events: seq<Event>, s: State)
    requires c.nres > 0 && Init(init) && Reaches(c, init, events, s)
    ensures s.procs != []
    ensures s.procs[0].pc == Outside ==>
              forall path: nat :: CleanAt(init, s, path)
    ensures forall t :: 0 <= t < |s.procs[0].results| ==>
                          2 * t < |s.log| && s.log[2 * t].Path? && Announced(s, s.log[2 * t].path)
  {
    InitEstablishes(c, init);
    assert Clean(init, init) by {
      forall path: nat ensures CleanAt(init, init, path) {
        assert !Announced(init, path);
      }
    }
    RunCleans(c, init, init, events, s);
    var root := s.procs[0];
    assert Own(c, s, 0, root);
    if root.pc == Outside {
      forall path: nat ensures CleanAt(init, s, path) {
      }
    }
    forall t | 0 <= t < |root.results|
      ensures 2 * t < |s.log| && s.log[2 * t].Path? && Announced(s, s.log[2 * t].path)
    {
      assert 2 * t < |s.log| && s.log[2 * t] == Path(s.log[2 * t].path);
    }
  }
}
