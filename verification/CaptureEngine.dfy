/** The engine object whose critical sections the protocol of CaptureLifecycle describes: each
    method is what one call does while it holds `lifecycleMu`, proved to be the protocol's step. */
module CaptureEngine {
  import opened CaptureLifecycle

  /** The newest run of a running session. */
  predicate IsWaited(captures: map<Name, Session>, r: RunId) {
    r.name in captures && captures[r.name].running
    && |captures[r.name].runs| > 0 && r.index == |captures[r.name].runs| - 1
  }

  lemma WaitsAre(s: State, waits: set<RunId>)
    requires forall r :: r in waits <==> IsWaited(s.sessions, r)
    ensures waits == Waits(s)
  {
    forall r | r in waits ensures r in Waits(s) { assert r == Current(s, r.name); }
  }

  class Engine {
    var root: Root
    var captures: map<Name, Session>
    /** The stop calls that have released the lock and wait. */
    var waiting: map<nat, Call>

    function Abs(): State
      reads this
    {
      State(root, captures, waiting)
    }

    constructor (names: set<Name>)
      ensures Initial(Abs()) && captures.Keys == names
    {
      root := Unset;
      captures := map n | n in names :: Session(false, false, []);
      waiting := map[];
    }

    /** Starts every idle session, in any order, until one is met that is still stopping. */
    method StartCapture() returns (failed: bool, ghost started: set<Name>)
      modifies this
      ensures StartableSet(old(Abs()), started)
      ensures Abs() == Apply(old(Abs()), CaptureLifecycle.StartCapture(started))
      ensures failed <==> !old(root.Open?) || exists n <- old(captures) :: old(captures[n].stopping)
    {
      started := {};
      var before := captures;
      if !root.Open? {
        assert captures == (map n | n in captures :: captures[n]);
        return true, {};
      }
      var todo := captures.Keys;
      failed := false;
      while todo != {} && !failed
        invariant root == old(root) && waiting == old(waiting) && before == old(captures)
        invariant todo <= before.Keys && captures.Keys == before.Keys && started <= before.Keys - todo
        invariant forall n <- before :: captures[n] == if n in started then Started(before[n]) else before[n]
        invariant forall n <- started :: !before[n].running && !before[n].stopping
        invariant !failed ==> forall n <- before.Keys - todo :: !before[n].stopping && (before[n].running || n in started)
        invariant failed ==> exists n <- before :: before[n].stopping
        decreases todo
      {
        var n :| n in todo;
        todo := todo - {n};
        if captures[n].stopping {
          failed := true;
        } else if !captures[n].running {
          captures := captures[n := Started(captures[n])];
          started := started + {n};
        }
      }
      assert captures == (map n | n in before :: if n in started then Started(before[n]) else before[n]);
    }

    /** Marks every running session, and collects the `done` channels of those with a run. */
    method MarkRunning() returns (waits: set<RunId>)
      modifies this`captures
      ensures captures == map n | n in old(captures) :: if old(captures)[n].running then Stopped(old(captures)[n]) else old(captures)[n]
      ensures forall r :: r in waits <==> IsWaited(old(captures), r)
    {
      hide Stopped;
      var before := captures;
      var todo := captures.Keys;
      waits := {};
      while todo != {}
        invariant before == old(captures) && todo <= before.Keys == captures.Keys
        invariant forall n <- before :: captures[n] == if n !in todo && before[n].running then Stopped(before[n]) else before[n]
        invariant forall r :: r in waits <==> r.name !in todo && IsWaited(before, r)
        decreases todo
      {
        var n :| n in todo;
        todo := todo - {n};
        if captures[n].running {
          if |captures[n].runs| > 0 {
            waits := waits + {RunId(n, |captures[n].runs| - 1)};
          }
          captures := captures[n := Stopped(captures[n])];
        }
      }
    }

    /** Marks every running session and collects the channels to wait for. */
    method StopCaptureBegin(c: nat)
      requires c !in waiting
      modifies this
      ensures Abs() == Apply(old(Abs()), CaptureLifecycle.StopCaptureBegin(c))
    {
      hide Stopped, Waits;
      var waits := MarkRunning();
      WaitsAre(old(Abs()), waits);
      waiting := waiting[c := StopAll(waits)];
    }

    /** Back with the lock after the waits: clears `stopping` on every session. */
    method StopCaptureEnd(c: nat)
      requires Enabled(Abs(), CaptureLifecycle.StopCaptureEnd(c))
      modifies this
      ensures Abs() == Apply(old(Abs()), CaptureLifecycle.StopCaptureEnd(c))
    {
      var before := captures;
      var todo := captures.Keys;
      while todo != {}
        invariant root == old(root) && waiting == old(waiting) && before == old(captures)
        invariant todo <= before.Keys == captures.Keys
        invariant forall n <- before :: captures[n] == if n !in todo then before[n].(stopping := false) else before[n]
        decreases todo
      {
        var n :| n in todo;
        todo := todo - {n};
        captures := captures[n := captures[n].(stopping := false)];
      }
      assert captures == (map n | n in before :: before[n].(stopping := false));
      waiting := waiting - {c};
    }

    method StartInterface(name: Name) returns (failed: bool)
      modifies this
      ensures Abs() == Apply(old(Abs()), CaptureLifecycle.StartInterface(name))
      ensures failed <==> !old(root.Open?) || name !in old(captures) || old(captures[name].stopping)
    {
      if !root.Open? || name !in captures || captures[name].stopping {
        return true;
      }
      if !captures[name].running {
        captures := captures[name := Started(captures[name])];
      }
      failed := false;
    }

    /** Up to the unlock: `waitFor` is the channel the call goes on to wait for, if any. */
    method StopInterfaceBegin(c: nat, name: Name) returns (failed: bool)
      requires c !in waiting
      modifies this
      ensures Abs() == Apply(old(Abs()), CaptureLifecycle.StopInterfaceBegin(c, name))
      ensures failed <==> name !in old(captures)
    {
      if name !in captures {
        return true;
      }
      failed := false;
      var cs := captures[name];
      if !cs.running && !cs.stopping {
        return;
      }
      if cs.stopping {
        if |cs.runs| > 0 {
          waiting := waiting[c := Join(RunId(name, |cs.runs| - 1))];
        }
        return;
      }
      if |cs.runs| == 0 {
        captures := captures[name := cs.(running := false)];
        return;
      }
      captures := captures[name := Stopped(cs)];
      waiting := waiting[c := StopOne(RunId(name, |cs.runs| - 1))];
    }

    method StopInterfaceEnd(c: nat)
      requires Enabled(Abs(), CaptureLifecycle.StopInterfaceEnd(c))
      modifies this
      ensures Abs() == Apply(old(Abs()), CaptureLifecycle.StopInterfaceEnd(c))
    {
      var call := waiting[c];
      if call.StopOne? {
        captures := captures[call.run.name := captures[call.run.name].(stopping := false)];
      }
      waiting := waiting - {c};
    }

    /** The goroutine's deferred section, which looks the session up again by name and compares
        generations before it touches the flags. */
    method SettleRun(r: RunId)
      requires Enabled(Abs(), RunSettles(r))
      modifies this
      ensures Abs() == Apply(old(Abs()), RunSettles(r))
    {
      var cs := captures[r.name];
      var run := cs.runs[r.index];
      cs := cs.(runs := cs.runs[r.index := run.(phase := Settled)]);
      if r.index + 1 == |cs.runs| && !run.cancelled && !root.Cancelled? {
        cs := cs.(running := false, stopping := false);
      }
      captures := captures[r.name := cs];
    }
  }
}
