/** Stop calls that overlap: from any state of a disciplined run, exactly which of them are safe.
    Both guards of `Disciplined` are covered - a StopCapture beside another stop call, and a
    StopInterface that marks a session while a StopCapture waits - for any state of the root
    context. */
module CaptureOverlap {
  import opened CaptureLifecycle

  /** No continuation of this call that keeps the discipline from then on is unsafe. */
  ghost predicate SafeAfter(s: State, e: Event)
    requires Enabled(s, e)
  {
    forall s' :: Reaches(Apply(s, e), s') ==> Safe(s')
  }

  ghost predicate StopAllInFlight(s: State) {
    exists d :: d in s.calls && s.calls[d].StopAll?
  }

  /** The newest goroutine of the session is inside `Run`. */
  predicate NewestInRun(ss: Session) {
    |ss.runs| > 0 && ss.runs[|ss.runs| - 1].phase.InRun?
  }

  lemma IsOrderly(s: State, n: Name)
    requires Inv(s) && n in s.sessions
    ensures Orderly(s.sessions[n])
  {}

  // ---- Clearing under another call -------------------------------------------------------------

  /** A StopCapture whose runs are all cancelled can finish alone: it clears every session, and
      leaves all other runs as they are. */
  lemma CaptureCanEnd(s: State, c: nat) returns (s': State)
    requires c in s.calls && s.calls[c].StopAll?
    requires forall r <- s.calls[c].waits :: ValidRun(s, r) && s.sessions[r.name].runs[r.index].cancelled
    ensures Reaches(s, s') && s'.root == s.root && s'.calls == s.calls - {c}
    ensures OnlyCleared(s, s', s.calls[c].waits)
  {
    var waits := s.calls[c].waits;
    var s1 := WaitsCanClose(s, waits);
    s' := Apply(s1, StopCaptureEnd(c));
    ReachesStep(s1, StopCaptureEnd(c));
    ReachesTrans(s, s1, s');
  }

  ghost predicate OnlyCleared(s: State, s': State, waits: set<RunId>) {
    && s'.sessions.Keys == s.sessions.Keys
    && forall n <- s.sessions ::
         var a, b := s.sessions[n], s'.sessions[n];
         && b.running == a.running && !b.stopping && |b.runs| == |a.runs|
         && forall i | 0 <= i < |a.runs| ::
              b.runs[i].cancelled == a.runs[i].cancelled && (RunId(n, i) !in waits ==> b.runs[i] == a.runs[i])
  }

  /** A session that a finished clear leaves at rest with a goroutine inside `Run` is unsafe. */
  lemma ClearedInRun(s: State, s': State, waits: set<RunId>, n: Name)
    requires OnlyCleared(s, s', waits) && n in s.sessions && NewestInRun(s.sessions[n]) && !s.sessions[n].running
    requires RunId(n, |s.sessions[n].runs| - 1) !in waits
    ensures !Safe(s')
  {
    var last := |s.sessions[n].runs| - 1;
    assert s'.sessions[n].runs[last] == s.sessions[n].runs[last];
    assert !SafeSession(s'.sessions[n]);
  }

  /** Begun while a session is stopping for another call, a StopCapture can finish alone and clear
      that session's flag. */
  lemma StopCaptureClearsAnother(s: State, c: nat, n: Name) returns (s': State)
    requires Inv(s) && c !in s.calls && n in s.sessions && s.sessions[n].stopping
    ensures Reaches(Apply(s, StopCaptureBegin(c)), s')
    ensures s'.root == s.root && s'.calls == s.calls && n in s'.sessions
    ensures s'.sessions[n] == s.sessions[n].(stopping := false)
  {
    hide Apply, Reaches, OwnersMatch;
    IsOrderly(s, n);
    StopCaptureMarks(s, c);
    var s1 := Apply(s, StopCaptureBegin(c));
    forall r | r in Waits(s)
      ensures ValidRun(s1, r) && s1.sessions[r.name].runs[r.index].cancelled && r.name != n
    {
      IsOrderly(s, r.name);
    }
    s' := CaptureCanEnd(s1, c);
    assert s'.sessions[n].runs == s1.sessions[n].runs;
    assert s.calls[c := StopAll(Waits(s))] - {c} == s.calls;
  }

  lemma OpenIfNotCancelled(s: State)
    requires !s.root.Cancelled?
    ensures Reaches(s, s.(root := Open))
  {
    if s.root.Unset? { ReachesStep(s, OpenRoot); } else { ReachesRefl(s); }
  }

  /** A session restarted while the old call `d` has yet to clear its flag: the next stop of
      the session is cleared by `d`, with the new goroutine still inside `Run`. */
  lemma LateClearReachesUnsafe(s: State, c: nat, d: nat, n: Name) returns (u: State)
    requires s.root.Open? && c !in s.calls && n in s.sessions && |s.sessions[n].runs| > 0
    requires !s.sessions[n].running && !s.sessions[n].stopping
    requires forall e <- s.calls :: !s.calls[e].StopAll?
    requires d in s.calls && s.calls[d] == StopOne(Current(s, n)) && DoneClosed(s, Current(s, n))
    ensures Reaches(s, u) && !Safe(u)
  {
    var newest := |s.sessions[n].runs|;
    var s1 := Apply(s, StartInterface(n));
    ReachesStep(s, StartInterface(n));
    var s2 := Apply(s1, StopInterfaceBegin(c, n));
    ReachesStep(s1, StopInterfaceBegin(c, n));
    assert s2.sessions[n].runs[newest].phase.InRun?;
    assert s2.calls[d] == s.calls[d] && DoneClosed(s2, Current(s, n));
    u := Apply(s2, StopInterfaceEnd(d));
    ReachesStep(s2, StopInterfaceEnd(d));
    ReachesTrans(s, s1, s2);
    ReachesTrans(s, s2, u);
    assert u.sessions[n].runs[newest].phase.InRun?;
    assert !SafeSession(u.sessions[n]);
  }

  /** The same from a session at rest whose cancelled run may still have to close. */
  lemma RestartReachesUnsafe(s: State, c: nat, d: nat, n: Name) returns (u: State)
    requires !s.root.Cancelled? && c !in s.calls && n in s.sessions && |s.sessions[n].runs| > 0
    requires !s.sessions[n].running && !s.sessions[n].stopping
    requires s.sessions[n].runs[|s.sessions[n].runs| - 1].cancelled
    requires forall e <- s.calls :: !s.calls[e].StopAll?
    requires d in s.calls && s.calls[d] == StopOne(Current(s, n))
    ensures Reaches(s, u) && !Safe(u)
  {
    var s1 := s.(root := Open);
    OpenIfNotCancelled(s);
    var r := Current(s, n);
    RunCanClose(s1, r);
    var s2 := SetPhase(s1, r, Closed);
    u := LateClearReachesUnsafe(s2, c, d, n);
    ReachesTrans(s, s1, s2);
    ReachesTrans(s, s2, u);
  }

  // ---- Why a StopCapture is unsafe ----------------------------------------------------------------

  /** A session stopping for another call, with its goroutine inside `Run`. */
  lemma StoppingInRunIsUnsafe(s: State, c: nat, n: Name) returns (u: State)
    requires Inv(s) && c !in s.calls && n in s.sessions && s.sessions[n].stopping && NewestInRun(s.sessions[n])
    ensures Reaches(Apply(s, StopCaptureBegin(c)), u) && !Safe(u)
  {
    assert Orderly(s.sessions[n]);
    u := StopCaptureClearsAnother(s, c, n);
    assert !SafeSession(u.sessions[n]);
  }

  /** A session stopping for a StopInterface, which can be restarted after the clear. */
  lemma StoppingRestartIsUnsafe(s: State, c: nat, n: Name) returns (u: State)
    requires Inv(s) && !StopAllInFlight(s) && !s.root.Cancelled?
    requires c !in s.calls && n in s.sessions && s.sessions[n].stopping
    ensures Reaches(Apply(s, StopCaptureBegin(c)), u) && !Safe(u)
  {
    assert Orderly(s.sessions[n]);
    var d :| d in s.calls && Current(s, n) in Owned(s.calls[d]);
    var s1 := Apply(s, StopCaptureBegin(c));
    var s2 := StopCaptureClearsAnother(s, c, n);
    u := RestartReachesUnsafe(s2, c, d, n);
    ReachesTrans(s1, s2, u);
  }

  /** What a waiting StopCapture of a disciplined run waits for is cancelled. */
  lemma WaitedIsCancelled(s: State, d: nat)
    requires Inv(s) && d in s.calls && s.calls[d].StopAll?
    ensures forall r <- s.calls[d].waits ::
              ValidRun(s, r) && s.sessions[r.name].runs[r.index].cancelled
              && s.sessions[r.name].stopping && r == Current(s, r.name)
  {
    forall r | r in s.calls[d].waits
      ensures ValidRun(s, r) && s.sessions[r.name].runs[r.index].cancelled
              && s.sessions[r.name].stopping && r == Current(s, r.name)
    {
      assert r in Owned(s.calls[d]);
      assert Orderly(s.sessions[r.name]);
    }
  }

  /** A session that the new call marks while another StopCapture waits: that one clears it. */
  lemma RunningUnderStopAllIsUnsafe(s: State, c: nat, d: nat, n: Name) returns (u: State)
    requires Inv(s) && d in s.calls && s.calls[d].StopAll? && c !in s.calls
    requires n in s.sessions && s.sessions[n].running && NewestInRun(s.sessions[n])
    ensures Reaches(Apply(s, StopCaptureBegin(c)), u) && !Safe(u)
  {
    hide Apply, Reaches, Safe, Waits, OnlyCleared;
    WaitedIsCancelled(s, d);
    IsOrderly(s, n);
    StopCaptureMarks(s, c);
    var s1 := Apply(s, StopCaptureBegin(c));
    u := CaptureCanEnd(s1, d);
    ClearedInRun(s1, u, s.calls[d].waits, n);
  }

  // ---- Why it is safe: two StopCaptures, no goroutine inside Run to lose --------------------------

  ghost predicate Waited(s: State, r: RunId) {
    exists c :: c in s.calls && s.calls[c].StopAll? && r in s.calls[c].waits
  }

  /** Flags and cancellation agree, and a goroutine inside `Run` is the newest of a running session. */
  ghost predicate Settling(ss: Session) {
    && !(ss.running && ss.stopping)
    && (ss.running || ss.stopping ==> |ss.runs| > 0)
    && (|ss.runs| > 0 ==>
          var last := ss.runs[|ss.runs| - 1]; (ss.running ==> !last.cancelled) && (ss.stopping ==> last.cancelled))
    && forall i | 0 <= i < |ss.runs| && ss.runs[i].phase.InRun? :: i + 1 == |ss.runs| && ss.running
  }

  /** StopCaptures alone are in flight, and every other goroutine that has not settled is waited for. */
  ghost predicate Draining(s: State) {
    && StopAllInFlight(s) && (forall c <- s.calls :: !s.calls[c].StopOne?)
    && (forall n <- s.sessions :: Settling(s.sessions[n]))
    && forall n, i | n in s.sessions && 0 <= i < |s.sessions[n].runs| && s.sessions[n].runs[i].phase.Returned? ::
         (i + 1 == |s.sessions[n].runs| && s.sessions[n].running) || Waited(s, RunId(n, i))
  }

  lemma OverlapSettles(s: State, c: nat, n: Name)
    requires Inv(s) && c !in s.calls && n in s.sessions && !NewestInRun(s.sessions[n])
    ensures var s' := Apply(s, StopCaptureBegin(c)); n in s'.sessions && Settling(s'.sessions[n])
  {
    IsOrderly(s, n);
  }

  lemma OverlapWaits(s: State, c: nat, n: Name, i: nat)
    requires Inv(s) && c !in s.calls && n in s.sessions && i < |s.sessions[n].runs|
    requires forall k <- s.calls :: !s.calls[k].StopOne?
    requires var s' := Apply(s, StopCaptureBegin(c));
             n in s'.sessions && |s'.sessions[n].runs| == |s.sessions[n].runs| && s'.sessions[n].runs[i].phase.Returned?
    ensures Waited(Apply(s, StopCaptureBegin(c)), RunId(n, i))
  {
    var s' := Apply(s, StopCaptureBegin(c));
    IsOrderly(s, n);
    var r := RunId(n, i);
    assert r == Current(s, n);
    assert c in s'.calls && s'.calls[c] == StopAll(Waits(s));
    if s.sessions[n].running {
      assert r in Waits(s);
    } else {
      var k :| k in s.calls && r in Owned(s.calls[k]);
      assert k in s'.calls && s'.calls[k] == s.calls[k];
    }
  }

  lemma OverlapDrains(s: State, c: nat)
    requires Inv(s) && StopAllInFlight(s) && c !in s.calls
    requires forall n <- s.sessions :: !NewestInRun(s.sessions[n])
    ensures Draining(Apply(s, StopCaptureBegin(c)))
  {
    hide Apply, Settling, Waited, Inv;
    var s' := Apply(s, StopCaptureBegin(c));
    StopCaptureMarks(s, c);
    var d :| d in s.calls && s.calls[d].StopAll?;
    OnlyStopAll(s);
    assert d in s'.calls;
    forall n | n in s'.sessions ensures Settling(s'.sessions[n]) { OverlapSettles(s, c, n); }
    forall n, i | n in s'.sessions && 0 <= i < |s'.sessions[n].runs| && s'.sessions[n].runs[i].phase.Returned?
      ensures Waited(s', RunId(n, i))
    {
      OverlapWaits(s, c, n, i);
    }
  }

  lemma OnlyStopAll(s: State)
    requires Inv(s) && StopAllInFlight(s)
    ensures forall k <- s.calls :: !s.calls[k].StopOne?
  {}

  lemma DrainingEnds(s: State, e: Event)
    requires Draining(s) && e.StopCaptureEnd? && Enabled(s, e)
    ensures Draining(Apply(s, e)) || Inv(Apply(s, e))
  {
    var s' := Apply(s, e);
    forall n, i | n in s'.sessions && 0 <= i < |s'.sessions[n].runs| && s'.sessions[n].runs[i].phase.Returned?
      ensures (i + 1 == |s'.sessions[n].runs| && s'.sessions[n].running) || Waited(s', RunId(n, i))
    {
      if !(i + 1 == |s.sessions[n].runs| && s.sessions[n].running) {
        var c :| c in s.calls && s.calls[c].StopAll? && RunId(n, i) in s.calls[c].waits;
        assert c == e.call ==> DoneClosed(s, RunId(n, i));
        assert c in s'.calls && s'.calls[c] == s.calls[c];
      }
    }
    if !StopAllInFlight(s') {
      forall n | n in s'.sessions ensures Orderly(s'.sessions[n]) { assert Settling(s.sessions[n]); }
    }
  }

  /** A goroutine that is back from `Run` is the newest of a running session, or waited for. */
  ghost predicate Drained(s: State, n: Name, i: nat)
    requires n in s.sessions && i < |s.sessions[n].runs|
  {
    s.sessions[n].runs[i].phase.Returned? ==>
      (i + 1 == |s.sessions[n].runs| && s.sessions[n].running) || Waited(s, RunId(n, i))
  }

  lemma DrainingParts(s: State, n: Name)
    requires Draining(s) && n in s.sessions
    ensures Settling(s.sessions[n]) && forall i | 0 <= i < |s.sessions[n].runs| :: Drained(s, n, i)
  {
    hide Settling, Waited;
  }

  lemma DrainingWhole(s: State)
    requires StopAllInFlight(s) && forall c <- s.calls :: !s.calls[c].StopOne?
    requires forall n <- s.sessions :: Settling(s.sessions[n])
    requires forall n <- s.sessions :: forall i | 0 <= i < |s.sessions[n].runs| :: Drained(s, n, i)
    ensures Draining(s)
  {
    hide Settling, Waited, StopAllInFlight;
    forall n, i | n in s.sessions && 0 <= i < |s.sessions[n].runs| && s.sessions[n].runs[i].phase.Returned?
      ensures (i + 1 == |s.sessions[n].runs| && s.sessions[n].running) || Waited(s, RunId(n, i))
    {
      assert Drained(s, n, i);
    }
  }

  lemma SameCalls(s: State, s': State)
    requires forall c <- s.calls :: s.calls[c].StopAll? ==> c in s'.calls && s'.calls[c] == s.calls[c]
    ensures StopAllInFlight(s) ==> StopAllInFlight(s')
    ensures forall r :: Waited(s, r) ==> Waited(s', r)
  {
    forall r | Waited(s, r) ensures Waited(s', r) {
      var c :| c in s.calls && s.calls[c].StopAll? && r in s.calls[c].waits;
      assert c in s'.calls && s'.calls[c] == s.calls[c];
    }
  }

  lemma MoveSettles(s: State, e: Event, n: Name)
    requires Enabled(s, e) && (e.RunReturns? || e.RunSettles? || e.RunCloses?)
    requires n in s.sessions && Settling(s.sessions[n]) && forall i | 0 <= i < |s.sessions[n].runs| :: Drained(s, n, i)
    ensures var s' := Apply(s, e);
            && s'.calls == s.calls && n in s'.sessions && Settling(s'.sessions[n])
            && (forall r :: Waited(s, r) ==> Waited(s', r))
            && forall i | 0 <= i < |s'.sessions[n].runs| :: Drained(s', n, i)
  {
    hide Waited;
    var s' := Apply(s, e);
    SameCalls(s, s');
    forall i | 0 <= i < |s'.sessions[n].runs| ensures Drained(s', n, i) {
      assert Drained(s, n, i);
    }
  }

  lemma DrainingMoves(s: State, e: Event)
    requires Draining(s) && Enabled(s, e) && (e.RunReturns? || e.RunSettles? || e.RunCloses?)
    ensures Draining(Apply(s, e))
  {
    hide Apply, Enabled, Settling, Drained, Waited;
    var s' := Apply(s, e);
    SameNames(s, e);
    MoveKeepsCalls(s, e);
    SameCalls(s, s');
    forall n | n in s'.sessions
      ensures Settling(s'.sessions[n]) && forall i | 0 <= i < |s'.sessions[n].runs| :: Drained(s', n, i)
    {
      DrainingParts(s, n);
      MoveSettles(s, e, n);
    }
    DrainingWhole(s');
  }

  lemma MoveKeepsCalls(s: State, e: Event)
    requires Enabled(s, e) && (e.RunReturns? || e.RunSettles? || e.RunCloses?)
    ensures Apply(s, e).calls == s.calls
  {}

  /** The other steps, one session at a time: it is as it was, or started. */
  lemma GoesOnSession(s: State, e: Event, n: Name)
    requires Draining(s) && Enabled(s, e) && Disciplined(s, e)
    requires !e.StopCaptureEnd? && !e.RunReturns? && !e.RunSettles? && !e.RunCloses?
    requires n in s.sessions && n in Apply(s, e).sessions
    ensures Apply(s, e).sessions[n] == s.sessions[n]
            || (Apply(s, e).sessions[n] == Started(s.sessions[n]) && !s.sessions[n].running && !s.sessions[n].stopping)
  {
    hide Settling, Waited;
    StopAllExcludes(s, e);
  }

  lemma StopAllExcludes(s: State, e: Event)
    requires StopAllInFlight(s) && Disciplined(s, e)
    ensures !e.StopCaptureBegin?
    ensures e.StopInterfaceBegin? ==> e.name !in s.sessions || !s.sessions[e.name].running
  {}

  lemma GoesOnCalls(s: State, e: Event)
    requires Draining(s) && Enabled(s, e) && Disciplined(s, e)
    requires !e.StopCaptureEnd? && !e.RunReturns? && !e.RunSettles? && !e.RunCloses?
    ensures forall c <- s.calls :: s.calls[c].StopAll? ==> c in Apply(s, e).calls && Apply(s, e).calls[c] == s.calls[c]
    ensures forall c <- Apply(s, e).calls :: !Apply(s, e).calls[c].StopOne?
  {
    hide Settling, Waited;
    StopAllExcludes(s, e);
  }

  lemma StartedSettles(s: State, s': State, n: Name)
    requires n in s.sessions && n in s'.sessions
    requires Settling(s.sessions[n]) && forall i | 0 <= i < |s.sessions[n].runs| :: Drained(s, n, i)
    requires forall r :: Waited(s, r) ==> Waited(s', r)
    requires s'.sessions[n] == s.sessions[n]
             || (s'.sessions[n] == Started(s.sessions[n]) && !s.sessions[n].running && !s.sessions[n].stopping)
    ensures Settling(s'.sessions[n]) && forall i | 0 <= i < |s'.sessions[n].runs| :: Drained(s', n, i)
  {
    hide Waited;
    forall i | 0 <= i < |s'.sessions[n].runs| ensures Drained(s', n, i) {
      if i < |s.sessions[n].runs| { assert Drained(s, n, i); }
    }
  }

  lemma DrainingGoesOn(s: State, e: Event)
    requires Draining(s) && Enabled(s, e) && Disciplined(s, e)
    requires !e.StopCaptureEnd? && !e.RunReturns? && !e.RunSettles? && !e.RunCloses?
    ensures Draining(Apply(s, e))
  {
    hide Apply, Enabled, Disciplined, Settling, Drained, Waited;
    var s' := Apply(s, e);
    SameNames(s, e);
    GoesOnCalls(s, e);
    SameCalls(s, s');
    forall n | n in s'.sessions
      ensures Settling(s'.sessions[n]) && forall i | 0 <= i < |s'.sessions[n].runs| :: Drained(s', n, i)
    {
      DrainingParts(s, n);
      GoesOnSession(s, e, n);
      StartedSettles(s, s', n);
    }
    DrainingWhole(s');
  }

  // ---- Why it is safe: nothing can start any more ---------------------------------------------------

  /** Whoever clears waited for the goroutine. */
  ghost predicate AllWaitFor(s: State, n: Name)
    requires n in s.sessions
  {
    && (forall c <- s.calls :: s.calls[c].StopAll? ==> Current(s, n) in s.calls[c].waits)
    && exists c :: c in s.calls && Current(s, n) in Owned(s.calls[c])
  }

  /** The root context is cancelled, every waiting call waits for the newest runs, and a goroutine
      inside `Run` of a stopping session is waited for by every call that could clear it. */
  ghost predicate Quiet(s: State) {
    && s.root.Cancelled?
    && (forall n <- s.sessions :: QuietSession(s.sessions[n]))
    && (forall c <- s.calls :: s.calls[c].StopOne? ==>
          s.calls[c].run.name in s.sessions && s.calls[c].run == Current(s, s.calls[c].run.name))
    && (forall n <- s.sessions :: s.sessions[n].stopping && NewestInRun(s.sessions[n]) ==> AllWaitFor(s, n))
  }

  ghost predicate QuietSession(ss: Session) {
    && !(ss.running && ss.stopping)
    && (ss.running || ss.stopping ==> |ss.runs| > 0)
    && (|ss.runs| > 0 ==>
          var last := ss.runs[|ss.runs| - 1]; (ss.running ==> !last.cancelled) && (ss.stopping ==> last.cancelled))
    && SafeSession(ss)
  }

  lemma QuietIsSafe(s: State)
    requires Quiet(s)
    ensures Safe(s)
  {}

  /** A new StopCapture waits for every goroutine that it can lose. */
  lemma QuietBegin(s: State, c: nat)
    requires Quiet(s) && c !in s.calls && forall d <- s.calls :: s.calls[d].Join?
    ensures Quiet(Apply(s, StopCaptureBegin(c)))
  {
    var s' := Apply(s, StopCaptureBegin(c));
    assert s'.calls[c] == StopAll(Waits(s));
    forall n | n in s'.sessions
      ensures QuietSession(s'.sessions[n])
      ensures s'.sessions[n].stopping && NewestInRun(s'.sessions[n]) ==> Current(s', n) in Waits(s)
    {
      assert QuietSession(s.sessions[n]);
    }
  }

  lemma QuietParts(s: State, n: Name)
    requires Quiet(s) && n in s.sessions
    ensures QuietSession(s.sessions[n])
    ensures s.sessions[n].stopping && NewestInRun(s.sessions[n]) ==> AllWaitFor(s, n)
  {}

  lemma QuietEndAll(s: State, c: nat)
    requires Quiet(s) && Enabled(s, StopCaptureEnd(c))
    ensures Quiet(Apply(s, StopCaptureEnd(c)))
  {
    var s' := Apply(s, StopCaptureEnd(c));
    forall n | n in s'.sessions ensures QuietSession(s'.sessions[n]) {
      QuietParts(s, n);
      if s.sessions[n].stopping && NewestInRun(s.sessions[n]) { assert DoneClosed(s, Current(s, n)); }
    }
  }

  lemma QuietEndOne(s: State, c: nat)
    requires Quiet(s) && Enabled(s, StopInterfaceEnd(c))
    ensures Quiet(Apply(s, StopInterfaceEnd(c)))
  {
    var s' := Apply(s, StopInterfaceEnd(c));
    forall n | n in s'.sessions
      ensures QuietSession(s'.sessions[n])
      ensures s'.sessions[n].stopping && NewestInRun(s'.sessions[n]) ==> AllWaitFor(s', n)
    {
      QuietParts(s, n);
      if s'.sessions[n].stopping && NewestInRun(s'.sessions[n]) {
        var k :| k in s.calls && Current(s, n) in Owned(s.calls[k]);
        assert k != c;
        assert k in s'.calls && s'.calls[k] == s.calls[k];
      }
    }
  }

  lemma QuietMark(s: State, c: nat, m: Name)
    requires Quiet(s) && Enabled(s, StopInterfaceBegin(c, m)) && Disciplined(s, StopInterfaceBegin(c, m))
    ensures Quiet(Apply(s, StopInterfaceBegin(c, m)))
  {
    var s' := Apply(s, StopInterfaceBegin(c, m));
    forall n | n in s'.sessions
      ensures QuietSession(s'.sessions[n])
      ensures s'.sessions[n].stopping && NewestInRun(s'.sessions[n]) ==> AllWaitFor(s', n)
    {
      QuietParts(s, n);
      if s'.sessions[n].stopping && NewestInRun(s'.sessions[n]) {
        if s.sessions[n].stopping {
          var k :| k in s.calls && Current(s, n) in Owned(s.calls[k]);
          assert k in s'.calls && s'.calls[k] == s.calls[k];
        } else {
          assert Current(s', n) in Owned(s'.calls[c]);
        }
      }
    }
  }

  lemma MovesKeepCalls(s: State, e: Event)
    requires Enabled(s, e) && (e.RunReturns? || e.RunSettles? || e.RunCloses?)
    ensures var s' := Apply(s, e); s'.calls == s.calls && s'.root == s.root && s'.sessions.Keys == s.sessions.Keys
    ensures forall n <- s.sessions :: |Apply(s, e).sessions[n].runs| == |s.sessions[n].runs|
  {}

  lemma QuietMovesAt(s: State, e: Event, n: Name)
    requires Enabled(s, e) && (e.RunReturns? || e.RunSettles? || e.RunCloses?) && n in s.sessions
    requires QuietSession(s.sessions[n])
    ensures var s' := Apply(s, e);
            && n in s'.sessions && QuietSession(s'.sessions[n])
            && (s'.sessions[n].stopping && NewestInRun(s'.sessions[n]) ==>
                 s.sessions[n].stopping && NewestInRun(s.sessions[n]))
  {}

  lemma QuietMoves(s: State, e: Event)
    requires Quiet(s) && Enabled(s, e) && (e.RunReturns? || e.RunSettles? || e.RunCloses?)
    ensures Quiet(Apply(s, e))
  {
    hide Apply, QuietSession, Enabled;
    var s' := Apply(s, e);
    MovesKeepCalls(s, e);
    forall n | n in s'.sessions
      ensures QuietSession(s'.sessions[n])
      ensures s'.sessions[n].stopping && NewestInRun(s'.sessions[n]) ==> AllWaitFor(s', n)
    {
      QuietParts(s, n);
      QuietMovesAt(s, e, n);
    }
  }

  /** Under a cancelled root nothing starts. */
  lemma QuietStarts(s: State, e: Event)
    requires Quiet(s) && Enabled(s, e) && (e.OpenRoot? || e.CancelRoot? || e.StartCapture? || e.StartInterface?)
    ensures Quiet(Apply(s, e))
  {
    if e.StartCapture? {
      assert e.started == {};
      assert (map n | n in s.sessions :: s.sessions[n]) == s.sessions;
      assert Apply(s, e) == s;
    }
  }

  lemma QuietStep(s: State, e: Event)
    requires Quiet(s) && Enabled(s, e) && Disciplined(s, e)
    ensures Quiet(Apply(s, e))
  {
    hide Quiet, Apply;
    match e
    case StopCaptureBegin(c) => QuietBegin(s, c);
    case StopCaptureEnd(c) => QuietEndAll(s, c);
    case StopInterfaceBegin(c, m) => QuietMark(s, c, m);
    case StopInterfaceEnd(c) => QuietEndOne(s, c);
    case RunReturns(_) => QuietMoves(s, e);
    case RunSettles(_) => QuietMoves(s, e);
    case RunCloses(_) => QuietMoves(s, e);
    case _ => QuietStarts(s, e);
  }

  /** The two ways a call under a cancelled root is quiet. */
  lemma CancelledCaptureIsQuiet(s: State, c: nat)
    requires Inv(s) && s.root.Cancelled? && !StopAllInFlight(s) && c !in s.calls
    requires forall n <- s.sessions :: s.sessions[n].stopping ==> !NewestInRun(s.sessions[n])
    ensures Quiet(Apply(s, StopCaptureBegin(c)))
  {
    var s' := Apply(s, StopCaptureBegin(c));
    assert s'.calls[c] == StopAll(Waits(s));
    forall n | n in s'.sessions
      ensures QuietSession(s'.sessions[n])
      ensures s'.sessions[n].stopping && NewestInRun(s'.sessions[n]) ==> Current(s', n) in Waits(s)
    {
      assert Orderly(s.sessions[n]);
    }
    forall d | d in s'.calls && s'.calls[d].StopOne?
      ensures s'.calls[d].run.name in s'.sessions && s'.calls[d].run == Current(s', s'.calls[d].run.name)
    {
      assert s.calls[d].run in Owned(s.calls[d]);
    }
  }

  lemma OnlyStopAllClears(s: State, d: nat)
    requires Inv(s) && d in s.calls && s.calls[d].StopAll?
    ensures forall k <- s.calls :: k == d || s.calls[k].Join?
  {
    forall k | k in s.calls ensures k == d || s.calls[k].Join? { assert Clears(s.calls[k]) ==> k == d; }
  }

  lemma CancelledInterfaceIsQuiet(s: State, c: nat, n: Name)
    requires Inv(s) && s.root.Cancelled? && StopAllInFlight(s) && c !in s.calls
    requires n in s.sessions && s.sessions[n].running && !NewestInRun(s.sessions[n])
    ensures Quiet(Apply(s, StopInterfaceBegin(c, n)))
  {
    hide Apply, Inv, AllWaitFor, Orderly;
    RunningFacts(s, n);
    StopInterfaceMarks(s, c, n);
    var s' := Apply(s, StopInterfaceBegin(c, n));
    var d :| d in s.calls && s.calls[d].StopAll?;
    OnlyStopAllClears(s, d);
    forall m | m in s'.sessions
      ensures QuietSession(s'.sessions[m])
      ensures s'.sessions[m].stopping && NewestInRun(s'.sessions[m]) ==> AllWaitFor(s', m)
    {
      OrderlyIsQuiet(s, m);
      if m != n && s.sessions[m].stopping { WaitersStay(s, s', c, d, m); }
    }
  }

  lemma RunningFacts(s: State, n: Name)
    requires Inv(s) && n in s.sessions && s.sessions[n].running
    ensures !s.sessions[n].stopping && |s.sessions[n].runs| > 0
  {
    IsOrderly(s, n);
  }

  lemma OrderlyIsQuiet(s: State, n: Name)
    requires Inv(s) && n in s.sessions
    ensures QuietSession(s.sessions[n])
    ensures s.sessions[n].running ==> QuietSession(Stopped(s.sessions[n]))
  {
    IsOrderly(s, n);
  }

  lemma WaitersStay(s: State, s': State, c: nat, d: nat, m: Name)
    requires Inv(s) && m in s.sessions && s.sessions[m].stopping && m in s'.sessions && Current(s', m) == Current(s, m)
    requires d in s.calls && s.calls[d].StopAll? && c !in s.calls
    requires exists r :: s'.calls == s.calls[c := StopOne(r)]
    ensures AllWaitFor(s', m)
  {
    OnlyStopAllClears(s, d);
    var k :| k in s.calls && Current(s, m) in Owned(s.calls[k]);
    assert k == d && s'.calls[k] == s.calls[k];
  }

  // ---- Runs from states that are safe --------------------------------------------------------------

  /** One of the three invariants holds. */
  ghost predicate Settled(s: State) { Inv(s) || Draining(s) || Quiet(s) }

  lemma DrainingStep(s: State, e: Event)
    requires Draining(s) && Enabled(s, e) && Disciplined(s, e)
    ensures Draining(Apply(s, e)) || Inv(Apply(s, e))
  {
    hide Draining, Inv, Apply;
    if e.StopCaptureEnd? {
      DrainingEnds(s, e);
    } else if e.RunReturns? || e.RunSettles? || e.RunCloses? {
      DrainingMoves(s, e);
    } else {
      DrainingGoesOn(s, e);
    }
  }

  lemma DrainingIsSafe(s: State)
    requires Draining(s)
    ensures Safe(s)
  {
    forall n | n in s.sessions ensures SafeSession(s.sessions[n]) { assert Settling(s.sessions[n]); }
  }

  lemma {:induction false} SettledStaysSafe(s: State, es: seq<Event>)
    requires Settled(s) && Legal(s, es) && DisciplinedRun(s, es)
    ensures Safe(Exec(s, es))
    decreases |es|
  {
    hide Inv, Draining, Quiet, Apply, Enabled, Disciplined, Safe;
    if es == [] {
      if Inv(s) { InvIsSafe(s); } else if Draining(s) { DrainingIsSafe(s); } else { QuietIsSafe(s); }
    } else {
      if Inv(s) { StepKeepsInv(s, es[0]); } else if Draining(s) { DrainingStep(s, es[0]); } else { QuietStep(s, es[0]); }
      SettledStaysSafe(Apply(s, es[0]), es[1..]);
    }
  }

  lemma SettledIsSafeAfter(s: State, e: Event)
    requires Enabled(s, e) && Settled(Apply(s, e))
    ensures SafeAfter(s, e)
  {
    hide Settled, Apply, Safe;
    forall s' | Reaches(Apply(s, e), s') ensures Safe(s') {
      var es :| Legal(Apply(s, e), es) && DisciplinedRun(Apply(s, e), es) && Exec(Apply(s, e), es) == s';
      SettledStaysSafe(Apply(s, e), es);
    }
  }

  // ---- The exact conditions -------------------------------------------------------------------------

  /** What the flags, the goroutines and the calls in flight must show for a StopCapture. */
  ghost predicate MayStopCapture(s: State) {
    if StopAllInFlight(s) then forall n <- s.sessions :: !NewestInRun(s.sessions[n])
    else forall n <- s.sessions :: s.sessions[n].stopping ==> s.root.Cancelled? && !NewestInRun(s.sessions[n])
  }

  lemma AllowedCaptureSettles(s: State, c: nat)
    requires Inv(s) && c !in s.calls && MayStopCapture(s)
    ensures Settled(Apply(s, StopCaptureBegin(c)))
  {
    hide Inv, Draining, Quiet, Apply;
    if StopAllInFlight(s) {
      OverlapDrains(s, c);
    } else if s.root.Cancelled? {
      CancelledCaptureIsQuiet(s, c);
    } else {
      OnlyJoins(s);
      StepKeepsInv(s, StopCaptureBegin(c));
    }
  }

  lemma OwnerIsStopping(s: State, d: nat)
    requires Inv(s) && d in s.calls && s.calls[d].StopOne?
    ensures s.calls[d].run.name in s.sessions && s.sessions[s.calls[d].run.name].stopping
  {
    assert s.calls[d].run in Owned(s.calls[d]);
  }

  lemma OnlyJoins(s: State)
    requires Inv(s) && !StopAllInFlight(s) && forall n <- s.sessions :: !s.sessions[n].stopping
    ensures forall d <- s.calls :: s.calls[d].Join?
  {
    forall d | d in s.calls ensures s.calls[d].Join? {
      assert !s.calls[d].StopAll?;
      if s.calls[d].StopOne? { OwnerIsStopping(s, d); }
    }
  }

  /** Exactly when a StopCapture is safe to begin, in any state of a disciplined run: with none in
      flight, if and only if no session is stopping - or the root context is cancelled and the
      stopping sessions' goroutines have left `Run`; with one in flight, if and only if no session
      has its newest goroutine inside `Run`. */
  lemma StopCaptureSafeIff(s: State, c: nat)
    requires Inv(s) && c !in s.calls
    ensures SafeAfter(s, StopCaptureBegin(c)) <==> MayStopCapture(s)
  {
    hide Inv, Apply, Settled, Reaches, Safe, NewestInRun;
    if MayStopCapture(s) {
      AllowedCaptureSettles(s, c);
      SettledIsSafeAfter(s, StopCaptureBegin(c));
    } else if StopAllInFlight(s) {
      var n :| n in s.sessions && NewestInRun(s.sessions[n]);
      var d :| d in s.calls && s.calls[d].StopAll?;
      InRunIsActive(s, n);
      if s.sessions[n].running {
        var u := RunningUnderStopAllIsUnsafe(s, c, d, n);
      } else {
        var u := StoppingInRunIsUnsafe(s, c, n);
      }
    } else {
      var n :| n in s.sessions && s.sessions[n].stopping && !(s.root.Cancelled? && !NewestInRun(s.sessions[n]));
      if NewestInRun(s.sessions[n]) {
        var u := StoppingInRunIsUnsafe(s, c, n);
      } else {
        var u := StoppingRestartIsUnsafe(s, c, n);
      }
    }
  }

  lemma InRunIsActive(s: State, n: Name)
    requires Inv(s) && n in s.sessions && NewestInRun(s.sessions[n])
    ensures s.sessions[n].running || s.sessions[n].stopping
  {
    IsOrderly(s, n);
  }

  /** What they must show for a StopInterface. */
  ghost predicate MayStopInterface(s: State, n: Name) {
    n in s.sessions && s.sessions[n].running && StopAllInFlight(s) ==>
      s.root.Cancelled? && !NewestInRun(s.sessions[n])
  }

  /** The session a StopInterface marks while a StopCapture waits: that one clears the flag. */
  lemma MarkedInterface(s: State, c: nat, d: nat, n: Name) returns (s': State)
    requires Inv(s) && d in s.calls && s.calls[d].StopAll? && c !in s.calls && n in s.sessions && s.sessions[n].running
    ensures Reaches(Apply(s, StopInterfaceBegin(c, n)), s') && s'.root == s.root
    ensures s'.calls == s.calls[c := StopOne(Current(s, n))] - {d} && n in s'.sessions
    ensures s'.sessions[n] == Stopped(s.sessions[n]).(stopping := false)
    ensures forall k <- s'.calls :: !s'.calls[k].StopAll?
  {
    hide Apply, Reaches;
    WaitedIsCancelled(s, d);
    IsOrderly(s, n);
    StopInterfaceMarks(s, c, n);
    var s1 := Apply(s, StopInterfaceBegin(c, n));
    forall r | r in s.calls[d].waits
      ensures ValidRun(s1, r) && s1.sessions[r.name].runs[r.index].cancelled && r.name != n
    {}
    s' := CaptureCanEnd(s1, d);
    assert s'.sessions[n].runs == s1.sessions[n].runs;
  }

  lemma InterfaceUnderStopAllIsUnsafe(s: State, c: nat, d: nat, n: Name) returns (u: State)
    requires Inv(s) && d in s.calls && s.calls[d].StopAll? && c !in s.calls && n in s.sessions && s.sessions[n].running
    requires NewestInRun(s.sessions[n]) || !s.root.Cancelled?
    ensures Reaches(Apply(s, StopInterfaceBegin(c, n)), u) && !Safe(u)
  {
    hide Apply, Inv, Reaches;
    InRunOrNot(s, n);
    var s1 := MarkedInterface(s, c, d, n);
    if NewestInRun(s.sessions[n]) {
      assert s1.sessions[n].runs[|s.sessions[n].runs| - 1].phase.InRun?;
      assert !SafeSession(s1.sessions[n]);
      u := s1;
    } else {
      u := RestartReachesUnsafe(s1, d, c, n);
      ReachesTrans(Apply(s, StopInterfaceBegin(c, n)), s1, u);
    }
  }

  lemma InRunOrNot(s: State, n: Name)
    requires Inv(s) && n in s.sessions && s.sessions[n].running
    ensures |s.sessions[n].runs| > 0
  {
    IsOrderly(s, n);
  }

  /** Exactly when a StopInterface is safe to begin: if and only if the session is not running, or
      no StopCapture is in flight - or the root context is cancelled and its goroutine has left
      `Run`. */
  lemma StopInterfaceSafeIff(s: State, c: nat, n: Name)
    requires Inv(s) && c !in s.calls
    ensures SafeAfter(s, StopInterfaceBegin(c, n)) <==> MayStopInterface(s, n)
  {
    hide Inv, Apply, Reaches, Safe, NewestInRun, Draining, Quiet;
    if n in s.sessions && s.sessions[n].running && StopAllInFlight(s) {
      var d :| d in s.calls && s.calls[d].StopAll?;
      if s.root.Cancelled? && !NewestInRun(s.sessions[n]) {
        CancelledInterfaceIsQuiet(s, c, n);
        SettledIsSafeAfter(s, StopInterfaceBegin(c, n));
      } else {
        var u := InterfaceUnderStopAllIsUnsafe(s, c, d, n);
      }
    } else {
      StepKeepsInv(s, StopInterfaceBegin(c, n));
      SettledIsSafeAfter(s, StopInterfaceBegin(c, n));
    }
  }
}
