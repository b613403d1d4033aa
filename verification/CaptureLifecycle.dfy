/** The capture-session lifecycle: start and stop calls, the goroutines they launch, and the
    lock they share, as atomic steps that interleave freely.

    One step is one critical section of `lifecycleMu`, or one step a capture goroutine takes
    outside it. A stop call that releases the lock while it waits is two steps; the calls in
    between are kept in `State.calls`. */
module CaptureLifecycle {
  type Name = string

  /** Where the goroutine of one run is: inside `Run`, back from it, past its final critical
      section, or past closing its `done` channel. */
  datatype Phase = InRun | Returned | Settled | Closed

  /** `cancelled` is set by the stop call that cancels the run's own context. */
  datatype Run = Run(phase: Phase, cancelled: bool)

  /** Runs are numbered by generation, so the generation counter is `|runs|`. */
  datatype Session = Session(running: bool, stopping: bool, runs: seq<Run>)

  datatype RunId = RunId(name: Name, index: nat)

  /** A stop call that has released the lock: it waits for `done` channels, and then clears
      `stopping` everywhere (StopAll), on its own session (StopOne), or nowhere (Join). */
  datatype Call = StopAll(waits: set<RunId>) | StopOne(run: RunId) | Join(run: RunId)

  datatype Root = Unset | Open | Cancelled

  datatype State = State(root: Root, sessions: map<Name, Session>, calls: map<nat, Call>)

  datatype Event =
    | OpenRoot
    | CancelRoot
    | StartCapture(started: set<Name>)
    | StartInterface(name: Name)
    | StopCaptureBegin(call: nat)
    | StopCaptureEnd(call: nat)
    | StopInterfaceBegin(call: nat, name: Name)
    | StopInterfaceEnd(call: nat)
    | RunReturns(run: RunId)
    | RunSettles(run: RunId)
    | RunCloses(run: RunId)

  predicate ValidRun(s: State, r: RunId) {
    r.name in s.sessions && r.index < |s.sessions[r.name].runs|
  }

  predicate DoneClosed(s: State, r: RunId) {
    ValidRun(s, r) && s.sessions[r.name].runs[r.index].phase.Closed?
  }

  /** The sessions a StartCapture may have started: all idle ones; or, when some session is
      still stopping, any subset of them, since the map is ranged over in no fixed order and
      the call gives up at the first stopping session it meets. */
  ghost predicate StartableSet(s: State, started: set<Name>) {
    && (forall n <- started :: n in s.sessions && !s.sessions[n].running && !s.sessions[n].stopping)
    && (started != {} ==> s.root.Open?)
    && (s.root.Open? && (forall n <- s.sessions :: !s.sessions[n].stopping) ==>
          forall n <- s.sessions :: !s.sessions[n].running ==> n in started)
  }

  ghost predicate Enabled(s: State, e: Event) {
    match e
    case OpenRoot => s.root.Unset?
    case CancelRoot => s.root.Open?
    case StartCapture(started) => StartableSet(s, started)
    case StartInterface(_) => true
    case StopCaptureBegin(c) => c !in s.calls
    case StopCaptureEnd(c) =>
      c in s.calls && s.calls[c].StopAll? && forall r <- s.calls[c].waits :: DoneClosed(s, r)
    case StopInterfaceBegin(c, _) => c !in s.calls
    case StopInterfaceEnd(c) => c in s.calls && !s.calls[c].StopAll? && DoneClosed(s, s.calls[c].run)
    case RunReturns(r) => ValidRun(s, r) && s.sessions[r.name].runs[r.index].phase.InRun?
    case RunSettles(r) => ValidRun(s, r) && s.sessions[r.name].runs[r.index].phase.Returned?
    case RunCloses(r) => ValidRun(s, r) && s.sessions[r.name].runs[r.index].phase.Settled?
  }

  function Started(ss: Session): Session {
    Session(true, false, ss.runs + [Run(InRun, false)])
  }

  /** The stop calls' marking of a running session: the flags and the cancelled context. */
  function Stopped(ss: Session): Session {
    if |ss.runs| == 0 then ss.(running := false, stopping := true)
    else
      var last := |ss.runs| - 1;
      Session(false, true, ss.runs[last := ss.runs[last].(cancelled := true)])
  }

  function SetPhase(s: State, r: RunId, p: Phase): State
    requires ValidRun(s, r)
  {
    var ss := s.sessions[r.name];
    s.(sessions := s.sessions[r.name := ss.(runs := ss.runs[r.index := ss.runs[r.index].(phase := p)])])
  }

  /** The goroutine's final critical section: a run of the current generation whose context is
      still live puts its session to rest. */
  function Settle(s: State, r: RunId): State
    requires ValidRun(s, r)
  {
    var s' := SetPhase(s, r, Settled);
    var ss := s'.sessions[r.name];
    if r.index + 1 == |ss.runs| && !ss.runs[r.index].cancelled && !s.root.Cancelled? then
      s'.(sessions := s'.sessions[r.name := ss.(running := false, stopping := false)])
    else s'
  }

  function Current(s: State, n: Name): RunId
    requires n in s.sessions
  {
    RunId(n, if |s.sessions[n].runs| == 0 then 0 else |s.sessions[n].runs| - 1)
  }

  /** The `done` channels a StopCapture collects: one for each session it finds running. */
  function Waits(s: State): set<RunId> {
    set n | n in s.sessions && s.sessions[n].running && |s.sessions[n].runs| > 0 :: Current(s, n)
  }

  function StopInterfaceMark(s: State, c: nat, n: Name): State {
    if n !in s.sessions then s
    else
      var ss := s.sessions[n];
      if !ss.running && !ss.stopping then s
      else if ss.stopping then
        if |ss.runs| == 0 then s else s.(calls := s.calls[c := Join(Current(s, n))])
      else if |ss.runs| == 0 then s.(sessions := s.sessions[n := ss.(running := false)])
      else s.(sessions := s.sessions[n := Stopped(ss)], calls := s.calls[c := StopOne(Current(s, n))])
  }

  ghost function Apply(s: State, e: Event): State
    requires Enabled(s, e)
  {
    match e
    case OpenRoot => s.(root := Open)
    case CancelRoot => s.(root := Cancelled)
    case StartCapture(started) =>
      s.(sessions := map n | n in s.sessions :: if n in started then Started(s.sessions[n]) else s.sessions[n])
    case StartInterface(n) =>
      if s.root.Open? && n in s.sessions && !s.sessions[n].stopping && !s.sessions[n].running
      then s.(sessions := s.sessions[n := Started(s.sessions[n])]) else s
    case StopCaptureBegin(c) =>
      s.(sessions := map n | n in s.sessions :: if s.sessions[n].running then Stopped(s.sessions[n]) else s.sessions[n],
         calls := s.calls[c := StopAll(Waits(s))])
    case StopCaptureEnd(c) =>
      s.(sessions := map n | n in s.sessions :: s.sessions[n].(stopping := false), calls := s.calls - {c})
    case StopInterfaceBegin(c, n) => StopInterfaceMark(s, c, n)
    case StopInterfaceEnd(c) =>
      var call := s.calls[c];
      var n := call.run.name;
      if call.Join? then s.(calls := s.calls - {c})
      else s.(sessions := s.sessions[n := s.sessions[n].(stopping := false)], calls := s.calls - {c})
    case RunReturns(r) => SetPhase(s, r, Returned)
    case RunSettles(r) => Settle(s, r)
    case RunCloses(r) => SetPhase(s, r, Closed)
  }

  ghost predicate Legal(s: State, es: seq<Event>)
    decreases |es|
  {
    es == [] || (Enabled(s, es[0]) && Legal(Apply(s, es[0]), es[1..]))
  }

  ghost function Exec(s: State, es: seq<Event>): State
    requires Legal(s, es)
    decreases |es|
  {
    if es == [] then s else Exec(Apply(s, es[0]), es[1..])
  }

  ghost predicate Initial(s: State) {
    && s.root.Unset?
    && s.calls == map[]
    && forall n <- s.sessions :: s.sessions[n] == Session(false, false, [])
  }

  // ---- What safety means ---------------------------------------------------------------

  /** A goroutine inside `Run` belongs to the current generation of a session that is running
      or stopping. As generations are distinct, no interface has two goroutines inside `Run`. */
  ghost predicate SafeSession(ss: Session) {
    forall i | 0 <= i < |ss.runs| && ss.runs[i].phase.InRun? ::
      i + 1 == |ss.runs| && (ss.running || ss.stopping)
  }

  ghost predicate Safe(s: State) {
    forall n <- s.sessions :: SafeSession(s.sessions[n])
  }

  /** A stop call that will clear a `stopping` flag when it resumes. */
  predicate Clears(c: Call) { !c.Join? }

  /** No StopCapture overlaps another stop call that is going to clear a flag: it begins when
      none is in flight, and no StopInterface marks a session while one is in flight. */
  ghost predicate Disciplined(s: State, e: Event) {
    match e
    case StopCaptureBegin(_) => forall c <- s.calls :: s.calls[c].Join?
    case StopInterfaceBegin(_, n) =>
      n in s.sessions && s.sessions[n].running ==> forall c <- s.calls :: !s.calls[c].StopAll?
    case _ => true
  }

  ghost predicate DisciplinedRun(s: State, es: seq<Event>)
    requires Legal(s, es)
    decreases |es|
  {
    es == [] || (Disciplined(s, es[0]) && DisciplinedRun(Apply(s, es[0]), es[1..]))
  }

  // ---- The invariant of disciplined runs -------------------------------------------------

  ghost predicate Orderly(ss: Session) {
    && (forall i | 0 <= i < |ss.runs| - 1 :: ss.runs[i].phase.Settled? || ss.runs[i].phase.Closed?)
    && !(ss.running && ss.stopping)
    && (ss.running || ss.stopping ==> |ss.runs| > 0)
    && (|ss.runs| > 0 ==>
          var last := ss.runs[|ss.runs| - 1];
          && (last.phase.InRun? || last.phase.Returned? ==> ss.running || ss.stopping)
          && (ss.running ==> !last.cancelled)
          && (ss.stopping ==> last.cancelled))
  }

  /** The runs whose session a call is going to clear for having stopped it. */
  function Owned(c: Call): set<RunId> {
    match c
    case StopAll(waits) => waits
    case StopOne(r) => {r}
    case Join(_) => {}
  }

  ghost predicate OwnersMatch(s: State) {
    && (forall c <- s.calls, r <- Owned(s.calls[c]) ::
          r.name in s.sessions && s.sessions[r.name].stopping && r == Current(s, r.name))
    && (forall n <- s.sessions :: s.sessions[n].stopping ==>
          exists c :: c in s.calls && Current(s, n) in Owned(s.calls[c]))
    && (forall c <- s.calls, d <- s.calls, r | r in Owned(s.calls[c]) && r in Owned(s.calls[d]) :: c == d)
    && (forall c <- s.calls, d <- s.calls | s.calls[c].StopAll? && Clears(s.calls[d]) :: c == d)
  }

  ghost predicate Inv(s: State) {
    (forall n <- s.sessions :: Orderly(s.sessions[n])) && OwnersMatch(s)
  }

  lemma InvIsSafe(s: State)
    requires Inv(s)
    ensures Safe(s)
  {}

  lemma StartedIsOrderly(ss: Session)
    requires Orderly(ss) && !ss.running && !ss.stopping
    ensures Orderly(Started(ss))
  {}

  lemma StoppedIsOrderly(ss: Session)
    requires Orderly(ss) && ss.running
    ensures Orderly(Stopped(ss))
  {}

  lemma ClearedIsOrderly(ss: Session)
    requires Orderly(ss) && ss.stopping ==> |ss.runs| > 0 && ss.runs[|ss.runs| - 1].phase.Closed?
    requires Orderly(ss)
    ensures Orderly(ss.(stopping := false))
  {}

  lemma MovedIsOrderly(s: State, r: RunId, e: Event)
    requires Enabled(s, e) && (e == RunReturns(r) || e == RunSettles(r) || e == RunCloses(r))
    requires Orderly(s.sessions[r.name])
    ensures Apply(s, e).sessions.Keys == s.sessions.Keys
    ensures Orderly(Apply(s, e).sessions[r.name])
  {}

  lemma StartKeepsOrderly(s: State, e: Event, n: Name)
    requires Enabled(s, e) && (e.OpenRoot? || e.CancelRoot? || e.StartCapture? || e.StartInterface?)
    requires n in Apply(s, e).sessions && n in s.sessions && Orderly(s.sessions[n])
    ensures Orderly(Apply(s, e).sessions[n])
  {
    hide Orderly;
    if !s.sessions[n].running && !s.sessions[n].stopping { StartedIsOrderly(s.sessions[n]); }
  }

  lemma BeginKeepsOrderly(s: State, e: Event, n: Name)
    requires Enabled(s, e) && (e.StopCaptureBegin? || e.StopInterfaceBegin?)
    requires n in Apply(s, e).sessions && n in s.sessions && Orderly(s.sessions[n])
    ensures Orderly(Apply(s, e).sessions[n])
  {
    hide Orderly, Waits;
    if s.sessions[n].running { StoppedIsOrderly(s.sessions[n]); HasRun(s.sessions[n]); }
  }

  lemma HasRun(ss: Session)
    requires Orderly(ss) && (ss.running || ss.stopping)
    ensures |ss.runs| > 0
  {}

  lemma EndKeepsOrderly(s: State, e: Event, n: Name)
    requires Inv(s) && Enabled(s, e) && Disciplined(s, e) && (e.StopCaptureEnd? || e.StopInterfaceEnd?)
    requires n in Apply(s, e).sessions && n in s.sessions && Orderly(s.sessions[n])
    ensures Orderly(Apply(s, e).sessions[n])
  {
    hide Orderly;
    var ss := s.sessions[n];
    if ss.stopping && !Apply(s, e).sessions[n].stopping {
      HasRun(ss);
      EndedIsClosed(s, e, n);
      ClearedIsOrderly(ss);
    }
  }

  lemma EndedIsClosed(s: State, e: Event, n: Name)
    requires Inv(s) && Enabled(s, e) && Disciplined(s, e) && (e.StopCaptureEnd? || e.StopInterfaceEnd?)
    requires n in s.sessions && n in Apply(s, e).sessions && |s.sessions[n].runs| > 0
    requires s.sessions[n].stopping && !Apply(s, e).sessions[n].stopping
    ensures s.sessions[n].runs[|s.sessions[n].runs| - 1].phase.Closed?
  {
    hide Orderly;
    if e.StopCaptureEnd? {
      var d :| d in s.calls && Current(s, n) in Owned(s.calls[d]);
      assert Clears(s.calls[d]) && d == e.call && DoneClosed(s, Current(s, n));
    } else {
      assert s.calls[e.call].run in Owned(s.calls[e.call]);
    }
  }

  lemma StepKeepsOrderly(s: State, e: Event, n: Name)
    requires Inv(s) && Enabled(s, e) && Disciplined(s, e) && n in Apply(s, e).sessions
    ensures n in s.sessions && Orderly(Apply(s, e).sessions[n])
  {
    hide Apply, Orderly, Enabled, OwnersMatch;
    SameNames(s, e);
    assert Orderly(s.sessions[n]);
    match e
    case StopCaptureBegin(_) => BeginKeepsOrderly(s, e, n);
    case StopInterfaceBegin(_, _) => BeginKeepsOrderly(s, e, n);
    case StopCaptureEnd(_) => EndKeepsOrderly(s, e, n);
    case StopInterfaceEnd(_) => EndKeepsOrderly(s, e, n);
    case RunReturns(r) => MoveKeepsOrderly(s, r, e, n);
    case RunSettles(r) => MoveKeepsOrderly(s, r, e, n);
    case RunCloses(r) => MoveKeepsOrderly(s, r, e, n);
    case _ => StartKeepsOrderly(s, e, n);
  }

  lemma SameNames(s: State, e: Event)
    requires Enabled(s, e)
    ensures Apply(s, e).sessions.Keys == s.sessions.Keys
  {}

  lemma MoveKeepsOrderly(s: State, r: RunId, e: Event, n: Name)
    requires Enabled(s, e) && (e == RunReturns(r) || e == RunSettles(r) || e == RunCloses(r))
    requires n in Apply(s, e).sessions && n in s.sessions && Orderly(s.sessions[n])
    ensures Orderly(Apply(s, e).sessions[n])
  {
    if r.name == n { MovedIsOrderly(s, r, e); }
  }

  /** Only the end of a stop call that owns it takes a session out of `stopping`. */
  lemma StoppingPersists(s: State, e: Event, c: nat, n: Name)
    requires Inv(s) && Enabled(s, e) && Disciplined(s, e)
    requires n in s.sessions && c in s.calls && Current(s, n) in Owned(s.calls[c])
    requires (e.StopCaptureEnd? || e.StopInterfaceEnd?) ==> c != e.call
    ensures var s' := Apply(s, e);
      n in s'.sessions && s'.sessions[n].stopping && Current(s', n) == Current(s, n)
  {
    assert Orderly(s.sessions[n]) && s.sessions[n].stopping;
    if e.StopCaptureEnd? {
      assert Clears(s.calls[c]);
    } else if e.StopInterfaceEnd? && s.calls[e.call].StopOne? {
      assert s.calls[e.call].run in Owned(s.calls[e.call]);
    }
  }

  lemma OwnerGoesOn(s: State, e: Event, n: Name)
    requires Inv(s) && Enabled(s, e) && Disciplined(s, e)
    requires n in s.sessions && n in Apply(s, e).sessions && s.sessions[n].stopping && Apply(s, e).sessions[n].stopping
    ensures exists c :: c in Apply(s, e).calls && Current(Apply(s, e), n) in Owned(Apply(s, e).calls[c])
  {
    hide Orderly, Owned;
    var c :| c in s.calls && Current(s, n) in Owned(s.calls[c]);
    if (e.StopCaptureEnd? || e.StopInterfaceEnd?) && c == e.call {
      EndClears(s, e, n);
    } else {
      StoppingPersists(s, e, c, n);
      CallStays(s, e, c);
    }
  }

  lemma EndClears(s: State, e: Event, n: Name)
    requires Enabled(s, e) && (e.StopCaptureEnd? || e.StopInterfaceEnd?) && n in s.sessions
    requires Current(s, n) in Owned(s.calls[e.call])
    ensures n in Apply(s, e).sessions && !Apply(s, e).sessions[n].stopping
  {}

  lemma CallStays(s: State, e: Event, c: nat)
    requires Enabled(s, e) && c in s.calls && ((e.StopCaptureEnd? || e.StopInterfaceEnd?) ==> c != e.call)
    ensures c in Apply(s, e).calls && Apply(s, e).calls[c] == s.calls[c]
  {}

  lemma MarkedHasOwner(s: State, e: Event, n: Name)
    requires Enabled(s, e) && n in s.sessions && n in Apply(s, e).sessions && Orderly(s.sessions[n])
    requires !s.sessions[n].stopping && Apply(s, e).sessions[n].stopping
    ensures (e.StopCaptureBegin? || e.StopInterfaceBegin?) && e.call in Apply(s, e).calls
    ensures Current(Apply(s, e), n) in Owned(Apply(s, e).calls[e.call])
  {}

  /** A session that is stopping after a step has an owner after it: the one it had, or the
      call that has just marked it. */
  lemma StepKeepsOwner(s: State, e: Event, n: Name)
    requires Inv(s) && Enabled(s, e) && Disciplined(s, e)
    requires n in Apply(s, e).sessions && Apply(s, e).sessions[n].stopping
    ensures exists c :: c in Apply(s, e).calls && Current(Apply(s, e), n) in Owned(Apply(s, e).calls[c])
  {
    hide Apply, Orderly, Enabled, OwnersMatch, Owned;
    SameNames(s, e);
    if s.sessions[n].stopping {
      OwnerGoesOn(s, e, n);
    } else {
      assert Orderly(s.sessions[n]);
      MarkedHasOwner(s, e, n);
    }
  }

  lemma StopAllStaysAlone(s: State, e: Event)
    requires OwnersMatch(s) && Enabled(s, e) && Disciplined(s, e)
    requires forall n <- s.sessions :: Orderly(s.sessions[n])
    ensures var s' := Apply(s, e);
            forall c <- s'.calls, d <- s'.calls | s'.calls[c].StopAll? && Clears(s'.calls[d]) :: c == d
  {
    hide Orderly, Owned;
  }

  lemma StepKeepsOwners(s: State, e: Event)
    requires Inv(s) && Enabled(s, e) && Disciplined(s, e)
    ensures OwnersMatch(Apply(s, e))
  {
    hide Apply, Enabled, Disciplined, Orderly;
    var s' := Apply(s, e);
    forall n | n in s'.sessions && s'.sessions[n].stopping
      ensures exists c :: c in s'.calls && Current(s', n) in Owned(s'.calls[c])
    {
      StepKeepsOwner(s, e, n);
    }
    StepKeepsOwnership(s, e);
    StopAllStaysAlone(s, e);
  }

  lemma NewlyOwned(s: State, e: Event, c: nat, r: RunId)
    requires Enabled(s, e) && c in Apply(s, e).calls && r in Owned(Apply(s, e).calls[c])
    requires !(c in s.calls && r in Owned(s.calls[c]))
    ensures var s' := Apply(s, e);
      r.name in s'.sessions && s'.sessions[r.name].stopping && r == Current(s', r.name)
  {}

  lemma OwnedStaysCurrent(s: State, e: Event, c: nat, r: RunId)
    requires Inv(s) && Enabled(s, e) && Disciplined(s, e)
    requires c in Apply(s, e).calls && r in Owned(Apply(s, e).calls[c])
    ensures var s' := Apply(s, e);
      r.name in s'.sessions && s'.sessions[r.name].stopping && r == Current(s', r.name)
  {
    hide Apply, Enabled, Orderly;
    if c in s.calls && r in Owned(s.calls[c]) {
      EndedCallIsGone(s, e, c);
      StoppingPersists(s, e, c, r.name);
    } else {
      NewlyOwned(s, e, c, r);
    }
  }

  lemma EndedCallIsGone(s: State, e: Event, c: nat)
    requires Enabled(s, e) && c in Apply(s, e).calls
    ensures e.StopCaptureEnd? || e.StopInterfaceEnd? ==> c != e.call
  {}

  lemma OwnerStaysUnique(s: State, e: Event, c: nat, d: nat, r: RunId)
    requires Inv(s) && Enabled(s, e) && Disciplined(s, e)
    requires c in Apply(s, e).calls && d in Apply(s, e).calls
    requires r in Owned(Apply(s, e).calls[c]) && r in Owned(Apply(s, e).calls[d])
    ensures c == d
  {
    if e.StopInterfaceBegin? && e.name in s.sessions { assert Orderly(s.sessions[e.name]); }
  }

  lemma StepKeepsOwnership(s: State, e: Event)
    requires Inv(s) && Enabled(s, e) && Disciplined(s, e)
    ensures var s' := Apply(s, e);
      && (forall c <- s'.calls, r <- Owned(s'.calls[c]) ::
            r.name in s'.sessions && s'.sessions[r.name].stopping && r == Current(s', r.name))
      && (forall c <- s'.calls, d <- s'.calls, r | r in Owned(s'.calls[c]) && r in Owned(s'.calls[d]) :: c == d)
  {
    hide Apply, Enabled, Disciplined, Orderly, OwnersMatch;
    var s' := Apply(s, e);
    forall c, r | c in s'.calls && r in Owned(s'.calls[c])
      ensures r.name in s'.sessions && s'.sessions[r.name].stopping && r == Current(s', r.name)
    {
      OwnedStaysCurrent(s, e, c, r);
    }
    forall c, d, r | c in s'.calls && d in s'.calls && r in Owned(s'.calls[c]) && r in Owned(s'.calls[d])
      ensures c == d
    {
      OwnerStaysUnique(s, e, c, d, r);
    }
  }

  /** What a StopCapture does when it begins: it marks the running sessions. */
  lemma StopCaptureMarks(s: State, c: nat)
    requires Enabled(s, StopCaptureBegin(c))
    ensures var s' := Apply(s, StopCaptureBegin(c));
            && s'.root == s.root && s'.calls == s.calls[c := StopAll(Waits(s))] && s'.sessions.Keys == s.sessions.Keys
            && forall n <- s.sessions :: s'.sessions[n] == if s.sessions[n].running then Stopped(s.sessions[n]) else s.sessions[n]
  {}

  /** What a StopInterface does to a running session when it begins. */
  lemma StopInterfaceMarks(s: State, c: nat, n: Name)
    requires Enabled(s, StopInterfaceBegin(c, n)) && n in s.sessions && s.sessions[n].running && !s.sessions[n].stopping
    requires |s.sessions[n].runs| > 0
    ensures Apply(s, StopInterfaceBegin(c, n)) ==
            s.(sessions := s.sessions[n := Stopped(s.sessions[n])], calls := s.calls[c := StopOne(Current(s, n))])
  {}

  /** Every disciplined step keeps the invariant. */
  lemma StepKeepsInv(s: State, e: Event)
    requires Inv(s) && Enabled(s, e) && Disciplined(s, e)
    ensures Inv(Apply(s, e))
  {
    forall n | n in Apply(s, e).sessions ensures Orderly(Apply(s, e).sessions[n]) { StepKeepsOrderly(s, e, n); }
    StepKeepsOwners(s, e);
  }

  lemma {:induction false} RunKeepsInv(s: State, es: seq<Event>)
    requires Inv(s) && Legal(s, es) && DisciplinedRun(s, es)
    ensures Inv(Exec(s, es))
    decreases |es|
  {
    if es != [] {
      StepKeepsInv(s, es[0]);
      RunKeepsInv(Apply(s, es[0]), es[1..]);
    }
  }

  lemma InitialHasInv(s: State)
    requires Initial(s)
    ensures Inv(s)
  {}

  /** Safety over whole runs: however the steps interleave, as long as no StopCapture overlaps
      another clearing stop call, no interface ever has a goroutine inside `Run` that is not of
      its current generation, or whose session is neither running nor stopping. */
  lemma DisciplinedRunsAreSafe(s: State, es: seq<Event>)
    requires Initial(s) && Legal(s, es) && DisciplinedRun(s, es)
    ensures Safe(Exec(s, es))
  {
    InitialHasInv(s);
    RunKeepsInv(s, es);
  }

  // ---- What a returning stop call guarantees, in every run ----------------------------------

  /** A run the call waits for. */
  function Awaited(c: Call): set<RunId> {
    match c
    case StopAll(waits) => waits
    case StopOne(r) => {r}
    case Join(r) => {r}
  }

  lemma StepKeepsClosed(s: State, e: Event, r: RunId)
    requires Enabled(s, e) && DoneClosed(s, r)
    ensures DoneClosed(Apply(s, e), r)
  {}

  lemma {:induction false} ClosedStaysClosed(s: State, es: seq<Event>, r: RunId)
    requires Legal(s, es) && DoneClosed(s, r)
    ensures DoneClosed(Exec(s, es), r)
    decreases |es|
  {
    if es != [] {
      StepKeepsClosed(s, es[0], r);
      ClosedStaysClosed(Apply(s, es[0]), es[1..], r);
    }
  }

  /** When a stop call returns, each run it stopped or joined has left `Run`, and never enters
      it again; this needs no discipline. */
  lemma ReturnedStopsHaveLeftRun(s: State, e: Event, es: seq<Event>)
    requires Enabled(s, e) && (e.StopCaptureEnd? || e.StopInterfaceEnd?)
    requires Legal(Apply(s, e), es)
    ensures forall r <- Awaited(s.calls[e.call]) ::
              DoneClosed(Exec(Apply(s, e), es), r)
  {
    forall r | r in Awaited(s.calls[e.call])
      ensures DoneClosed(Exec(Apply(s, e), es), r)
    {
      StepKeepsClosed(s, e, r);
      ClosedStaysClosed(Apply(s, e), es, r);
    }
  }

  // ---- Overlapping stops ---------------------------------------------------------------------

  lemma Cons(s: State, e: Event, es: seq<Event>)
    requires Enabled(s, e) && Legal(Apply(s, e), es)
    ensures Legal(s, [e] + es) && Exec(s, [e] + es) == Exec(Apply(s, e), es)
    ensures Disciplined(s, e) && DisciplinedRun(Apply(s, e), es) ==> DisciplinedRun(s, [e] + es)
  {
    assert ([e] + es)[1..] == es;
  }

  lemma SoloStart(n: Name, ss: Session, calls: map<nat, Call>)
    requires !ss.running && !ss.stopping
    ensures Apply(State(Open, map[n := ss], calls), StartInterface(n)) == State(Open, map[n := Started(ss)], calls)
  {
    assert map[n := ss][n := Started(ss)] == map[n := Started(ss)];
  }

  lemma SoloMark(n: Name, ss: Session)
    requires ss.running && !ss.stopping && |ss.runs| > 0
    ensures Apply(State(Open, map[n := ss], map[]), StopInterfaceBegin(0, n)) ==
            State(Open, map[n := Stopped(ss)], map[0 := StopOne(RunId(n, |ss.runs| - 1))])
  {
    hide Stopped;
    assert map[n := ss][n := Stopped(ss)] == map[n := Stopped(ss)];
  }

  lemma SoloNothingToWait(n: Name, ss: Session, c: Call)
    requires !ss.running
    ensures Apply(State(Open, map[n := ss], map[0 := c]), StopCaptureBegin(1)) ==
            State(Open, map[n := ss], map[0 := c, 1 := StopAll({})])
  {
    assert Waits(State(Open, map[n := ss], map[0 := c])) == {};
  }

  lemma SoloCleared(n: Name, ss: Session, c: Call)
    ensures var s := State(Open, map[n := ss], map[0 := c, 1 := StopAll({})]);
            Enabled(s, StopCaptureEnd(1))
            && Apply(s, StopCaptureEnd(1)) == State(Open, map[n := ss.(stopping := false)], map[0 := c])
  {}

  lemma SoloPass(n: Name, ss: Session, c: Call)
    requires !ss.running
    ensures var s := State(Open, map[n := ss], map[0 := c]);
            var es := [StopCaptureBegin(1)] + ([StopCaptureEnd(1)] + []);
            Legal(s, es) && Exec(s, es) == s.(sessions := map[n := ss.(stopping := false)])
  {
    hide Apply;
    var s := State(Open, map[n := ss], map[0 := c]);
    SoloNothingToWait(n, ss, c);
    SoloCleared(n, ss, c);
    Cons(s.(calls := map[0 := c, 1 := StopAll({})]), StopCaptureEnd(1), []);
    Cons(s, StopCaptureBegin(1), [StopCaptureEnd(1)] + []);
  }

  /** A StopInterface marks the only session; an overlapping StopCapture then comes and goes. */
  lemma SoloOverlap(n: Name, ss: Session)
    requires ss.running && !ss.stopping && |ss.runs| > 0
    ensures var s := State(Open, map[n := ss], map[]);
            var es := [StopInterfaceBegin(0, n)] + ([StopCaptureBegin(1)] + ([StopCaptureEnd(1)] + []));
            Legal(s, es)
            && Exec(s, es) == State(Open, map[n := Stopped(ss).(stopping := false)], map[0 := StopOne(RunId(n, |ss.runs| - 1))])
  {
    hide Apply, Legal, Exec;
    var s := State(Open, map[n := ss], map[]);
    SoloMark(n, ss);
    SoloPass(n, Stopped(ss), StopOne(RunId(n, |ss.runs| - 1)));
    Cons(s, StopInterfaceBegin(0, n), [StopCaptureBegin(1)] + ([StopCaptureEnd(1)] + []));
  }

  /** The short trace that breaks the unrestricted statement: StopInterface has marked the
      session and waits; a StopCapture finds nothing running, waits for nothing and clears
      `stopping`; StartInterface launches a second goroutine beside the first. */
  lemma OverlappingStopsBreakSafety(n: Name)
    ensures var s := State(Unset, map[n := Session(false, false, [])], map[]);
            var overlap := [StopInterfaceBegin(0, n)] + ([StopCaptureBegin(1)] + ([StopCaptureEnd(1)] + []));
            var es := [OpenRoot] + ([StartInterface(n)] + (overlap + [StartInterface(n)]));
            Initial(s) && Legal(s, es) && !Safe(Exec(s, es))
            && Exec(s, es).sessions == map[n := Session(true, false, [Run(InRun, true), Run(InRun, false)])]
  {
    var idle := Session(false, false, []);
    var up := Session(true, false, [Run(InRun, false)]);
    var loose := Session(false, false, [Run(InRun, true)]);
    var overlap := [StopInterfaceBegin(0, n)] + ([StopCaptureBegin(1)] + ([StopCaptureEnd(1)] + []));
    var s0, s1 := State(Unset, map[n := idle], map[]), State(Open, map[n := idle], map[]);
    SoloStart(n, idle, map[]);
    assert Started(idle) == up;
    var s2 := State(Open, map[n := up], map[]);
    SoloOverlap(n, up);
    assert Stopped(up).(stopping := false) == loose;
    var s3 := Exec(s2, overlap);
    SoloStart(n, loose, s3.calls);
    assert Started(loose).runs == [Run(InRun, true), Run(InRun, false)];
    Cons(s3, StartInterface(n), []);
    assert [StartInterface(n)] + [] == [StartInterface(n)];
    ExecAppend(s2, overlap, [StartInterface(n)]);
    Cons(s1, StartInterface(n), overlap + [StartInterface(n)]);
    Cons(s0, OpenRoot, [StartInterface(n)] + (overlap + [StartInterface(n)]));
    assert !SafeSession(Started(loose)) by { assert Started(loose).runs[0].phase.InRun?; }
  }

  lemma {:induction false} ExecAppend(s: State, a: seq<Event>, b: seq<Event>)
    requires Legal(s, a) && Legal(Exec(s, a), b)
    ensures Legal(s, a + b) && Exec(s, a + b) == Exec(Exec(s, a), b)
    ensures DisciplinedRun(s, a) && DisciplinedRun(Exec(s, a), b) ==> DisciplinedRun(s, a + b)
    decreases |a|
  {
    if a == [] {
      assert a + b == b;
    } else {
      ExecAppend(Apply(s, a[0]), a[1..], b);
      assert (a + b)[1..] == a[1..] + b;
    }
  }

  ghost predicate Reaches(s: State, s': State) {
    exists es :: Legal(s, es) && DisciplinedRun(s, es) && Exec(s, es) == s'
  }

  lemma ReachesStep(s: State, e: Event)
    requires Enabled(s, e) && Disciplined(s, e)
    ensures Reaches(s, Apply(s, e))
  {
    Cons(s, e, []);
    var es := [e] + [];
    assert Legal(s, es) && DisciplinedRun(s, es) && Exec(s, es) == Apply(s, e);
  }

  lemma ReachesTrans(a: State, b: State, c: State)
    requires Reaches(a, b) && Reaches(b, c)
    ensures Reaches(a, c)
  {
    var e1 :| Legal(a, e1) && DisciplinedRun(a, e1) && Exec(a, e1) == b;
    var e2 :| Legal(b, e2) && DisciplinedRun(b, e2) && Exec(b, e2) == c;
    ExecAppend(a, e1, e2);
  }

  lemma ReachesRefl(s: State)
    ensures Reaches(s, s)
  {
    assert Legal(s, []) && Exec(s, []) == s;
  }

  lemma SetPhaseTwice(s: State, r: RunId, p: Phase, q: Phase)
    requires ValidRun(s, r)
    ensures SetPhase(SetPhase(s, r, p), r, q) == SetPhase(s, r, q)
    ensures SetPhase(s, r, s.sessions[r.name].runs[r.index].phase) == s
  {
    var runs := s.sessions[r.name].runs;
    assert runs[r.index := runs[r.index].(phase := p)][r.index := runs[r.index].(phase := q)]
        == runs[r.index := runs[r.index].(phase := q)];
    assert runs[r.index := runs[r.index]] == runs;
    assert s.sessions[r.name := s.sessions[r.name]] == s.sessions;
    var s1 := SetPhase(s, r, p);
    assert s1.sessions[r.name := SetPhase(s, r, q).sessions[r.name]] == SetPhase(s, r, q).sessions;
  }

  /** A cancelled run, or one of an older generation, can always be driven to close its
      channel without touching anything else. */
  lemma RunCanClose(s: State, r: RunId)
    requires ValidRun(s, r)
    requires s.sessions[r.name].runs[r.index].cancelled || r.index + 1 < |s.sessions[r.name].runs|
    ensures Reaches(s, SetPhase(s, r, Closed))
  {
    var s1, s2, s3 := SetPhase(s, r, Returned), SetPhase(s, r, Settled), SetPhase(s, r, Closed);
    SetPhaseTwice(s, r, Returned, Settled);
    SetPhaseTwice(s, r, Settled, Closed);
    ReachesStep(s2, RunCloses(r));
    match s.sessions[r.name].runs[r.index].phase {
      case InRun =>
        ReachesStep(s, RunReturns(r));
        ReachesStep(s1, RunSettles(r));
        ReachesTrans(s, s1, s2);
        ReachesTrans(s, s2, s3);
      case Returned =>
        ReachesStep(s, RunSettles(r));
        ReachesTrans(s, s2, s3);
      case Settled =>
      case Closed => ReachesRefl(s);
    }
  }

  /** `s'` is `s` with nothing but the phases of the runs in `moved` changed. */
  ghost predicate OnlyMoved(s: State, s': State, moved: set<RunId>) {
    && s'.root == s.root && s'.calls == s.calls && s'.sessions.Keys == s.sessions.Keys
    && forall n <- s.sessions ::
         var a, b := s.sessions[n], s'.sessions[n];
         && a.running == b.running && a.stopping == b.stopping && |a.runs| == |b.runs|
         && forall i | 0 <= i < |a.runs| ::
              a.runs[i].cancelled == b.runs[i].cancelled && (RunId(n, i) !in moved ==> a.runs[i] == b.runs[i])
  }

  lemma OnlyMovedOneMore(s: State, s1: State, moved: set<RunId>, r: RunId)
    requires OnlyMoved(s, s1, moved) && ValidRun(s1, r) && r in moved
    ensures OnlyMoved(s, SetPhase(s1, r, Closed), moved)
  {}

  lemma WaitsCanClose(s: State, waits: set<RunId>) returns (s': State)
    requires forall r <- waits :: ValidRun(s, r) && s.sessions[r.name].runs[r.index].cancelled
    ensures Reaches(s, s') && OnlyMoved(s, s', waits)
    ensures forall r <- waits :: DoneClosed(s', r)
    decreases waits
  {
    if waits == {} {
      ReachesRefl(s);
      s' := s;
    } else {
      var r :| r in waits;
      var s1 := WaitsCanClose(s, waits - {r});
      assert OnlyMoved(s, s1, waits) && ValidRun(s1, r);
      RunCanClose(s1, r);
      s' := SetPhase(s1, r, Closed);
      OnlyMovedOneMore(s, s1, waits, r);
      ReachesTrans(s, s1, s');
      forall q | q in waits ensures DoneClosed(s', q) {
        if q != r { assert DoneClosed(s1, q); }
      }
    }
  }
}
