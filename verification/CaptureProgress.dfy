/** What the calls achieve in disciplined runs: a running session has a live goroutine, so a start
    leaves one behind, and a stop leaves none. */
module CaptureProgress {
  import opened CaptureLifecycle

  // ---- Running sessions are alive ---------------------------------------------------------------

  /** The newest goroutine is inside `Run`, or back from it and about to put the session to rest. */
  predicate Active(ss: Session) {
    |ss.runs| > 0 && (ss.runs[|ss.runs| - 1].phase.InRun? || ss.runs[|ss.runs| - 1].phase.Returned?)
  }

  predicate LiveSession(ss: Session) { ss.running ==> Active(ss) }

  /** While the root context is not cancelled, no session is running in name only. */
  ghost predicate Live(s: State) {
    s.root.Cancelled? || forall n <- s.sessions :: LiveSession(s.sessions[n])
  }

  /** A goroutine's own steps: leaving `Run`, its final section, closing its channel. */
  lemma MoveKeepsLive(s: State, e: Event, r: RunId)
    requires Enabled(s, e) && (e == RunReturns(r) || e == RunSettles(r) || e == RunCloses(r))
    requires !s.root.Cancelled? && Orderly(s.sessions[r.name]) && LiveSession(s.sessions[r.name])
    ensures r.name in Apply(s, e).sessions && LiveSession(Apply(s, e).sessions[r.name])
  {}

  lemma CallKeepsLive(s: State, e: Event, n: Name)
    requires Enabled(s, e) && !(e.RunReturns? || e.RunSettles? || e.RunCloses?)
    requires n in s.sessions && n in Apply(s, e).sessions && LiveSession(s.sessions[n])
    ensures LiveSession(Apply(s, e).sessions[n])
  {}

  lemma MoveKeepsOthers(s: State, e: Event, r: RunId, n: Name)
    requires Enabled(s, e) && (e == RunReturns(r) || e == RunSettles(r) || e == RunCloses(r))
    requires n in s.sessions && n in Apply(s, e).sessions && n != r.name
    ensures Apply(s, e).sessions[n] == s.sessions[n]
  {}

  lemma RootStays(s: State, e: Event)
    requires Enabled(s, e) && s.root.Cancelled?
    ensures Apply(s, e).root.Cancelled?
  {}

  lemma StepKeepsLive(s: State, e: Event)
    requires Inv(s) && Live(s) && Enabled(s, e) && Disciplined(s, e)
    ensures Live(Apply(s, e))
  {
    hide Apply, LiveSession, Orderly, OwnersMatch, Enabled, Disciplined;
    var s' := Apply(s, e);
    SameNames(s, e);
    if s.root.Cancelled? {
      RootStays(s, e);
    } else {
      forall n | n in s'.sessions ensures LiveSession(s'.sessions[n]) {
        assert Orderly(s.sessions[n]);
        if e.RunReturns? || e.RunSettles? || e.RunCloses? {
          if n == e.run.name { MoveKeepsLive(s, e, e.run); } else { MoveKeepsOthers(s, e, e.run, n); }
        } else {
          CallKeepsLive(s, e, n);
        }
      }
    }
  }

  lemma {:induction false} RunKeepsLive(s: State, es: seq<Event>)
    requires Inv(s) && Live(s) && Legal(s, es) && DisciplinedRun(s, es)
    ensures Live(Exec(s, es))
    decreases |es|
  {
    hide Inv, Live, Apply, Enabled, Disciplined;
    if es != [] {
      StepKeepsLive(s, es[0]);
      StepKeepsInv(s, es[0]);
      RunKeepsLive(Apply(s, es[0]), es[1..]);
    }
  }

  lemma InitialIsLive(s: State)
    requires Initial(s)
    ensures Live(s)
  {}

  /** In every state of a disciplined run with an open root context, a running session has a live
      goroutine of its newest generation. */
  lemma RunningIsAlive(s: State, es: seq<Event>, n: Name)
    requires Initial(s) && Legal(s, es) && DisciplinedRun(s, es)
    requires var t := Exec(s, es); !t.root.Cancelled? && n in t.sessions && t.sessions[n].running
    ensures Active(Exec(s, es).sessions[n])
  {
    hide Initial, Inv, Apply, Enabled, Disciplined, Active;
    InitialIsLive(s);
    InitialHasInv(s);
    RunKeepsLive(s, es);
  }

  // ---- Starting ---------------------------------------------------------------------------------------

  /** After any disciplined run, a StartInterface that does not fail leaves the interface running with
      a live goroutine: the one it had, or a new one inside `Run`. */
  lemma StartInterfaceStarts(s: State, es: seq<Event>, n: Name)
    requires Initial(s) && Legal(s, es) && DisciplinedRun(s, es)
    requires var t := Exec(s, es); t.root.Open? && n in t.sessions && !t.sessions[n].stopping
    ensures var t := Exec(s, es); var t' := Apply(t, StartInterface(n));
            && n in t'.sessions && t'.sessions[n].running && Active(t'.sessions[n])
            && (!t.sessions[n].running ==>
                 t'.sessions[n].runs == t.sessions[n].runs + [Run(InRun, false)])
  {
    hide Initial, Inv, Disciplined, Exec, Legal, DisciplinedRun;
    if Exec(s, es).sessions[n].running { RunningIsAlive(s, es, n); }
  }

  /** A StartCapture that does not fail does so for every interface. */
  lemma StartCaptureStarts(s: State, es: seq<Event>, started: set<Name>)
    requires Initial(s) && Legal(s, es) && DisciplinedRun(s, es)
    requires var t := Exec(s, es);
             t.root.Open? && Enabled(t, StartCapture(started)) && forall n <- t.sessions :: !t.sessions[n].stopping
    ensures var t := Exec(s, es); var t' := Apply(t, StartCapture(started));
            forall n <- t.sessions :: n in t'.sessions && t'.sessions[n].running && Active(t'.sessions[n])
  {
    hide Initial, Inv, Disciplined, Exec, Legal, DisciplinedRun;
    var t := Exec(s, es);
    forall n | n in t.sessions
      ensures var t' := Apply(t, StartCapture(started)); n in t'.sessions && t'.sessions[n].running && Active(t'.sessions[n])
    {
      if t.sessions[n].running { RunningIsAlive(s, es, n); }
    }
  }

  /** A goroutine that returns by itself puts its session to rest, ready to be started again. */
  lemma ReturnRests(s: State, r: RunId)
    requires Inv(s) && Enabled(s, RunSettles(r)) && !s.root.Cancelled? && s.sessions[r.name].running
    ensures var s' := Apply(s, RunSettles(r)); r.name in s'.sessions && !s'.sessions[r.name].running && !s'.sessions[r.name].stopping
  {
    assert Orderly(s.sessions[r.name]);
  }

  // ---- Stopping ---------------------------------------------------------------------------------------

  predicate Starts(e: Event) { e.StartCapture? || e.StartInterface? }

  predicate NoStarts(es: seq<Event>) { forall i :: 0 <= i < |es| ==> !Starts(es[i]) }

  ghost predicate NoneRunning(s: State) { forall n <- s.sessions :: !s.sessions[n].running }

  /** No goroutine of the session is inside `Run`, and neither flag is set. */
  ghost predicate AtRest(ss: Session) {
    !ss.running && !ss.stopping && forall i | 0 <= i < |ss.runs| :: !ss.runs[i].phase.InRun?
  }

  lemma BeginPauses(s: State, c: nat)
    requires Enabled(s, StopCaptureBegin(c))
    ensures NoneRunning(Apply(s, StopCaptureBegin(c)))
  {}

  lemma OnlyStartsRun(s: State, e: Event)
    requires Enabled(s, e) && NoneRunning(s) && !Starts(e)
    ensures NoneRunning(Apply(s, e))
  {}

  lemma {:induction false} StaysPaused(s: State, es: seq<Event>)
    requires NoneRunning(s) && Legal(s, es) && NoStarts(es)
    ensures NoneRunning(Exec(s, es))
    decreases |es|
  {
    hide NoneRunning, Apply, Enabled, Starts;
    if es != [] {
      OnlyStartsRun(s, es[0]);
      StaysPaused(Apply(s, es[0]), es[1..]);
    }
  }

  lemma OrderlyAtRest(ss: Session)
    requires Orderly(ss) && !ss.running && !ss.stopping
    ensures AtRest(ss)
  {}

  lemma EndRests(s: State, c: nat)
    requires NoneRunning(s) && Enabled(s, StopCaptureEnd(c)) && Inv(Apply(s, StopCaptureEnd(c)))
    ensures forall n <- Apply(s, StopCaptureEnd(c)).sessions :: AtRest(Apply(s, StopCaptureEnd(c)).sessions[n])
  {
    hide AtRest, OwnersMatch;
    var s' := Apply(s, StopCaptureEnd(c));
    forall n | n in s'.sessions ensures AtRest(s'.sessions[n]) { OrderlyAtRest(s'.sessions[n]); }
  }

  /** StopCapture stops acquisition everywhere: when it returns, whatever happened while it waited short
      of a start, every interface is at rest, with no goroutine inside `Run`. */
  lemma StopCaptureStops(s: State, c: nat, es: seq<Event>)
    requires Inv(s) && Enabled(s, StopCaptureBegin(c)) && Disciplined(s, StopCaptureBegin(c))
    requires var t := Apply(s, StopCaptureBegin(c)); Legal(t, es) && DisciplinedRun(t, es) && NoStarts(es)
    requires Enabled(Exec(Apply(s, StopCaptureBegin(c)), es), StopCaptureEnd(c))
    ensures var t' := Apply(Exec(Apply(s, StopCaptureBegin(c)), es), StopCaptureEnd(c));
            forall n <- t'.sessions :: AtRest(t'.sessions[n])
  {
    hide Apply, Inv, NoneRunning, AtRest, Exec, Legal, Enabled;
    var t := Apply(s, StopCaptureBegin(c));
    StepKeepsInv(s, StopCaptureBegin(c));
    BeginPauses(s, c);
    RunKeepsInv(t, es);
    StaysPaused(t, es);
    StepKeepsInv(Exec(t, es), StopCaptureEnd(c));
    EndRests(Exec(t, es), c);
  }

  predicate StartsOne(e: Event, n: Name) { e.StartCapture? || (e.StartInterface? && e.name == n) }

  predicate NoStartsOf(es: seq<Event>, n: Name) { forall i :: 0 <= i < |es| ==> !StartsOne(es[i], n) }

  ghost predicate IsPaused(s: State, n: Name) { n in s.sessions && !s.sessions[n].running }

  ghost predicate Owns(s: State, c: nat, n: Name) {
    c in s.calls && s.calls[c].StopOne? && s.calls[c].run.name == n
  }

  lemma BeginPausesOne(s: State, c: nat, n: Name)
    requires Inv(s) && Enabled(s, StopInterfaceBegin(c, n)) && n in s.sessions && s.sessions[n].running
    ensures var s' := Apply(s, StopInterfaceBegin(c, n)); IsPaused(s', n) && Owns(s', c, n)
  {
    assert Orderly(s.sessions[n]);
  }

  lemma StepStaysPaused(s: State, e: Event, n: Name)
    requires Enabled(s, e) && IsPaused(s, n) && !StartsOne(e, n)
    ensures IsPaused(Apply(s, e), n)
  {}

  lemma {:induction false} OneStaysPaused(s: State, es: seq<Event>, n: Name)
    requires IsPaused(s, n) && Legal(s, es) && NoStartsOf(es, n)
    ensures IsPaused(Exec(s, es), n)
    decreases |es|
  {
    hide IsPaused, Apply, Enabled, StartsOne;
    if es != [] {
      StepStaysPaused(s, es[0], n);
      OneStaysPaused(Apply(s, es[0]), es[1..], n);
    }
  }

  lemma EndRestsOne(s: State, c: nat, n: Name)
    requires IsPaused(s, n) && Owns(s, c, n) && Enabled(s, StopInterfaceEnd(c)) && Inv(Apply(s, StopInterfaceEnd(c)))
    ensures n in Apply(s, StopInterfaceEnd(c)).sessions && AtRest(Apply(s, StopInterfaceEnd(c)).sessions[n])
  {
    hide AtRest, OwnersMatch, Orderly;
    OrderlyAtRest(Apply(s, StopInterfaceEnd(c)).sessions[n]);
  }

  /** StopInterface does so for its own interface, whatever happened to the others. */
  lemma StopInterfaceStops(s: State, c: nat, n: Name, es: seq<Event>)
    requires Inv(s) && Enabled(s, StopInterfaceBegin(c, n)) && Disciplined(s, StopInterfaceBegin(c, n))
    requires n in s.sessions && s.sessions[n].running
    requires var t := Apply(s, StopInterfaceBegin(c, n)); Legal(t, es) && DisciplinedRun(t, es) && NoStartsOf(es, n)
    requires var t := Exec(Apply(s, StopInterfaceBegin(c, n)), es); Enabled(t, StopInterfaceEnd(c)) && Owns(t, c, n)
    ensures var t' := Apply(Exec(Apply(s, StopInterfaceBegin(c, n)), es), StopInterfaceEnd(c));
            n in t'.sessions && AtRest(t'.sessions[n])
  {
    hide Apply, Inv, IsPaused, AtRest, Exec, Legal, Owns, Enabled;
    var t := Apply(s, StopInterfaceBegin(c, n));
    StepKeepsInv(s, StopInterfaceBegin(c, n));
    BeginPausesOne(s, c, n);
    RunKeepsInv(t, es);
    OneStaysPaused(t, es, n);
    EndIsDisciplined(Exec(t, es), c);
    StepKeepsInv(Exec(t, es), StopInterfaceEnd(c));
    EndRestsOne(Exec(t, es), c, n);
  }

  /** A StopInterface of a session that runs, or that another call is stopping, waits for the newest
      goroutine to close its channel; of any other it returns at once and changes nothing. */
  lemma StopInterfaceWaits(s: State, c: nat, n: Name)
    requires Inv(s) && Enabled(s, StopInterfaceBegin(c, n))
    ensures var s' := Apply(s, StopInterfaceBegin(c, n));
            if n in s.sessions && (s.sessions[n].running || s.sessions[n].stopping) then
              && n in s'.sessions && |s'.sessions[n].runs| == |s.sessions[n].runs| > 0
              && c in s'.calls
              && (Enabled(s', StopInterfaceEnd(c)) <==> s'.sessions[n].runs[|s'.sessions[n].runs| - 1].phase.Closed?)
            else s' == s
  {
    if n in s.sessions { assert Orderly(s.sessions[n]); }
  }

  /** A StopCapture waits for the newest goroutine of every running session, and for no other. */
  lemma StopCaptureWaits(s: State, c: nat)
    requires Inv(s) && Enabled(s, StopCaptureBegin(c))
    ensures var s' := Apply(s, StopCaptureBegin(c));
            && s'.sessions.Keys == s.sessions.Keys
            && (forall n <- s.sessions :: |s'.sessions[n].runs| == |s.sessions[n].runs|)
            && (forall n <- s.sessions :: s.sessions[n].running ==> |s.sessions[n].runs| > 0)
            && (Enabled(s', StopCaptureEnd(c)) <==>
                 forall n <- s.sessions :: s.sessions[n].running ==>
                   s'.sessions[n].runs[|s'.sessions[n].runs| - 1].phase.Closed?)
  {
    hide OwnersMatch;
    var s' := Apply(s, StopCaptureBegin(c));
    forall n | n in s.sessions && s.sessions[n].running ensures |s.sessions[n].runs| > 0 { assert Orderly(s.sessions[n]); }
    if Enabled(s', StopCaptureEnd(c)) {
      forall n | n in s.sessions && s.sessions[n].running
        ensures s'.sessions[n].runs[|s'.sessions[n].runs| - 1].phase.Closed?
      {
        assert Current(s, n) in s'.calls[c].waits;
      }
    }
  }

  lemma EndIsDisciplined(s: State, c: nat)
    ensures Disciplined(s, StopInterfaceEnd(c)) && Disciplined(s, StopCaptureEnd(c))
  {}
}
