/** The times of an export worker: which stretch a record covers, and when a flow is let go. */
module ExportTiming {
  import opened Text
  import opened ExportAccounting

  function TimeOf(e: Event): int { e.now }

  predicate NoneBefore(events: seq<Event>, t: int) {
    forall i :: 0 <= i < |events| ==> TimeOf(events[i]) >= t
  }

  /** The flow, if it is there, was last exported no earlier than `t`. */
  predicate ExportedSince(a: Active, id: string, t: int) { id in a ==> a[id].lastExport >= t }

  /** The records of a visit cover the time from the last export, or from the start of the flow when that
      is later. */
  lemma RecordsStart(st: FlowState, now: int, taken: nat, limits: Timeouts)
    ensures forall r <- VisitFlow(st, now, taken, limits).sent ::
              r.firstSeen == if st.lastExport > st.flow.firstSeen then st.lastExport else st.flow.firstSeen
  {
    hide Due, DueInactive, AtMost, Restarted;
    var (st', delta) := DeltaFlow(st);
    RecordsHaveDirections(delta);
    var v := VisitFlow(st, now, taken, limits);
    forall r | r in v.sent ensures r.firstSeen == delta.firstSeen {
      var k :| 0 <= k < |v.sent| && v.sent[k] == r;
      assert v.sent[k] == DirectionalFlows(delta)[k];
    }
  }

  /** A due visit in which no write fails stamps the flow with its time, or lets it go. */
  lemma VisitStamps(a: Active, id: string, now: int, taken: nat, limits: Timeouts)
    requires id in a && !VisitFlow(a[id], now, taken, limits).failed
    requires now - a[id].updated >= limits.inactive || now - a[id].lastExport >= limits.active
    ensures var a' := Step(a, Visit(id, now, taken), limits); id in a' ==> a'[id].lastExport == now
  {
    hide AtMost, Restarted, DirectionalFlows, Minus;
  }

  /** What a visit leaves of a flow that it does not drop. */
  lemma VisitLeaves(st: FlowState, now: int, taken: nat, limits: Timeouts)
    ensures var v := VisitFlow(st, now, taken, limits);
            v.st.Some? ==>
              && v.st.value.updated == st.updated && v.st.value.flow == st.flow
              && (v.st.value.lastExport == st.lastExport || v.st.value.lastExport == now)
  {
    hide Due, DueInactive, AtMost, Restarted, DirectionalFlows, Minus;
  }

  lemma StepKeepsSince(a: Active, e: Event, id: string, t: int, limits: Timeouts)
    requires ExportedSince(a, id, t) && TimeOf(e) >= t
    ensures ExportedSince(Step(a, e, limits), id, t)
  {
    hide VisitFlow;
    if e.Visit? && e.id in a { VisitLeaves(a[e.id], e.now, e.taken, limits); }
  }

  lemma {:induction false} RunKeepsSince(a: Active, events: seq<Event>, id: string, t: int, limits: Timeouts)
    requires ExportedSince(a, id, t) && NoneBefore(events, t)
    ensures ExportedSince(Run(a, events, limits), id, t)
    decreases |events|
  {
    hide Step, ExportedSince;
    if events != [] {
      StepKeepsSince(a, events[0], id, t, limits);
      RunKeepsSince(Step(a, events[0], limits), events[1..], id, t, limits);
    }
  }

  /** Exports do not overlap: after an export that reached its end at `t`, no record sent for the flow by any
      later visit starts before `t`, whatever happens in between. */
  lemma ExportsDoNotOverlap(a: Active, id: string, t: int, taken: nat, events: seq<Event>, later: int, taken': nat, limits: Timeouts)
    requires id in a && !VisitFlow(a[id], t, taken, limits).failed
    requires t - a[id].updated >= limits.inactive || t - a[id].lastExport >= limits.active
    requires NoneBefore(events, t)
    ensures var a' := Run(Step(a, Visit(id, t, taken), limits), events, limits);
            id in a' ==> forall r <- VisitFlow(a'[id], later, taken', limits).sent :: r.firstSeen >= t
  {
    hide Step, Run, VisitFlow, Due, DueInactive;
    VisitStamps(a, id, t, taken, limits);
    RunKeepsSince(Step(a, Visit(id, t, taken), limits), events, id, t, limits);
    var a' := Run(Step(a, Visit(id, t, taken), limits), events, limits);
    if id in a' { RecordsStart(a'[id], later, taken', limits); }
  }

  // ---- Letting go --------------------------------------------------------------------------------------

  predicate NoUpdateOf(events: seq<Event>, id: string) {
    forall i :: 0 <= i < |events| ==> !(events[i].Update? && events[i].id == id)
  }

  /** The flow, if it is there, was last updated at `u`, with these counters. */
  predicate UpdatedAt(a: Active, id: string, u: int, flow: Flow) {
    id in a ==> a[id].updated == u && a[id].flow == flow
  }

  lemma StepKeepsUpdate(a: Active, e: Event, id: string, u: int, flow: Flow, limits: Timeouts)
    requires UpdatedAt(a, id, u, flow) && !(e.Update? && e.id == id)
    ensures UpdatedAt(Step(a, e, limits), id, u, flow)
  {
    hide VisitFlow;
    if e.Visit? && e.id in a { VisitLeaves(a[e.id], e.now, e.taken, limits); }
  }

  lemma {:induction false} RunKeepsUpdate(a: Active, events: seq<Event>, id: string, u: int, flow: Flow, limits: Timeouts)
    requires UpdatedAt(a, id, u, flow) && NoUpdateOf(events, id)
    ensures UpdatedAt(Run(a, events, limits), id, u, flow)
    decreases |events|
  {
    hide Step, UpdatedAt;
    if events != [] {
      StepKeepsUpdate(a, events[0], id, u, flow, limits);
      RunKeepsUpdate(Step(a, events[0], limits), events[1..], id, u, flow, limits);
    }
  }

  /** A flow is only let go when its last update is as long ago as the idle limit says. */
  lemma LetGoIsIdle(a: Active, id: string, flow: Flow, u: int, events: seq<Event>, now: int, taken: nat, limits: Timeouts)
    requires NoUpdateOf(events, id)
    requires var a' := Run(Step(a, Update(id, flow, u), limits), events, limits);
             id in a' && id !in Step(a', Visit(id, now, taken), limits)
    ensures now - u >= limits.inactive
  {
    hide Run, Restarted, DirectionalFlows, DeltaFlow;
    var a1 := Step(a, Update(id, flow, u), limits);
    RunKeepsUpdate(a1, events, id, u, flow, limits);
  }

  /** A visit that comes too early does nothing: the last update is not idle long enough, and the last export
      not long enough ago. */
  lemma EarlyVisitIsIdle(a: Active, id: string, now: int, taken: nat, limits: Timeouts)
    requires id in a && now - a[id].updated < limits.inactive && now - a[id].lastExport < limits.active
    ensures Step(a, Visit(id, now, taken), limits) == a && VisitFlow(a[id], now, taken, limits).sent == []
  {
    hide Restarted, DirectionalFlows, DeltaFlow;
    assert a[id := a[id]] == a;
  }
}
