/** Delta accounting of a flow export worker: what was sent for a flow, against its counters. */
module ExportAccounting {
  import opened Text

  // ---- Flows ------------------------------------------------------------------------------------

  datatype Counters = Counters(packetsTx: nat, packetsRx: nat, bytesTx: nat, bytesRx: nat)

  const ZERO := Counters(0, 0, 0, 0)

  function Plus(a: Counters, b: Counters): Counters {
    Counters(a.packetsTx + b.packetsTx, a.packetsRx + b.packetsRx, a.bytesTx + b.bytesTx, a.bytesRx + b.bytesRx)
  }

  predicate AtMost(a: Counters, b: Counters) {
    a.packetsTx <= b.packetsTx && a.packetsRx <= b.packetsRx && a.bytesTx <= b.bytesTx && a.bytesRx <= b.bytesRx
  }

  function Minus(a: Counters, b: Counters): Counters
    requires AtMost(b, a)
  {
    Counters(a.packetsTx - b.packetsTx, a.packetsRx - b.packetsRx, a.bytesTx - b.bytesTx, a.bytesRx - b.bytesRx)
  }

  datatype Direction = Outbound | Inbound | Unknown
  datatype Flow = Flow(count: Counters, direction: Direction, firstSeen: int)

  /** A flow under observation, what was exported of it, and two clock readings. */
  datatype FlowState = FlowState(flow: Flow, marks: Counters, lastExport: int, updated: int)

  type Active = map<string, FlowState>

  // ---- One export ---------------------------------------------------------------------------------

  /** The counters restarted below what was already exported. */
  predicate Restarted(st: FlowState) { !AtMost(st.marks, st.flow.count) }

  /** The state with the marks cleared after a restart, and what is still to be exported. */
  function DeltaFlow(st: FlowState): (r: (FlowState, Flow))
    ensures AtMost(r.0.marks, st.flow.count)
    ensures Plus(r.0.marks, r.1.count) == st.flow.count
  {
    var st' := if Restarted(st) then st.(marks := ZERO) else st;
    var from := if st.lastExport > st.flow.firstSeen then st.lastExport else st.flow.firstSeen;
    (st', st.flow.(count := Minus(st.flow.count, st'.marks), firstSeen := from))
  }

  /** One record per direction with traffic. */
  function DirectionalFlows(f: Flow): (records: seq<Flow>)
    ensures 1 <= |records| <= 2
  {
    var c := f.count;
    var tx := if c.packetsTx > 0 || c.bytesTx > 0
              then [f.(direction := Outbound, count := Counters(c.packetsTx, 0, c.bytesTx, 0))] else [];
    var rx := if c.packetsRx > 0 || c.bytesRx > 0
              then [f.(direction := Inbound, count := Counters(0, c.packetsRx, 0, c.bytesRx))] else [];
    if tx + rx == [] then [f] else tx + rx
  }

  function Sum(records: seq<Flow>): Counters {
    if records == [] then ZERO else Plus(Sum(records[..|records| - 1]), records[|records| - 1].count)
  }

  lemma SumOfOne(f: Flow)
    ensures Sum([f]) == f.count
  {
    hide Plus;
    assert [f][..0] == [];
    PlusZero(f.count);
  }

  lemma SumOfTwo(f: Flow, g: Flow)
    ensures Sum([f, g]) == Plus(f.count, g.count)
  {
    hide Plus;
    assert [f, g][..1] == [f];
    SumOfOne(f);
  }

  lemma PlusZero(c: Counters)
    ensures Plus(ZERO, c) == c && Plus(c, ZERO) == c
  {}

  /** The records carry the delta, and no part of them that was written is empty. */
  lemma RecordsCarryFlow(f: Flow)
    ensures Sum(DirectionalFlows(f)) == f.count
    ensures f.count != ZERO ==> forall k :: 0 < k < |DirectionalFlows(f)| ==> Sum(DirectionalFlows(f)[..k]) != ZERO
  {
    hide Sum;
    var r := DirectionalFlows(f);
    if |r| == 2 {
      assert r == [r[0], r[1]] && r[..1] == [r[0]];
      SumOfTwo(r[0], r[1]);
      SumOfOne(r[0]);
    } else {
      assert r == [r[0]];
      SumOfOne(r[0]);
    }
  }

  /** The traffic sent goes out as outbound and the traffic received as inbound, each with its own
      counters alone; a flow without traffic stays as it is. */
  lemma RecordsHaveDirections(f: Flow)
    ensures var c := f.count; var r := DirectionalFlows(f);
            var sent, received := c.packetsTx + c.bytesTx > 0, c.packetsRx + c.bytesRx > 0;
            && (forall k :: 0 <= k < |r| ==> r[k].firstSeen == f.firstSeen)
            && (!sent && !received ==> r == [f])
            && (sent ==> r[0].direction == Outbound && r[0].count == Counters(c.packetsTx, 0, c.bytesTx, 0))
            && (received ==> r[|r| - 1].direction == Inbound && r[|r| - 1].count == Counters(0, c.packetsRx, 0, c.bytesRx))
            && |r| == if sent && received then 2 else 1
  {}

  // ---- Events -------------------------------------------------------------------------------------

  datatype Timeouts = Timeouts(active: int, inactive: int)

  /** A flow update from the queue, or the visit of one flow in a flush, in which the connection
      takes `taken` records before a write fails. */
  datatype Event = Update(id: string, flow: Flow, now: int)
                 | Visit(id: string, now: int, taken: nat)

  /** What a visit does: the state left behind (none when the flow is dropped), what was written,
      and whether a write failed. */
  datatype Visited = Visited(st: Option<FlowState>, sent: seq<Flow>, failed: bool)

  predicate DueInactive(st: FlowState, now: int, limits: Timeouts) { now - st.updated >= limits.inactive }
  predicate Due(st: FlowState, now: int, limits: Timeouts) {
    DueInactive(st, now, limits) || now - st.lastExport >= limits.active
  }

  function Settle(st: FlowState, now: int, drop: bool): Option<FlowState> {
    if drop then None else Some(st.(lastExport := now))
  }

  function VisitFlow(st: FlowState, now: int, taken: nat, limits: Timeouts): Visited {
    if !Due(st, now, limits) then Visited(Some(st), [], false)
    else
      var (st', delta) := DeltaFlow(st);
      var drop := DueInactive(st, now, limits);
      if delta.count == ZERO then Visited(Settle(st', now, drop), [], false)
      else
        var records := DirectionalFlows(delta);
        if taken < |records| then Visited(Some(st'), records[..taken], true)
        else Visited(Settle(st'.(marks := st.flow.count), now, drop), records, false)
  }

  function Put(a: Active, id: string, st: Option<FlowState>): Active {
    if st.Some? then a[id := st.value] else a - {id}
  }

  function Step(a: Active, e: Event, limits: Timeouts): Active {
    match e
    case Update(id, flow, now) =>
      var st := if id in a then a[id] else FlowState(flow, ZERO, now, now);
      a[id := st.(flow := flow, updated := now)]
    case Visit(id, now, taken) =>
      if id in a then Put(a, id, VisitFlow(a[id], now, taken, limits).st) else a
  }

  function Run(a: Active, events: seq<Event>, limits: Timeouts): Active
    decreases |events|
  {
    if events == [] then a else Run(Step(a, events[0], limits), events[1..], limits)
  }

  // ---- The books ------------------------------------------------------------------------------------

  function Visiting(a: Active, e: Event, id: string, limits: Timeouts): Option<Visited> {
    if e.Visit? && e.id == id && id in a then Some(VisitFlow(a[id], e.now, e.taken, limits)) else None
  }

  /** What an event sends for a flow. */
  function Sent(a: Active, e: Event, id: string, limits: Timeouts): Counters {
    var v := Visiting(a, e, id, limits);
    if v.Some? then Sum(v.value.sent) else ZERO
  }

  /** What it sends in an export that then fails, and that will be sent again. */
  function Wasted(a: Active, e: Event, id: string, limits: Timeouts): Counters {
    var v := Visiting(a, e, id, limits);
    if v.Some? && v.value.failed then Sum(v.value.sent) else ZERO
  }

  function Marks(a: Active, id: string): Counters {
    if id in a then a[id].marks else ZERO
  }

  /** Marks that disappear because the counters restarted. */
  function Cleared(a: Active, e: Event, id: string, limits: Timeouts): Counters {
    if e.Visit? && e.id == id && id in a && Due(a[id], e.now, limits) && Restarted(a[id]) then a[id].marks else ZERO
  }

  predicate Ends(a: Active, e: Event, id: string, limits: Timeouts) {
    id in a && id !in Step(a, e, limits)
  }

  /** The last observed counters of a flow that is dropped. */
  function Ended(a: Active, e: Event, id: string, limits: Timeouts): Counters {
    if Ends(a, e, id, limits) then a[id].flow.count else ZERO
  }

  /** What was marked and what is sent is what is marked now, what was wasted, what was cleared and
      what ended. */
  ghost predicate Balanced(before: Counters, sent: Counters, after: Counters, b: Counters, c: Counters, e: Counters) {
    && before.packetsTx + sent.packetsTx == after.packetsTx + b.packetsTx + c.packetsTx + e.packetsTx
    && before.packetsRx + sent.packetsRx == after.packetsRx + b.packetsRx + c.packetsRx + e.packetsRx
    && before.bytesTx + sent.bytesTx == after.bytesTx + b.bytesTx + c.bytesTx + e.bytesTx
    && before.bytesRx + sent.bytesRx == after.bytesRx + b.bytesRx + c.bytesRx + e.bytesRx
  }

  lemma BalanceChain(m: Counters, s: Counters, m1: Counters, w: Counters, c: Counters, e: Counters,
                     s1: Counters, m2: Counters, w1: Counters, c1: Counters, e1: Counters)
    requires Balanced(m, s, m1, w, c, e) && Balanced(m1, s1, m2, w1, c1, e1)
    ensures Balanced(m, Plus(s, s1), m2, Plus(w, w1), Plus(c, c1), Plus(e, e1))
  {}

  function IfOr(b: bool, c: Counters): Counters { if b then c else ZERO }

  lemma DeltaBalance(st: FlowState)
    ensures var (st', delta) := DeltaFlow(st);
            && st'.flow == st.flow && AtMost(st'.marks, st.flow.count)
            && st'.marks in {st.marks, ZERO}
            && Balanced(st.marks, delta.count, st.flow.count, ZERO, IfOr(Restarted(st), st.marks), ZERO)
            && Balanced(st.marks, ZERO, st'.marks, ZERO, IfOr(Restarted(st), st.marks), ZERO)
            && (delta.count == ZERO ==> st'.marks == st.flow.count)
  {}

  lemma NothingMoves(m: Counters)
    ensures Balanced(m, ZERO, m, ZERO, ZERO, ZERO)
  {}

  lemma WasteBalance(m: Counters, m1: Counters, c: Counters, s: Counters)
    requires Balanced(m, ZERO, m1, ZERO, c, ZERO)
    ensures Balanced(m, s, m1, s, c, ZERO)
  {}

  lemma EndBalance(m: Counters, s: Counters, m1: Counters, w: Counters, c: Counters)
    requires Balanced(m, s, m1, w, c, ZERO)
    ensures Balanced(m, s, ZERO, w, c, m1)
  {}

  lemma VisitBalance(st: FlowState, now: int, taken: nat, limits: Timeouts)
    ensures var v := VisitFlow(st, now, taken, limits);
            var marks := if v.st.Some? then v.st.value.marks else st.flow.count;
            && Balanced(st.marks, Sum(v.sent), marks, IfOr(v.failed, Sum(v.sent)),
                        IfOr(Due(st, now, limits) && Restarted(st), st.marks), ZERO)
            && (v.st.Some? ==> v.st.value.flow == st.flow && v.st.value.marks in {st.marks, ZERO, st.flow.count})
  {
    hide DirectionalFlows, Sum, DeltaFlow, Restarted, AtMost, Due, DueInactive, Balanced, Plus;
    SumNothing();
    NothingMoves(st.marks);
    if Due(st, now, limits) {
      DeltaBalance(st);
      var (st', delta) := DeltaFlow(st);
      var records := DirectionalFlows(delta);
      RecordsCarryFlow(delta);
      if delta.count != ZERO && taken < |records| {
        WasteBalance(st.marks, st'.marks, IfOr(Restarted(st), st.marks), Sum(records[..taken]));
      }
    }
  }

  /** One event: what is sent is what the marks gain, what is wasted, and what left the marks. */
  lemma StepBalance(a: Active, e: Event, id: string, limits: Timeouts)
    ensures Balanced(Marks(a, id), Sent(a, e, id, limits), Marks(Step(a, e, limits), id),
                     Wasted(a, e, id, limits), Cleared(a, e, id, limits), Ended(a, e, id, limits))
  {
    hide VisitFlow, Sum, Restarted, Due, DueInactive, Balanced;
    NothingMoves(Marks(a, id));
    if e.Visit? && e.id == id && id in a {
      var st := a[id];
      VisitBalance(st, e.now, e.taken, limits);
      var v := VisitFlow(st, e.now, e.taken, limits);
      if v.st.None? {
        EndBalance(st.marks, Sum(v.sent), st.flow.count, IfOr(v.failed, Sum(v.sent)),
                   IfOr(Due(st, e.now, limits) && Restarted(st), st.marks));
      }
    }
  }

  lemma SumNothing()
    ensures Sum([]) == ZERO
  {}

  /** The same four quantities over a run. */
  datatype Books = Books(sent: Counters, wasted: Counters, cleared: Counters, ended: Counters)

  function Account(a: Active, events: seq<Event>, id: string, limits: Timeouts): Books
    decreases |events|
  {
    if events == [] then Books(ZERO, ZERO, ZERO, ZERO)
    else
      var e := events[0];
      var b := Account(Step(a, e, limits), events[1..], id, limits);
      Books(Plus(Sent(a, e, id, limits), b.sent), Plus(Wasted(a, e, id, limits), b.wasted),
            Plus(Cleared(a, e, id, limits), b.cleared), Plus(Ended(a, e, id, limits), b.ended))
  }

  /** The conservation law, for every run, whatever is written, restarted or dropped in it. */
  lemma {:induction false} Conservation(a: Active, events: seq<Event>, id: string, limits: Timeouts)
    ensures var b := Account(a, events, id, limits);
            Balanced(Marks(a, id), b.sent, Marks(Run(a, events, limits), id), b.wasted, b.cleared, b.ended)
    decreases |events|
  {
    hide Step, Sent, Wasted, Cleared, Ended, Marks, Balanced, Plus;
    if events == [] {
      NothingMoves(Marks(a, id));
    } else {
      var e := events[0];
      var next := Step(a, e, limits);
      var b := Account(next, events[1..], id, limits);
      StepBalance(a, e, id, limits);
      Conservation(next, events[1..], id, limits);
      BalanceChain(Marks(a, id), Sent(a, e, id, limits), Marks(next, id), Wasted(a, e, id, limits),
                   Cleared(a, e, id, limits), Ended(a, e, id, limits),
                   b.sent, Marks(Run(next, events[1..], limits), id), b.wasted, b.cleared, b.ended);
    }
  }

  // ---- Counters that never decrease ------------------------------------------------------------------

  /** Each update of a flow that is still observed has counters no smaller than the one before. */
  predicate NonDecreasing(a: Active, events: seq<Event>, id: string, limits: Timeouts)
    decreases |events|
  {
    events == [] ||
    ((events[0].Update? && events[0].id == id && id in a ==> AtMost(a[id].flow.count, events[0].flow.count)) &&
     NonDecreasing(Step(a, events[0], limits), events[1..], id, limits))
  }

  predicate MarksWithin(a: Active, id: string) {
    id in a ==> AtMost(a[id].marks, a[id].flow.count)
  }

  lemma MarksStayWithin(a: Active, e: Event, id: string, limits: Timeouts)
    requires MarksWithin(a, id)
    requires e.Update? && e.id == id && id in a ==> AtMost(a[id].flow.count, e.flow.count)
    ensures MarksWithin(Step(a, e, limits), id) && Cleared(a, e, id, limits) == ZERO
  {
    hide VisitFlow, Sum, Due, DueInactive;
    if e.Visit? && e.id == id && id in a {
      VisitBalance(a[id], e.now, e.taken, limits);
    }
  }

  lemma {:induction false} NothingIsCleared(a: Active, events: seq<Event>, id: string, limits: Timeouts)
    requires MarksWithin(a, id) && NonDecreasing(a, events, id, limits)
    ensures Account(a, events, id, limits).cleared == ZERO
    decreases |events|
  {
    hide VisitFlow, Sum, Due, DueInactive, Step;
    if events != [] {
      MarksStayWithin(a, events[0], id, limits);
      NothingIsCleared(Step(a, events[0], limits), events[1..], id, limits);
    }
  }

  /** No export of the flow fails after one of its records was written. */
  predicate NoPartialExport(a: Active, events: seq<Event>, id: string, limits: Timeouts)
    decreases |events|
  {
    events == [] ||
    (var v := Visiting(a, events[0], id, limits);
     (v.Some? && v.value.failed ==> v.value.sent == []) &&
     NoPartialExport(Step(a, events[0], limits), events[1..], id, limits))
  }

  lemma WasteOfStep(a: Active, e: Event, id: string, limits: Timeouts)
    ensures var v := Visiting(a, e, id, limits);
            Wasted(a, e, id, limits) == ZERO <==> (v.Some? && v.value.failed ==> v.value.sent == [])
  {
    hide VisitFlow, Sum;
    SumNothing();
    if e.Visit? && e.id == id && id in a {
      WasteOfVisit(a[id], e.now, e.taken, limits);
    }
  }

  lemma WasteOfVisit(st: FlowState, now: int, taken: nat, limits: Timeouts)
    ensures var v := VisitFlow(st, now, taken, limits); v.failed && v.sent != [] ==> Sum(v.sent) != ZERO
  {
    hide DirectionalFlows, Sum, DeltaFlow, Due, DueInactive;
    RecordsCarryFlow(DeltaFlow(st).1);
  }

  lemma PartsOfZero(c: Counters, d: Counters)
    requires Plus(c, d) == ZERO
    ensures c == ZERO
  {}

  lemma PlusIsZero(c: Counters, d: Counters)
    ensures Plus(c, d) == ZERO <==> c == ZERO && d == ZERO
  {
    hide Plus, ZERO;
    PlusZero(ZERO);
    PlusCommutes(c, d);
    if Plus(c, d) == ZERO {
      PartsOfZero(c, d);
      PartsOfZero(d, c);
    }
  }

  lemma PlusCommutes(c: Counters, d: Counters)
    ensures Plus(c, d) == Plus(d, c)
  {}

  lemma {:induction false} NothingWastedIff(a: Active, events: seq<Event>, id: string, limits: Timeouts)
    ensures Account(a, events, id, limits).wasted == ZERO <==> NoPartialExport(a, events, id, limits)
    decreases |events|
  {
    hide Step, Sent, Wasted, Cleared, Ended, Visiting, Plus, ZERO;
    if events != [] {
      var e := events[0];
      var next := Step(a, e, limits);
      WasteOfStep(a, e, id, limits);
      PlusIsZero(Wasted(a, e, id, limits), Account(next, events[1..], id, limits).wasted);
      NothingWastedIff(next, events[1..], id, limits);
    }
  }

  /** With counters that never decrease, from a worker that does not know the flow: what was sent
      is the last observed counters of every ended lifetime plus the marks of the present one -
      exactly so if and only if no export failed half way, and never less. */
  lemma SentIsSumOverLifetimes(a: Active, events: seq<Event>, id: string, limits: Timeouts)
    requires id !in a && NonDecreasing(a, events, id, limits)
    ensures var b := Account(a, events, id, limits); var due := Plus(b.ended, Marks(Run(a, events, limits), id));
            && AtMost(due, b.sent)
            && (b.sent == due <==> NoPartialExport(a, events, id, limits))
  {
    hide Account, Run, NonDecreasing, NoPartialExport;
    Conservation(a, events, id, limits);
    NothingIsCleared(a, events, id, limits);
    NothingWastedIff(a, events, id, limits);
  }

  lemma VisitCatchesUp(st: FlowState, now: int, taken: nat, limits: Timeouts)
    requires Due(st, now, limits) && !VisitFlow(st, now, taken, limits).failed
    ensures var v := VisitFlow(st, now, taken, limits);
            v.st.Some? ==> v.st.value.marks == v.st.value.flow.count == st.flow.count
  {
    hide DirectionalFlows, Sum, DeltaFlow, AtMost, Due, DueInactive, Balanced;
    DeltaBalance(st);
  }

  /** A successful export leaves nothing behind: the marks are the observed counters. */
  lemma ExportCatchesUp(a: Active, id: string, now: int, taken: nat, limits: Timeouts)
    requires id in a && Due(a[id], now, limits) && !VisitFlow(a[id], now, taken, limits).failed
    ensures var a' := Step(a, Visit(id, now, taken), limits);
            id in a' ==> a'[id].marks == a'[id].flow.count == a[id].flow.count
  {
    hide VisitFlow, Due;
    VisitCatchesUp(a[id], now, taken, limits);
  }

  // ---- When traffic is counted once ------------------------------------------------------------------

  /** No record is refused: nothing is left to send, or the connection takes all of it. */
  predicate Completes(st: FlowState, taken: nat) {
    var delta := DeltaFlow(st).1;
    delta.count == ZERO || taken >= |DirectionalFlows(delta)|
  }

  /** A visit after the idle limit, with the connection up, of a flow that has seen traffic. */
  predicate ForgetsTraffic(a: Active, e: Event, id: string, limits: Timeouts) {
    && e.Visit? && e.id == id && id in a
    && DueInactive(a[id], e.now, limits) && Completes(a[id], e.taken)
    && a[id].flow.count != ZERO
  }

  predicate NoneForgotten(a: Active, events: seq<Event>, id: string, limits: Timeouts)
    decreases |events|
  {
    events == [] ||
    (!ForgetsTraffic(a, events[0], id, limits) &&
     NoneForgotten(Step(a, events[0], limits), events[1..], id, limits))
  }

  lemma DropIff(st: FlowState, now: int, taken: nat, limits: Timeouts)
    ensures VisitFlow(st, now, taken, limits).st.None? <==> DueInactive(st, now, limits) && Completes(st, taken)
  {
    hide DirectionalFlows, DeltaFlow, DueInactive;
  }

  lemma EndedStep(a: Active, e: Event, id: string, limits: Timeouts)
    ensures Ended(a, e, id, limits) == ZERO <==> !ForgetsTraffic(a, e, id, limits)
  {
    hide VisitFlow, DueInactive, Completes;
    if e.Visit? && id in a { DropIff(a[id], e.now, e.taken, limits); }
  }

  lemma {:induction false} NothingEndedIff(a: Active, events: seq<Event>, id: string, limits: Timeouts)
    ensures Account(a, events, id, limits).ended == ZERO <==> NoneForgotten(a, events, id, limits)
    decreases |events|
  {
    hide Step, Sent, Wasted, Cleared, Ended, ForgetsTraffic, Plus, ZERO;
    if events != [] {
      var e := events[0];
      var next := Step(a, e, limits);
      EndedStep(a, e, id, limits);
      PlusIsZero(Ended(a, e, id, limits), Account(next, events[1..], id, limits).ended);
      NothingEndedIff(next, events[1..], id, limits);
    }
  }

  /** A due visit that finds the counters below what was exported. */
  predicate FindsRestart(a: Active, e: Event, id: string, limits: Timeouts) {
    && e.Visit? && e.id == id && id in a
    && Due(a[id], e.now, limits) && !AtMost(a[id].marks, a[id].flow.count)
  }

  predicate NoRestart(a: Active, events: seq<Event>, id: string, limits: Timeouts)
    decreases |events|
  {
    events == [] ||
    (!FindsRestart(a, events[0], id, limits) &&
     NoRestart(Step(a, events[0], limits), events[1..], id, limits))
  }

  lemma {:induction false} NothingClearedIff(a: Active, events: seq<Event>, id: string, limits: Timeouts)
    ensures Account(a, events, id, limits).cleared == ZERO <==> NoRestart(a, events, id, limits)
    decreases |events|
  {
    hide Step, Sent, Wasted, Cleared, Ended, FindsRestart, Plus, ZERO;
    if events != [] {
      var e := events[0];
      var next := Step(a, e, limits);
      ClearedStep(a, e, id, limits);
      PlusIsZero(Cleared(a, e, id, limits), Account(next, events[1..], id, limits).cleared);
      NothingClearedIff(next, events[1..], id, limits);
    }
  }

  lemma ClearedStep(a: Active, e: Event, id: string, limits: Timeouts)
    ensures Cleared(a, e, id, limits) == ZERO <==> !FindsRestart(a, e, id, limits)
  {
    hide Due;
  }

  /** The flow store keeps cumulative counters, the worker forgets its marks when it drops a flow.
      Whenever the marks have caught up, the total sent is the flow's counters - each packet and
      octet counted once - if and only if no visit dropped the flow after it had seen traffic, no
      export failed half way, and no due visit found restarted counters. */
  lemma CountedOnceIff(a: Active, events: seq<Event>, id: string, limits: Timeouts)
    requires id !in a
    requires var w := Run(a, events, limits);
             id in w && w[id].marks == w[id].flow.count
    ensures Account(a, events, id, limits).sent == Run(a, events, limits)[id].flow.count <==>
            NoneForgotten(a, events, id, limits) && NoPartialExport(a, events, id, limits) && NoRestart(a, events, id, limits)
  {
    hide Account, Run, NoneForgotten, NoPartialExport, NoRestart;
    Conservation(a, events, id, limits);
    NothingEndedIff(a, events, id, limits);
    NothingWastedIff(a, events, id, limits);
    NothingClearedIff(a, events, id, limits);
  }

  lemma FirstVisit(flow: Flow, from: int, now: int, limits: Timeouts)
    requires Due(FlowState(flow, ZERO, from, from), now, limits)
    ensures var st := FlowState(flow, ZERO, from, from); var v := VisitFlow(st, now, 2, limits);
            Sum(v.sent) == flow.count && (v.st.None? <==> DueInactive(st, now, limits))
  {
    hide DirectionalFlows, Sum, Due, DueInactive, DeltaFlow;
    var st := FlowState(flow, ZERO, from, from);
    FirstDelta(st);
    SumNothing();
    RecordsCarryFlow(DeltaFlow(st).1);
  }

  lemma FirstDelta(st: FlowState)
    requires st.marks == ZERO
    ensures DeltaFlow(st).1.count == st.flow.count
  {}

  /** Any flow that falls silent for the idle limit and then goes on is counted twice: dropped at
      `idle`, updated again at `later` with counters that went on, and exported at `due`. */
  lemma SilentFlowIsCountedTwice(id: string, before: Flow, after: Flow, start: int, idle: int, later: int, due: int,
                                 limits: Timeouts)
    requires before.count != ZERO && AtMost(before.count, after.count)
    requires idle - start >= limits.inactive && due - later >= limits.active
    ensures var events := [Update(id, before, start), Visit(id, idle, 2), Update(id, after, later), Visit(id, due, 2)];
            var sent := Account(map[], events, id, limits).sent;
            sent == Plus(before.count, after.count) && sent != after.count
  {
    hide *;
    var e0, e1, e2, e3 := Update(id, before, start), Visit(id, idle, 2), Update(id, after, later), Visit(id, due, 2);
    var a1, a3 := Only(id, before, start), Only(id, after, later);
    FirstUpdate(id, before, start, limits);
    FirstUpdate(id, after, later, limits);
    VisitOnly(id, before, start, idle, limits);
    VisitOnly(id, after, later, due, limits);
    FourSent(map[], a1, map[], a3, e0, e1, e2, e3, id, limits);
    SumsDiffer(before.count, after.count);
  }

  function Only(id: string, flow: Flow, now: int): Active {
    map[id := FlowState(flow, ZERO, now, now)]
  }

  lemma FirstUpdate(id: string, flow: Flow, now: int, limits: Timeouts)
    ensures Step(map[], Update(id, flow, now), limits) == Only(id, flow, now)
    ensures Sent(map[], Update(id, flow, now), id, limits) == ZERO
  {}

  lemma VisitOnly(id: string, flow: Flow, from: int, now: int, limits: Timeouts)
    ensures var a := Only(id, flow, from); var e := Visit(id, now, 2);
            && (now - from >= limits.inactive || now - from >= limits.active ==> Sent(a, e, id, limits) == flow.count)
            && (now - from >= limits.inactive ==> Step(a, e, limits) == map[])
  {
    hide VisitFlow, Sum;
    if now - from >= limits.inactive || now - from >= limits.active { FirstVisit(flow, from, now, limits); }
  }

  lemma SumsDiffer(c: Counters, d: Counters)
    ensures Plus(ZERO, Plus(c, Plus(ZERO, d))) == Plus(c, d)
    ensures c != ZERO ==> Plus(c, d) != d
  {}

  lemma FourSent(a0: Active, a1: Active, a2: Active, a3: Active, e0: Event, e1: Event, e2: Event, e3: Event,
                 id: string, limits: Timeouts)
    requires Step(a0, e0, limits) == a1 && Step(a1, e1, limits) == a2 && Step(a2, e2, limits) == a3
    ensures Account(a0, [e0, e1, e2, e3], id, limits).sent ==
            Plus(Sent(a0, e0, id, limits), Plus(Sent(a1, e1, id, limits), Plus(Sent(a2, e2, id, limits), Sent(a3, e3, id, limits))))
  {
    hide *;
    AccountOfNothing(Step(a3, e3, limits), id, limits);
    AccountOfNext(a3, e3, [], id, limits);
    AccountOfNext(a2, e2, [e3], id, limits);
    AccountOfNext(a1, e1, [e2, e3], id, limits);
    AccountOfNext(a0, e0, [e1, e2, e3], id, limits);
    PlusZero(Sent(a3, e3, id, limits));
    assert [e3] + [] == [e3] && [e2] + [e3] == [e2, e3] && [e1] + [e2, e3] == [e1, e2, e3];
    assert [e0] + [e1, e2, e3] == [e0, e1, e2, e3];
  }

  lemma AccountOfNext(a: Active, e: Event, rest: seq<Event>, id: string, limits: Timeouts)
    ensures Account(a, [e] + rest, id, limits).sent ==
            Plus(Sent(a, e, id, limits), Account(Step(a, e, limits), rest, id, limits).sent)
  {
    hide Step, Sent, Wasted, Cleared, Ended, Plus;
    assert ([e] + rest)[1..] == rest;
  }

  lemma AccountOfNothing(a: Active, id: string, limits: Timeouts)
    ensures Account(a, [], id, limits).sent == ZERO
  {}

  // ---- The worker -------------------------------------------------------------------------------------

  type Written = seq<(string, Flow)>

  function Tag(id: string, records: seq<Flow>): Written {
    seq(|records|, i requires 0 <= i < |records| => (id, records[i]))
  }

  /** Everything a run writes, in order. */
  function Writes(a: Active, events: seq<Event>, limits: Timeouts): Written
    decreases |events|
  {
    if events == [] then []
    else
      var e := events[0];
      (if e.Visit? && e.id in a then Tag(e.id, VisitFlow(a[e.id], e.now, e.taken, limits).sent) else [])
      + Writes(Step(a, e, limits), events[1..], limits)
  }

  /** The total of the records written for a flow. */
  function Total(w: Written, id: string): Counters {
    if w == [] then ZERO
    else Plus(Total(w[..|w| - 1], id), if w[|w| - 1].0 == id then w[|w| - 1].1.count else ZERO)
  }

  lemma PlusAssoc(a: Counters, b: Counters, c: Counters)
    ensures Plus(Plus(a, b), c) == Plus(a, Plus(b, c))
  {}

  lemma {:induction false} TotalConcat(v: Written, w: Written, id: string)
    ensures Total(v + w, id) == Plus(Total(v, id), Total(w, id))
    decreases |w|
  {
    hide Plus;
    if w == [] {
      assert v + w == v;
      PlusZero(Total(v, id));
    } else {
      assert (v + w)[..|v + w| - 1] == v + w[..|w| - 1];
      TotalConcat(v, w[..|w| - 1], id);
      PlusAssoc(Total(v, id), Total(w[..|w| - 1], id), if w[|w| - 1].0 == id then w[|w| - 1].1.count else ZERO);
    }
  }

  lemma {:induction false} TotalOfTag(owner: string, records: seq<Flow>, id: string)
    ensures Total(Tag(owner, records), id) == if owner == id then Sum(records) else ZERO
    decreases |records|
  {
    hide Plus;
    if records != [] {
      var front := records[..|records| - 1];
      TotalOfTag(owner, front, id);
      assert Tag(owner, records)[..|records| - 1] == Tag(owner, front);
      PlusZero(ZERO);
    }
  }

  /** The books agree with what is on the wire. */
  lemma {:induction false} TotalIsSent(a: Active, events: seq<Event>, id: string, limits: Timeouts)
    ensures Total(Writes(a, events, limits), id) == Account(a, events, id, limits).sent
    decreases |events|
  {
    hide Plus, Step, VisitFlow, Wasted, Cleared, Ended, Tag, Sum, Total;
    if events == [] {
      TotalOfTag(id, [], id);
      SumNothing();
      TotalOfNothing(id);
    } else {
      var e := events[0];
      TotalIsSent(Step(a, e, limits), events[1..], id, limits);
      var rest := Writes(Step(a, e, limits), events[1..], limits);
      TotalOfNothing(id);
      if e.Visit? && e.id in a {
        var sent := VisitFlow(a[e.id], e.now, e.taken, limits).sent;
        TotalOfTag(e.id, sent, id);
        TotalConcat(Tag(e.id, sent), rest, id);
      } else {
        TotalConcat([], rest, id);
      }
    }
  }

  lemma TotalOfNothing(id: string)
    ensures Total([], id) == ZERO
  {}

  function Visits(order: seq<string>, now: int, takes: map<string, nat>): seq<Event> {
    seq(|order|, i requires 0 <= i < |order| => Visit(order[i], now, Takes(takes, order[i])))
  }

  /** How many records of a flow the connection takes in this flush: all of them unless a write fails. */
  function Takes(takes: map<string, nat>, id: string): nat { if id in takes then takes[id] else 2 }

  lemma {:induction false} RunSnoc(a: Active, events: seq<Event>, e: Event, limits: Timeouts)
    ensures Run(a, events + [e], limits) == Step(Run(a, events, limits), e, limits)
    ensures var b := Run(a, events, limits);
            Writes(a, events + [e], limits) == Writes(a, events, limits) +
            if e.Visit? && e.id in b then Tag(e.id, VisitFlow(b[e.id], e.now, e.taken, limits).sent) else []
    decreases |events|
  {
    hide Step, VisitFlow, Tag;
    if events == [] {
      assert [] + [e] == [e] && [e][1..] == [];
    } else {
      assert (events + [e])[1..] == events[1..] + [e];
      RunSnoc(Step(a, events[0], limits), events[1..], e, limits);
    }
  }

  class Worker {
    const limits: Timeouts
    var active: Active

    constructor (limits: Timeouts)
      ensures this.limits == limits && active == map[]
    {
      this.limits := limits;
      active := map[];
    }

    method UpdateFlow(id: string, flow: Flow, now: int)
      modifies this
      ensures active == Step(old(active), Update(id, flow, now), limits)
    {
      if id !in active {
        active := active[id := FlowState(flow, ZERO, now, now)];
      }
      active := active[id := active[id].(flow := flow, updated := now)];
    }

    /** Writes the records one after the other until the connection refuses one. */
    method Export(delta: Flow, taken: nat) returns (sent: seq<Flow>, ok: bool)
      ensures var records := DirectionalFlows(delta);
              ok == (taken >= |records|) && sent == if ok then records else records[..taken]
    {
      var records := DirectionalFlows(delta);
      sent := [];
      for i := 0 to |records|
        invariant sent == records[..i] && i <= taken
      {
        if i == taken {
          return sent, false;
        }
        sent := sent + [records[i]];
      }
      return sent, true;
    }

    /** One flow of a flush. */
    method VisitOne(id: string, now: int, taken: nat) returns (sent: seq<Flow>, ok: bool)
      requires id in active
      modifies this
      ensures active == Step(old(active), Visit(id, now, taken), limits)
      ensures var v := VisitFlow(old(active)[id], now, taken, limits); sent == v.sent && ok == !v.failed
    {
      hide DirectionalFlows, DeltaFlow;
      var st := active[id];
      if !Due(st, now, limits) {
        return [], true;
      }
      var drop := DueInactive(st, now, limits);
      var (st', delta) := DeltaFlow(st);
      active := active[id := st'];
      sent := [];
      if delta.count != ZERO {
        sent, ok := Export(delta, taken);
        if !ok {
          return;
        }
        st' := st'.(marks := st.flow.count);
      }
      active := active[id := st'.(lastExport := now)];
      if drop {
        active := active - {id};
      }
      ok := true;
    }

    /** Visits the flows in some order, each once, up to the first failure. */
    method FlushDue(now: int, takes: map<string, nat>)
      returns (written: Written, ok: bool, ghost order: seq<string>)
      modifies this
      ensures active == Run(old(active), Visits(order, now, takes), limits)
      ensures written == Writes(old(active), Visits(order, now, takes), limits)
      ensures forall i, j :: 0 <= i < j < |order| ==> order[i] != order[j]
      ensures forall id <- order :: id in old(active)
      ensures ok ==> forall id <- old(active) :: id in order
    {
      hide VisitFlow, Run, Writes, Step, Tag;
      var todo := active.Keys;
      written, order := [], [];
      assert Visits([], now, takes) == [];
      RunOfNothing(active, limits);
      while todo != {}
        invariant todo <= old(active).Keys && todo <= active.Keys
        invariant forall id <- order :: id in old(active) && id !in todo
        invariant forall id <- old(active) :: id in order || id in todo
        invariant forall i, j :: 0 <= i < j < |order| ==> order[i] != order[j]
        invariant active == Run(old(active), Visits(order, now, takes), limits)
        invariant written == Writes(old(active), Visits(order, now, takes), limits)
        decreases |todo|
      {
        var id :| id in todo;
        ghost var before := active;
        ghost var visits := Visits(order, now, takes);
        var e := Visit(id, now, Takes(takes, id));
        RunSnoc(old(active), visits, e, limits);
        var sent;
        sent, ok := VisitOne(id, now, Takes(takes, id));
        StepKeepsOthers(before, e, limits);
        written := written + Tag(id, sent);
        order := order + [id];
        assert Visits(order, now, takes) == visits + [e];
        todo := todo - {id};
        if !ok {
          return;
        }
      }
      ok := true;
    }
  }

  lemma RunOfNothing(a: Active, limits: Timeouts)
    ensures Run(a, [], limits) == a && Writes(a, [], limits) == []
  {}

  lemma StepKeepsOthers(a: Active, e: Event, limits: Timeouts)
    ensures a.Keys - {e.id} <= Step(a, e, limits).Keys
  {
    hide VisitFlow;
  }
}
