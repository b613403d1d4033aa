/** The thresholds of the stateful detections, on the lists and on the full window. */
module IdsDetections {
  import opened IdsWindow
  import opened IdsWindowRuns

  // ---- Detections ---------------------------------------------------------------------------------

  datatype Conn = Conn(dest: string, port: nat, actor: string)

  function Ports(list: seq<Event<Conn>>, actor: string, dest: string): set<nat> {
    set i | 0 <= i < |list| && list[i].what.actor == actor && list[i].what.dest == dest :: list[i].what.port
  }

  function Hosts(list: seq<Event<Conn>>, actor: string, port: nat): set<string> {
    set i | 0 <= i < |list| && list[i].what.actor == actor && list[i].what.port == port :: list[i].what.dest
  }

  predicate PortScan(list: seq<Event<Conn>>, c: Conn, threshold: int) { |Ports(list, c.actor, c.dest)| >= threshold }
  predicate HostSweep(list: seq<Event<Conn>>, c: Conn, threshold: int) { |Hosts(list, c.actor, c.port)| >= threshold }

  /** A query: whether its entropy and label length look like a tunnel is decided elsewhere. */
  datatype Query = Query(actor: string, name: string, tunnel: bool, failed: bool)

  function High(list: seq<Event<Query>>, actor: string): nat {
    if list == [] then 0
    else High(list[..|list| - 1], actor) + if list[|list| - 1].what.actor == actor && list[|list| - 1].what.tunnel then 1 else 0
  }

  function Failed(list: seq<Event<Query>>, actor: string): nat {
    if list == [] then 0
    else Failed(list[..|list| - 1], actor) + if list[|list| - 1].what.actor == actor && list[|list| - 1].what.failed then 1 else 0
  }

  function Names(list: seq<Event<Query>>, actor: string): set<string> {
    set i | 0 <= i < |list| && list[i].what.actor == actor && list[i].what.tunnel :: list[i].what.name
  }

  predicate Tunnel(list: seq<Event<Query>>, actor: string, threshold: nat) {
    High(list, actor) >= threshold && |Names(list, actor)| >= threshold / 2
  }

  /** What the thresholds say of a list: so many ports of one destination, or destinations of one port; as
      many tunnelling queries, and names in them at least half as many, halves left out. */
  lemma ThresholdsMean(conns: seq<Event<Conn>>, c: Conn, queries: seq<Event<Query>>, actor: string, threshold: nat)
    ensures PortScan(conns, c, threshold) <==>
              threshold <= |set i | 0 <= i < |conns| && conns[i].what.actor == c.actor && conns[i].what.dest == c.dest :: conns[i].what.port|
    ensures HostSweep(conns, c, threshold) <==>
              threshold <= |set i | 0 <= i < |conns| && conns[i].what.actor == c.actor && conns[i].what.port == c.port :: conns[i].what.dest|
    ensures Tunnel(queries, actor, threshold) <==> High(queries, actor) >= threshold && 2 * |Names(queries, actor)| + 1 >= threshold
  {}

  /** The positions of an actor's tunnelling, or failed, queries. */
  function QueriesAt(queries: seq<Event<Query>>, actor: string, failed: bool): set<int> {
    set i | 0 <= i < |queries| && IsQuery(queries[i].what, actor, failed) :: i
  }

  predicate IsQuery(x: Query, actor: string, failed: bool) {
    x.actor == actor && if failed then x.failed else x.tunnel
  }

  lemma QueriesSnoc(queries: seq<Event<Query>>, actor: string, failed: bool)
    requires queries != []
    ensures var n := |queries| - 1; var front := QueriesAt(queries[..n], actor, failed);
            && n !in front
            && QueriesAt(queries, actor, failed) == front + if IsQuery(queries[n].what, actor, failed) then {n} else {}
  {
    hide IsQuery;
    var n := |queries| - 1;
    forall i | 0 <= i < n ensures queries[..n][i] == queries[i] {}
  }

  /** The two counts are numbers of queries. */
  lemma {:induction false} CountsMean(queries: seq<Event<Query>>, actor: string)
    ensures High(queries, actor) == |QueriesAt(queries, actor, false)|
    ensures Failed(queries, actor) == |QueriesAt(queries, actor, true)|
    decreases |queries|
  {
    hide QueriesAt;
    if queries == [] {
      NoQueries(actor);
    } else {
      CountsMean(queries[..|queries| - 1], actor);
      QueriesSnoc(queries, actor, false);
      QueriesSnoc(queries, actor, true);
    }
  }

  lemma NoQueries(actor: string)
    ensures QueriesAt([], actor, false) == QueriesAt([], actor, true) == {}
  {}

  /** Detections only grow with the list. */
  lemma MoreConns(all: seq<Event<Conn>>, a: set<nat>, b: set<nat>, c: Conn, threshold: int)
    requires a <= b
    ensures PortScan(Pick(all, a), c, threshold) ==> PortScan(Pick(all, b), c, threshold)
    ensures HostSweep(Pick(all, a), c, threshold) ==> HostSweep(Pick(all, b), c, threshold)
  {
    hide Pick;
    var part, list := Pick(all, a), Pick(all, b);
    forall p | p in Ports(part, c.actor, c.dest) ensures p in Ports(list, c.actor, c.dest) {
      var i :| 0 <= i < |part| && part[i].what.actor == c.actor && part[i].what.dest == c.dest && part[i].what.port == p;
      var k := MoreHas(all, a, b, part[i]);
    }
    forall h | h in Hosts(part, c.actor, c.port) ensures h in Hosts(list, c.actor, c.port) {
      var i :| 0 <= i < |part| && part[i].what.actor == c.actor && part[i].what.port == c.port && part[i].what.dest == h;
      var k := MoreHas(all, a, b, part[i]);
    }
    SubsetSize(Ports(part, c.actor, c.dest), Ports(list, c.actor, c.dest));
    SubsetSize(Hosts(part, c.actor, c.port), Hosts(list, c.actor, c.port));
  }

  lemma MoreHas<T>(all: seq<T>, a: set<nat>, b: set<nat>, x: T) returns (k: nat)
    requires a <= b && x in Pick(all, a)
    ensures k < |Pick(all, b)| && Pick(all, b)[k] == x
  {
    hide Pick;
    PickHas(all, a, x);
    PickHas(all, b, x);
    k :| 0 <= k < |Pick(all, b)| && Pick(all, b)[k] == x;
  }

  lemma CountsSnoc(list: seq<Event<Query>>, e: Event<Query>, actor: string)
    ensures High(list + [e], actor) == High(list, actor) + if e.what.actor == actor && e.what.tunnel then 1 else 0
    ensures Failed(list + [e], actor) == Failed(list, actor) + if e.what.actor == actor && e.what.failed then 1 else 0
  {
    assert (list + [e])[..|list|] == list;
  }

  lemma {:induction false} MoreCounts(all: seq<Event<Query>>, a: set<nat>, b: set<nat>, actor: string)
    requires a <= b
    ensures High(Pick(all, a), actor) <= High(Pick(all, b), actor)
    ensures Failed(Pick(all, a), actor) <= Failed(Pick(all, b), actor)
    decreases |all|
  {
    hide High, Failed, Pick;
    if all == [] {
      NothingPicked(all, a);
      NothingPicked(all, b);
    } else {
      var front, last := all[..|all| - 1], all[|all| - 1];
      MoreCounts(front, a, b, actor);
      PickStep(all, a);
      PickStep(all, b);
      CountsSnoc(Pick(front, a), last, actor);
      CountsSnoc(Pick(front, b), last, actor);
    }
  }

  lemma MoreNames(all: seq<Event<Query>>, a: set<nat>, b: set<nat>, actor: string)
    requires a <= b
    ensures |Names(Pick(all, a), actor)| <= |Names(Pick(all, b), actor)|
  {
    hide Pick;
    var part, list := Pick(all, a), Pick(all, b);
    forall n | n in Names(part, actor) ensures n in Names(list, actor) {
      var i :| 0 <= i < |part| && part[i].what.actor == actor && part[i].what.tunnel && part[i].what.name == n;
      var k := MoreHas(all, a, b, part[i]);
    }
    SubsetSize(Names(part, actor), Names(list, actor));
  }

  /** The list and the window as picked events; with at most 50000 of them, all held, they are one. */
  lemma ListAndWindow<T>(events: seq<Event<T>>, window: nat)
    requires events != []
    ensures var cut := events[|events| - 1].t - window;
            && Run(events, window) == Pick(events, HeldIds(events, window))
            && Recent(events, cut) == Pick(events, RecentIds(events, cut))
            && HeldIds(events, window) <= RecentIds(events, cut)
            && (|Recent(events, cut)| <= 50000 && WindowHeld(events, window) ==> Run(events, window) == Recent(events, cut))
  {
    hide Run, Recent, Pick, HeldIds, RecentIds, WindowHeld;
    var cut := events[|events| - 1].t - window;
    RunIsHeld(events, window);
    RecentIsPick(events, cut);
    HeldIsRecent(events, window);
    RunIsWindowIff(events, window);
    if |Recent(events, cut)| <= 50000 { Short(Recent(events, cut)); }
  }

  /** Scan and sweep detection over any run and any packet times: what the list shows holds of the
      full history inside the window. The two are the same while at most 50000 events lie in the
      window and none of them was forgotten. */
  lemma ScansAreExact(events: seq<Event<Conn>>, window: nat, ports: int, hosts: int)
    requires events != []
    ensures var e := events[|events| - 1]; var list := Run(events, window); var all := Recent(events, e.t - window);
            && (PortScan(list, e.what, ports) ==> PortScan(all, e.what, ports))
            && (HostSweep(list, e.what, hosts) ==> HostSweep(all, e.what, hosts))
            && (|all| <= 50000 && WindowHeld(events, window) ==>
                 && (PortScan(all, e.what, ports) <==> PortScan(list, e.what, ports))
                 && (HostSweep(all, e.what, hosts) <==> HostSweep(list, e.what, hosts)))
  {
    hide Run, Recent, Pick, HeldIds, RecentIds, WindowHeld, PortScan, HostSweep;
    ListAndWindow(events, window);
    var e := events[|events| - 1];
    MoreConns(events, HeldIds(events, window), RecentIds(events, e.t - window), e.what, ports);
    MoreConns(events, HeldIds(events, window), RecentIds(events, e.t - window), e.what, hosts);
  }

  /** The same for DNS: tunnelling and failed names. */
  lemma DnsCountsAreExact(events: seq<Event<Query>>, window: nat, tunnel: nat, failed: int)
    requires events != []
    ensures var e := events[|events| - 1]; var list := Run(events, window); var all := Recent(events, e.t - window);
            && (Tunnel(list, e.what.actor, tunnel) ==> Tunnel(all, e.what.actor, tunnel))
            && (Failed(list, e.what.actor) >= failed ==> Failed(all, e.what.actor) >= failed)
            && (|all| <= 50000 && WindowHeld(events, window) ==>
                 && (Tunnel(all, e.what.actor, tunnel) <==> Tunnel(list, e.what.actor, tunnel))
                 && Failed(list, e.what.actor) == Failed(all, e.what.actor))
  {
    hide Run, Recent, Pick, HeldIds, RecentIds, WindowHeld, High, Failed, Names;
    ListAndWindow(events, window);
    var e := events[|events| - 1];
    MoreCounts(events, HeldIds(events, window), RecentIds(events, e.t - window), e.what.actor);
    MoreNames(events, HeldIds(events, window), RecentIds(events, e.t - window), e.what.actor);
  }

  /** A scan that is missed: of two connections of one actor to one host, the first is forgotten at a
      later packet of another actor, although both lie in the window of the second. */
  lemma MissedScan(a: Event<Conn>, b: Event<Conn>, c: Event<Conn>, window: nat)
    requires a.t < b.t - window && a.t >= c.t - window && c.t <= b.t
    requires a.what.actor == c.what.actor != b.what.actor && a.what.dest == c.what.dest && a.what.port != c.what.port
    ensures PortScan(Recent([a, b, c], c.t - window), c.what, 2) && !PortScan(Run([a, b, c], window), c.what, 2)
  {
    ForgottenEvent(a, b, c, window);
    var all, list := [a, b, c], [b, c];
    assert all[0] == a && all[2] == c && list[0] == b && list[1] == c;
    assert Ports(list, c.what.actor, c.what.dest) == {c.what.port};
    SubsetSize({a.what.port, c.what.port}, Ports(all, c.what.actor, c.what.dest));
  }
}
