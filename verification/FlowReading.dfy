/** What a collector learns from the messages: each element by its registered number, each header
    field by its offset, in terms of the flow alone. */
module FlowReading {
  import opened Bytes
  import opened Endian
  import opened Text
  import opened FlowCodec
  import opened FlowEncode

  /** The number octets stand for, the first one weighing most. */
  function Weigh(b: seq<Byte>): nat {
    if b == [] then 0
    else
      var high: int := b[0];
      high * Pow256(|b| - 1) + Weigh(b[1..])
  }

  lemma {:induction false} WeighSnoc(b: seq<Byte>, low: Byte)
    ensures Weigh(b + [low]) == 256 * Weigh(b) + low
    decreases |b|
  {
    var w := b + [low];
    if b == [] {
      assert Weigh(w[1..]) == 0 && Pow256(0) == 1;
    } else {
      assert w[1..] == b[1..] + [low];
      WeighSnoc(b[1..], low);
      var high: int := b[0];
      assert Pow256(|b|) == 256 * Pow256(|b| - 1);
      assert high * (256 * Pow256(|b| - 1)) == 256 * (high * Pow256(|b| - 1));
    }
  }

  lemma {:induction false} WeighIsFromBe(b: seq<Byte>)
    ensures Weigh(b) == FromBe(b)
    decreases |b|
  {
    hide Weigh;
    if b == [] {
      WeighNothing();
    } else {
      var n := |b| - 1;
      WeighIsFromBe(b[..n]);
      WeighSnoc(b[..n], b[n]);
      assert b == b[..n] + [b[n]];
    }
  }

  lemma WeighNothing()
    ensures Weigh([]) == 0
  {}

  lemma Weighed(n: nat, k: nat)
    requires (k == 2 && n < TWO16) || (k == 4 && n < TWO32) || (k == 8 && n < TWO64)
    ensures Weigh(Be(n, k)) == n
  {
    hide Be, FromBe, Weigh;
    Powers();
    BeInverse(n, k);
    WeighIsFromBe(Be(n, k));
  }

  lemma WeighedOctet(n: Byte)
    ensures Weigh([n]) == n
  {
    hide Weigh;
    WeighNothing();
    var none: seq<Byte> := [];
    WeighSnoc(none, n);
    assert none + [n] == [n];
  }

  // ---- Elements ----------------------------------------------------------------------------------------

  predicate At(r: Record, i: nat, element: nat) { i < |r.fields| && r.fields[i].element == element }

  /** The record has this element, with this value alone. */
  ghost predicate Says(r: Record, element: nat, value: seq<Byte>) {
    && |r.values| == |r.fields| && (exists i: nat :: At(r, i, element))
    && forall i: nat :: At(r, i, element) ==> r.values[i] == value
  }

  ghost predicate SaysNumber(r: Record, element: nat, n: nat) {
    && |r.values| == |r.fields| && (exists i: nat :: At(r, i, element))
    && forall i: nat :: At(r, i, element) ==> Weigh(r.values[i]) == n
  }

  /** A record the encoder made for this flow, as it was received. */
  ghost predicate Made(r: Record, p: Protocol, c: Config, f: Flow, start: int) {
    Parsed(f) && Encodable(f) && r.fields == Fields(p, IsV6(f)) && Means(r, c, f, start)
  }

  lemma ElementSays(r: Record, p: Protocol, c: Config, f: Flow, start: int, i: nat, e: nat)
    requires Made(r, p, c, f, start) && At(r, i, e)
    ensures Says(r, e, ElementValue(e, c, f, start))
  {
    hide ElementValue, Fields, IsV6, Encodable, Parsed;
  }

  lemma NumberSays(r: Record, e: nat, v: seq<Byte>, n: nat)
    requires Says(r, e, v) && Weigh(v) == n
    ensures SaysNumber(r, e, n)
  {
    hide Weigh;
  }

  lemma SaysOne(r: Record, e: nat, m: nat, n: nat)
    requires SaysNumber(r, e, m) && SaysNumber(r, e, n)
    ensures m == n
  {
    hide Weigh;
    var i: nat :| At(r, i, e);
  }

  lemma FieldIs(r: Record, p: Protocol, c: Config, f: Flow, start: int, i: nat)
    requires Made(r, p, c, f, start) && i < if p == NetFlow9 then 17 else 18
    ensures var v6 := IsV6(f); i < |r.fields| && var e := r.fields[i].element;
            && (i < 11 ==> e == [1, 2, 4, 5, 6, 7, if v6 then 27 else 8, 10, 11, if v6 then 28 else 12, 14][i])
            && (i == 11 ==> e == if p == NetFlow9 then 21 else 152)
            && (i == 12 ==> e == if p == NetFlow9 then 22 else 153)
            && (i == 13 ==> e == if p == Ipfix && v6 then 139 else 32)
            && (i > 13 ==> e == [58, 61, 34, 96][i - 14])
  {
    hide Fields, Means, IsV6, Encodable, Parsed;
    FieldsAreValid(p, IsV6(f));
    FieldAt(p, IsV6(f), i);
  }

  lemma BothV4(f: Flow)
    ensures IsV6(f) <==> !(f.local.address.V4? && f.remote.address.V4?)
    ensures Encodable(f) ==> !f.local.address.NoAddress? && !f.remote.address.NoAddress?
  {}

  // ---- Where from and where to ---------------------------------------------------------------------

  /** An address in sixteen octets, an IPv4 one mapped (section 2.5.5.2 of RFC 4291). */
  function Sixteen(a: Address): seq<Byte>
    requires !a.NoAddress?
  {
    if a.V4? then [0, 0, 0, 0, 0, 0, 0, 0, 0, 0, 255, 255] + a.octets else a.octets
  }

  /** The elements of one side hold this endpoint: as IPv4 when both sides are, else as IPv6. */
  ghost predicate SideIs(r: Record, port: nat, four: nat, six: nat, v4: bool, e: Endpoint) {
    && SaysNumber(r, port, e.port) && !e.address.NoAddress?
    && if v4 then Says(r, four, e.address.octets) else Says(r, six, Sixteen(e.address))
  }

  /** Source and destination: an outbound flow goes from the local to the remote end, an inbound one
      from the remote to the local end, and element 61 tells which. */
  ghost predicate TellsEndpoints(r: Record, f: Flow) {
    var v4 := f.local.address.V4? && f.remote.address.V4?;
    && (SaysNumber(r, 61, 0) || SaysNumber(r, 61, 1)) && (SaysNumber(r, 61, 1) <==> f.inbound)
    && (SaysNumber(r, 61, 0) ==> SideIs(r, 7, 8, 27, v4, f.local) && SideIs(r, 11, 12, 28, v4, f.remote))
    && (SaysNumber(r, 61, 1) ==> SideIs(r, 7, 8, 27, v4, f.remote) && SideIs(r, 11, 12, 28, v4, f.local))
  }

  lemma DirectionIsTold(r: Record, p: Protocol, c: Config, f: Flow, start: int)
    requires Made(r, p, c, f, start)
    ensures SaysNumber(r, 61, if f.inbound then 1 else 0)
    ensures forall n: nat :: SaysNumber(r, 61, n) ==> n == if f.inbound then 1 else 0
  {
    hide Made, Weigh, SaysNumber, Says, Encodable, Fields, IsV6, Parsed;
    MadeIsEncodable(r, p, c, f, start);
    FieldIs(r, p, c, f, start, 15);
    ElementSays(r, p, c, f, start, 15, 61);
    var d: Byte := if f.inbound then 1 else 0;
    DirectionValue(c, f, start);
    WeighedOctet(d);
    NumberSays(r, 61, [d], d);
    forall n: nat | SaysNumber(r, 61, n) ensures n == d { SaysOne(r, 61, n, d); }
  }

  lemma DirectionValue(c: Config, f: Flow, start: int)
    requires Encodable(f)
    ensures ElementValue(61, c, f, start) == [if f.inbound then 1 else 0]
  {
    hide Encodable;
  }

  /** The values of the six elements of the two sides. */
  lemma SideValues(c: Config, f: Flow, start: int)
    requires Parsed(f) && Encodable(f)
    ensures var from, to := if f.inbound then f.remote else f.local, if f.inbound then f.local else f.remote;
            && ElementValue(7, c, f, start) == Be(from.port, 2) && ElementValue(11, c, f, start) == Be(to.port, 2)
            && !from.address.NoAddress? && !to.address.NoAddress?
            && ElementValue(8, c, f, start) == from.address.octets && ElementValue(12, c, f, start) == to.address.octets
            && ElementValue(27, c, f, start) == Sixteen(from.address) && ElementValue(28, c, f, start) == Sixteen(to.address)
  {
    hide Be;
  }

  lemma SideIsTold(r: Record, p: Protocol, c: Config, f: Flow, start: int, source: bool)
    requires Made(r, p, c, f, start)
    ensures var v4 := f.local.address.V4? && f.remote.address.V4?;
            if source then SideIs(r, 7, 8, 27, v4, if f.inbound then f.remote else f.local)
            else SideIs(r, 11, 12, 28, v4, if f.inbound then f.local else f.remote)
  {
    hide Weigh, SaysNumber, Says, ElementValue, Be, Means, Parsed, IsV6, Fields, Sixteen, Encodable;
    BothV4(f);
    SideValues(c, f, start);
    var at := if source then 5 else 8;
    FieldIs(r, p, c, f, start, at);
    FieldIs(r, p, c, f, start, at + 1);
    var address := r.fields[at + 1].element;
    if source {
      ElementSays(r, p, c, f, start, 5, 7);
      Weighed((if f.inbound then f.remote else f.local).port, 2);
      NumberSays(r, 7, ElementValue(7, c, f, start), (if f.inbound then f.remote else f.local).port);
      ElementSays(r, p, c, f, start, 6, address);
    } else {
      FieldIs(r, p, c, f, start, 9);
      ElementSays(r, p, c, f, start, 8, 11);
      Weighed((if f.inbound then f.local else f.remote).port, 2);
      NumberSays(r, 11, ElementValue(11, c, f, start), (if f.inbound then f.local else f.remote).port);
      ElementSays(r, p, c, f, start, 9, r.fields[9].element);
    }
  }

  lemma EndpointsAreTold(r: Record, p: Protocol, c: Config, f: Flow, start: int)
    requires Made(r, p, c, f, start)
    ensures TellsEndpoints(r, f)
  {
    hide Made, SaysNumber, SideIs;
    DirectionIsTold(r, p, c, f, start);
    SideIsTold(r, p, c, f, start, true);
    SideIsTold(r, p, c, f, start, false);
  }

  // ---- What and how much ---------------------------------------------------------------------------

  /** The assigned number of a protocol given by name, in any letter case; 0 for other names. */
  ghost predicate Assigned(name: string, n: nat) {
    && (SameWord(name, "tcp") ==> n == 6) && (SameWord(name, "udp") ==> n == 17)
    && (SameWord(name, "icmp") ==> n == 1) && (SameWord(name, "icmpv6") ==> n == 58)
    && (!SameWord(name, "tcp") && !SameWord(name, "udp") && !SameWord(name, "icmp") && !SameWord(name, "icmpv6") ==> n == 0)
  }

  /** Both directions together, modulo 2^64, and the assigned protocol number. */
  ghost predicate TellsTraffic(r: Record, f: Flow) {
    && SaysNumber(r, 1, (f.bytesTx + f.bytesRx) % TWO64)
    && SaysNumber(r, 2, (f.packetsTx + f.packetsRx) % TWO64)
    && exists n: nat :: Assigned(f.protocol, n) && SaysNumber(r, 4, n)
  }

  lemma SumIsMod(a: Uint64, b: Uint64)
    ensures Sum64(a, b) == (a + b) % TWO64
  {}

  lemma NumberIsAssigned(name: string)
    ensures Assigned(name, ProtoNumber(name))
  {
    hide SameWord, Lower;
    SameWordIff(name, "tcp");
    SameWordIff(name, "udp");
    SameWordIff(name, "icmp");
    SameWordIff(name, "icmpv6");
    LowerNames();
  }

  lemma LowerNames()
    ensures Lower("tcp") == "tcp" && Lower("udp") == "udp" && Lower("icmp") == "icmp" && Lower("icmpv6") == "icmpv6"
  {}

  lemma CounterValues(c: Config, f: Flow, start: int)
    requires Encodable(f)
    ensures ElementValue(1, c, f, start) == Be(Sum64(f.bytesTx, f.bytesRx), 8)
    ensures ElementValue(2, c, f, start) == Be(Sum64(f.packetsTx, f.packetsRx), 8)
    ensures ElementValue(4, c, f, start) == [ProtoNumber(f.protocol)]
  {
    hide Encodable, Be, Sum64, ProtoNumber;
  }

  lemma TrafficIsTold(r: Record, p: Protocol, c: Config, f: Flow, start: int)
    requires Made(r, p, c, f, start)
    ensures TellsTraffic(r, f)
  {
    hide Made, Weigh, SaysNumber, Says, Be, ElementValue, Sum64, ProtoNumber, Assigned;
    MadeIsEncodable(r, p, c, f, start);
    CounterValues(c, f, start);
    var bytes, packets := Sum64(f.bytesTx, f.bytesRx), Sum64(f.packetsTx, f.packetsRx);
    SumIsMod(f.bytesTx, f.bytesRx);
    SumIsMod(f.packetsTx, f.packetsRx);
    FieldIs(r, p, c, f, start, 0);
    FieldIs(r, p, c, f, start, 1);
    FieldIs(r, p, c, f, start, 2);
    ElementSays(r, p, c, f, start, 0, 1);
    Weighed(bytes, 8);
    NumberSays(r, 1, Be(bytes, 8), bytes);
    ElementSays(r, p, c, f, start, 1, 2);
    Weighed(packets, 8);
    NumberSays(r, 2, Be(packets, 8), packets);
    ElementSays(r, p, c, f, start, 2, 4);
    NumberIsAssigned(f.protocol);
    WeighedOctet(ProtoNumber(f.protocol));
    NumberSays(r, 4, [ProtoNumber(f.protocol)], ProtoNumber(f.protocol));
  }

  lemma MadeIsEncodable(r: Record, p: Protocol, c: Config, f: Flow, start: int)
    requires Made(r, p, c, f, start)
    ensures Encodable(f) && Parsed(f) && r.fields == Fields(p, IsV6(f))
  {}

  // ---- When --------------------------------------------------------------------------------------------

  /** Whole milliseconds since the start: none before it, and at most what 32 bits hold. */
  predicate IsUptime(start: int, t: int, n: nat) {
    if t < start then n == 0
    else n < TWO32 && n * 1_000_000 <= t - start && (t - start < (n + 1) * 1_000_000 || n == TWO32 - 1)
  }

  /** Whole milliseconds since the epoch, rounded down, short of a number of laps of 2^64. */
  predicate IsMillis(t: int, n: nat, laps: int) {
    n < TWO64 && (n + laps * TWO64) * 1_000_000 <= t < (n + laps * TWO64 + 1) * 1_000_000
  }

  ghost predicate TellsTimes(r: Record, p: Protocol, f: Flow, start: int) {
    match p
    case NetFlow9 =>
      && (exists n: nat :: IsUptime(start, f.lastSeen, n) && SaysNumber(r, 21, n))
      && exists n: nat :: IsUptime(start, f.firstSeen, n) && SaysNumber(r, 22, n)
    case Ipfix =>
      && (exists n: nat, laps: int :: IsMillis(f.firstSeen, n, laps) && SaysNumber(r, 152, n))
      && exists n: nat, laps: int :: IsMillis(f.lastSeen, n, laps) && SaysNumber(r, 153, n)
  }

  lemma UptimeIs(start: int, t: int)
    ensures IsUptime(start, t, UptimeMs(start, t))
  {}

  lemma MillisIs(t: int)
    ensures IsMillis(t, Millis(t), (t / 1_000_000) / TWO64)
  {
    var ms := t / 1_000_000;
    assert ms == Millis(t) + ms / TWO64 * TWO64;
  }

  lemma TimeAt(r: Record, p: Protocol, c: Config, f: Flow, start: int, i: nat)
    requires Made(r, p, c, f, start) && (i == 11 || i == 12)
    ensures p == NetFlow9 ==> SaysNumber(r, if i == 11 then 21 else 22, UptimeMs(start, if i == 11 then f.lastSeen else f.firstSeen))
    ensures p == Ipfix ==> SaysNumber(r, if i == 11 then 152 else 153, Millis(if i == 11 then f.firstSeen else f.lastSeen))
  {
    hide Made, Weigh, SaysNumber, Says, Be, UptimeMs, Millis, Encodable;
    MadeIsEncodable(r, p, c, f, start);
    FieldIs(r, p, c, f, start, i);
    ElementSays(r, p, c, f, start, i, r.fields[i].element);
    if p == NetFlow9 {
      var n := UptimeMs(start, if i == 11 then f.lastSeen else f.firstSeen);
      Weighed(n, 4);
      NumberSays(r, r.fields[i].element, Be(n, 4), n);
    } else {
      var n := Millis(if i == 11 then f.firstSeen else f.lastSeen);
      Weighed(n, 8);
      NumberSays(r, r.fields[i].element, Be(n, 8), n);
    }
  }

  lemma TimesAreTold(r: Record, p: Protocol, c: Config, f: Flow, start: int)
    requires Made(r, p, c, f, start)
    ensures TellsTimes(r, p, f, start)
  {
    hide Made, SaysNumber, UptimeMs, Millis, IsUptime, IsMillis;
    TimeAt(r, p, c, f, start, 11);
    TimeAt(r, p, c, f, start, 12);
    UptimeIs(start, f.firstSeen);
    UptimeIs(start, f.lastSeen);
    MillisIs(f.firstSeen);
    MillisIs(f.lastSeen);
  }

  // ---- The rest ----------------------------------------------------------------------------------------

  /** Type of service, TCP flags, interfaces, ICMP type and code, VLAN, sampling and application. */
  ghost predicate TellsRest(r: Record, p: Protocol, c: Config, f: Flow) {
    var v4 := f.local.address.V4? && f.remote.address.V4?;
    && SaysNumber(r, 5, f.tos) && SaysNumber(r, 6, f.tcpFlags)
    && SaysNumber(r, 10, f.ifIndex) && SaysNumber(r, 14, 0)
    && Says(r, if p == Ipfix && !v4 then 139 else 32, [f.icmpType, f.icmpCode])
    && SaysNumber(r, 58, f.vlan) && SaysNumber(r, 34, c.sampling)
    && (p == Ipfix ==> Says(r, 96, f.app))
  }

  lemma RestValues(c: Config, f: Flow, start: int)
    requires Encodable(f)
    ensures ElementValue(5, c, f, start) == [f.tos] && ElementValue(6, c, f, start) == [f.tcpFlags]
    ensures ElementValue(10, c, f, start) == Be(f.ifIndex, 4) && ElementValue(14, c, f, start) == Be(0, 4)
    ensures ElementValue(32, c, f, start) == ElementValue(139, c, f, start) == [f.icmpType, f.icmpCode]
    ensures ElementValue(58, c, f, start) == Be(f.vlan, 2) && ElementValue(34, c, f, start) == Be(c.sampling, 4)
    ensures ElementValue(96, c, f, start) == f.app
  {
    hide Encodable, Be;
  }

  lemma NumberAt(r: Record, p: Protocol, c: Config, f: Flow, start: int, i: nat, e: nat, n: nat, k: nat)
    requires Made(r, p, c, f, start) && At(r, i, e)
    requires (k == 2 && n < TWO16) || (k == 4 && n < TWO32)
    requires Encodable(f) && ElementValue(e, c, f, start) == Be(n, k)
    ensures SaysNumber(r, e, n)
  {
    hide Made, Weigh, SaysNumber, Says, Be, ElementValue, Encodable;
    ElementSays(r, p, c, f, start, i, e);
    Weighed(n, k);
    NumberSays(r, e, Be(n, k), n);
  }

  lemma OctetAt(r: Record, p: Protocol, c: Config, f: Flow, start: int, i: nat, e: nat, n: Byte)
    requires Made(r, p, c, f, start) && At(r, i, e)
    requires Encodable(f) && ElementValue(e, c, f, start) == [n]
    ensures SaysNumber(r, e, n)
  {
    hide Made, Weigh, SaysNumber, Says, ElementValue, Encodable;
    ElementSays(r, p, c, f, start, i, e);
    WeighedOctet(n);
    NumberSays(r, e, [n], n);
  }

  lemma RestIsTold(r: Record, p: Protocol, c: Config, f: Flow, start: int)
    requires Made(r, p, c, f, start)
    ensures TellsRest(r, p, c, f)
  {
    hide Made, Weigh, SaysNumber, Says, Be, ElementValue, Encodable, IsV6, Fields, Parsed;
    MadeIsEncodable(r, p, c, f, start);
    BothV4(f);
    RestValues(c, f, start);
    FieldIs(r, p, c, f, start, 3);
    OctetAt(r, p, c, f, start, 3, 5, f.tos);
    FieldIs(r, p, c, f, start, 4);
    OctetAt(r, p, c, f, start, 4, 6, f.tcpFlags);
    FieldIs(r, p, c, f, start, 7);
    NumberAt(r, p, c, f, start, 7, 10, f.ifIndex, 4);
    FieldIs(r, p, c, f, start, 10);
    NumberAt(r, p, c, f, start, 10, 14, 0, 4);
    FieldIs(r, p, c, f, start, 13);
    ElementSays(r, p, c, f, start, 13, r.fields[13].element);
    FieldIs(r, p, c, f, start, 14);
    NumberAt(r, p, c, f, start, 14, 58, f.vlan, 2);
    FieldIs(r, p, c, f, start, 16);
    NumberAt(r, p, c, f, start, 16, 34, c.sampling, 4);
    if p == Ipfix {
      FieldIs(r, p, c, f, start, 17);
      ElementSays(r, p, c, f, start, 17, 96);
    }
  }

  // ---- Messages ------------------------------------------------------------------------------------------

  /** What reaches the collector: one record that says about the flow what is so. */
  lemma FlowIsTold(p: Protocol, e: Encoder, c: Config, f: Flow, now: int, known: Templates)
    requires Parsed(f) && Encodable(f) && Sized(p, c, f, e.start)
    requires var tid := TemplateId(p, IsV6(f)); tid in known && known[tid] == Fields(p, IsV6(f))
    ensures var got := Receive(p, known, Message(p, e, c, now, DataSet(p, c, f, e.start)));
            && got.Some? && |got.value.records| == 1
            && var r := got.value.records[0];
               TellsEndpoints(r, f) && TellsTraffic(r, f) && TellsTimes(r, p, f, e.start) && TellsRest(r, p, c, f)
  {
    hide Receive, Message, DataSet, Parsed, Encodable, Sized, Fields, Values, Means, IsV6,
      TellsEndpoints, TellsTraffic, TellsTimes, TellsRest;
    var r := Record(Fields(p, IsV6(f)), Values(p, IsV6(f), c, f, e.start));
    DataReceived(p, e, c, f, now, known);
    ValuesMean(p, IsV6(f), c, f, e.start);
    EndpointsAreTold(r, p, c, f, e.start);
    TrafficIsTold(r, p, c, f, e.start);
    TimesAreTold(r, p, c, f, e.start);
    RestIsTold(r, p, c, f, e.start);
  }

  /** The low 32 bits of the whole seconds of a time. */
  predicate IsSeconds(t: int, n: nat, laps: int) {
    n < TWO32 && (n + laps * TWO32) * 1_000_000_000 <= t < (n + laps * TWO32 + 1) * 1_000_000_000
  }

  /** The header fields at their offsets (section 5.1 of RFC 3954, section 3.1 of RFC 7011). */
  ghost predicate HeaderSays(p: Protocol, msg: seq<Byte>, uptime: nat, secs: nat, sequence: nat, domain: nat) {
    match p
    case NetFlow9 =>
      && |msg| >= 20 && Weigh(msg[..2]) == 9 && Weigh(msg[2..4]) == 1 && Weigh(msg[4..8]) == uptime
      && Weigh(msg[8..12]) == secs && Weigh(msg[12..16]) == sequence && Weigh(msg[16..20]) == domain
    case Ipfix =>
      && |msg| >= 16 && Weigh(msg[..2]) == 10 && Weigh(msg[2..4]) == |msg| && Weigh(msg[4..8]) == secs
      && Weigh(msg[8..12]) == sequence && Weigh(msg[12..16]) == domain
  }

  lemma SecondsIs(t: int)
    ensures IsSeconds(t, Seconds(t), (t / 1_000_000_000) / TWO32)
  {
    var s := t / 1_000_000_000;
    assert s == Seconds(t) + s / TWO32 * TWO32;
  }

  lemma HeaderIsLaidOut(p: Protocol, size: nat, uptime: Uint32, secs: Uint32, sequence: Uint32, domain: Uint32, set_: seq<Byte>)
    requires size == HeaderSize(p) + |set_| < TWO16
    ensures HeaderSays(p, Header(p, size, uptime, secs, sequence, domain) + set_, uptime, secs, sequence, domain)
  {
    hide Be, Weigh;
    var msg := Header(p, size, uptime, secs, sequence, domain) + set_;
    Weighed(Version(p), 2);
    Weighed(1, 2);
    Weighed(size, 2);
    Weighed(uptime, 4);
    Weighed(secs, 4);
    Weighed(sequence, 4);
    Weighed(domain, 4);
    assert msg[..2] == Be(Version(p), 2);
    if p == NetFlow9 {
      assert msg[2..4] == Be(1, 2) && msg[4..8] == Be(uptime, 4) && msg[8..12] == Be(secs, 4);
      assert msg[12..16] == Be(sequence, 4) && msg[16..20] == Be(domain, 4);
    } else {
      assert msg[2..4] == Be(size, 2) && msg[4..8] == Be(secs, 4);
      assert msg[8..12] == Be(sequence, 4) && msg[12..16] == Be(domain, 4);
    }
  }

  /** Every message carries the time it was made, the sequence number and the observation domain. */
  lemma HeaderIsTold(p: Protocol, e: Encoder, c: Config, now: int, set_: seq<Byte>)
    requires HeaderSize(p) + |set_| < TWO16
    ensures exists uptime: nat, secs: nat, laps: int ::
              && IsUptime(e.start, now, uptime) && IsSeconds(now, secs, laps)
              && HeaderSays(p, Message(p, e, c, now, set_), uptime, secs, e.sequence, c.domain)
  {
    hide Header, UptimeMs, Seconds, IsUptime, IsSeconds, HeaderSays;
    UptimeIs(e.start, now);
    SecondsIs(now);
    HeaderIsLaidOut(p, HeaderSize(p) + |set_|, UptimeMs(e.start, now), Seconds(now), e.sequence, c.domain, set_);
  }

  // ---- Templates -----------------------------------------------------------------------------------------

  /** The nanoseconds after which a template is sent again. */
  function Interval(c: Config): int { (if c.refreshSeconds > 0 then c.refreshSeconds else 30) * 1_000_000_000 }

  /** The number of the template for a flow: by protocol, and by whether both addresses are IPv4. */
  function TemplateNumber(p: Protocol, f: Flow): nat {
    var v4 := f.local.address.V4? && f.remote.address.V4?;
    match p
    case NetFlow9 => if v4 then 256 else 257
    case Ipfix => if v4 then 300 else 301
  }

  /** The template goes out ahead of the data exactly when it is asked for, was never sent, or was sent
      an interval ago or longer; so with every data message it is younger than an interval. */
  lemma TemplateIsFresh(p: Protocol, e: Encoder, c: Config, f: Flow, now: int, force: bool)
    requires Encodable(f)
    ensures var tid := TemplateNumber(p, f); var r := Encode(p, e, c, f, now, force);
            && r.1.Some?
            && |r.1.value| == (if force || tid !in e.templateLast || e.templateLast[tid] + Interval(c) <= now then 2 else 1)
            && tid in r.0.templateLast && now - r.0.templateLast[tid] < Interval(c)
            && (|r.1.value| == 2 ==> r.0.templateLast[tid] == now)
            && forall t | t in r.0.templateLast && t != tid :: t in e.templateLast && r.0.templateLast[t] == e.templateLast[t]
  {
    hide Message, DataSet, TemplateSet, IsV6, Encodable;
    BothV4(f);
  }
}
