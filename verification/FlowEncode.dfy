/** The NetFlow version 9 and IPFIX encoders of the flow exporter. */
module FlowEncode {
  import opened Bytes
  import opened Endian
  import opened Text
  import opened FlowCodec

  // ---- Flows ------------------------------------------------------------------------------------

  /** A parsed address: not one, IPv4 (also when written as a mapped IPv6 address), or IPv6. */
  datatype Address = NoAddress | V4(octets: seq<Byte>) | V6(octets: seq<Byte>)

  type Port = n: nat | n < 0x1_0000
  type Uint32 = n: nat | n < 0x1_0000_0000
  type Uint64 = n: nat | n < 0x1_0000_0000_0000_0000

  datatype Endpoint = Endpoint(address: Address, port: Port)

  /** Times are nanoseconds since the epoch; the interface index, the TCP flag bits and the
      application name are as looked up by the caller. */
  datatype Flow = Flow(local: Endpoint, remote: Endpoint, inbound: bool,
                       packetsTx: Uint64, packetsRx: Uint64, bytesTx: Uint64, bytesRx: Uint64,
                       protocol: string, tos: Byte, tcpFlags: Byte, ifIndex: Uint32,
                       firstSeen: int, lastSeen: int, icmpType: Byte, icmpCode: Byte, vlan: Port, app: seq<Byte>)

  datatype Config = Config(domain: Uint32, sampling: Uint32, refreshSeconds: int)

  predicate ValidAddress(a: Address) {
    match a
    case NoAddress => true
    case V4(o) => |o| == 4
    case V6(o) => |o| == 16
  }

  /** What net.ParseIP can return for the two endpoints. */
  predicate Parsed(f: Flow) { ValidAddress(f.local.address) && ValidAddress(f.remote.address) }

  function Source(f: Flow): Endpoint { if f.inbound then f.remote else f.local }
  function Destination(f: Flow): Endpoint { if f.inbound then f.local else f.remote }

  function Sum64(a: Uint64, b: Uint64): Uint64 { if a + b >= TWO64 then a + b - TWO64 else a + b }

  function ProtoNumber(s: string): Byte {
    var l := Lower(s);
    if l == "tcp" then 6 else if l == "udp" then 17 else if l == "icmp" then 1 else if l == "icmpv6" then 58 else 0
  }

  /** Milliseconds since the exporter started, kept in 32 bits. */
  function UptimeMs(start: int, t: int): Uint32 {
    if t < start then 0
    else
      var d := (t - start) / 1_000_000;
      if d > TWO32 - 1 then TWO32 - 1 else d
  }

  /** The low 32 or 64 bits of a time in seconds or milliseconds. */
  function Seconds(t: int): Uint32 { (t / 1_000_000_000) % TWO32 }
  function Millis(t: int): Uint64 { (t / 1_000_000) % TWO64 }

  /** Sixteen octets of an address, IPv4 ones mapped. */
  function To16(a: Address): seq<Byte>
    requires a != NoAddress
  {
    if a.V4? then Zeros(10) + [255, 255] + a.octets else a.octets
  }

  predicate IsV6(f: Flow) { !Source(f).address.V4? || !Destination(f).address.V4? }
  predicate Encodable(f: Flow) { Source(f).address != NoAddress && Destination(f).address != NoAddress }

  function AddressOctets(a: Address, v6: bool): seq<Byte>
    requires a != NoAddress
  {
    if v6 then To16(a) else a.octets
  }

  // ---- Templates -----------------------------------------------------------------------------------

  function Fields(p: Protocol, v6: bool): (fs: seq<Field>) {
    [Field(1, 8), Field(2, 8), Field(4, 1), Field(5, 1), Field(6, 1), Field(7, 2)]
    + [if v6 then Field(27, 16) else Field(8, 4)] + [Field(10, 4), Field(11, 2)]
    + [if v6 then Field(28, 16) else Field(12, 4)] + [Field(14, 4)]
    + (match p
       case NetFlow9 => [Field(21, 4), Field(22, 4), Field(32, 2), Field(58, 2), Field(61, 1), Field(34, 4)]
       case Ipfix => [Field(152, 8), Field(153, 8), Field(if v6 then 139 else 32, 2), Field(58, 2), Field(61, 1),
                      Field(34, 4), Field(96, VARIABLE)])
  }

  function TemplateId(p: Protocol, v6: bool): nat {
    match p
    case NetFlow9 => if v6 then 257 else 256
    case Ipfix => if v6 then 301 else 300
  }

  lemma FieldsAreValid(p: Protocol, v6: bool)
    ensures var fs := Fields(p, v6);
            && |fs| == (if p == NetFlow9 then 17 else 18) && fs[0].length == 8
            && forall i :: 0 <= i < |fs| ==> ValidField(fs[i])
  {}

  // ---- What a record means ---------------------------------------------------------------------------

  /** The value of an information element for a flow, by the element's registered number. */
  function ElementValue(element: nat, c: Config, f: Flow, start: int): seq<Byte>
    requires Encodable(f)
  {
    match element
    case 1 => Be(Sum64(f.bytesTx, f.bytesRx), 8)
    case 2 => Be(Sum64(f.packetsTx, f.packetsRx), 8)
    case 4 => [ProtoNumber(f.protocol)]
    case 5 => [f.tos]
    case 6 => [f.tcpFlags]
    case 7 => Be(Source(f).port, 2)
    case 8 => AddressOctets(Source(f).address, false)
    case 27 => AddressOctets(Source(f).address, true)
    case 10 => Be(f.ifIndex, 4)
    case 11 => Be(Destination(f).port, 2)
    case 12 => AddressOctets(Destination(f).address, false)
    case 28 => AddressOctets(Destination(f).address, true)
    case 14 => Be(0, 4)
    case 21 => Be(UptimeMs(start, f.lastSeen), 4)
    case 22 => Be(UptimeMs(start, f.firstSeen), 4)
    case 152 => Be(Millis(f.firstSeen), 8)
    case 153 => Be(Millis(f.lastSeen), 8)
    case 32 => [f.icmpType, f.icmpCode]
    case 139 => [f.icmpType, f.icmpCode]
    case 58 => Be(f.vlan, 2)
    case 61 => [if f.inbound then 1 else 0]
    case 34 => Be(c.sampling, 4)
    case 96 => f.app
    case _ => []
  }

  /** A received record gives every element of its template the flow's value. */
  ghost predicate Means(r: Record, c: Config, f: Flow, start: int)
    requires Encodable(f)
  {
    && |r.values| == |r.fields|
    && forall i :: 0 <= i < |r.fields| ==> r.values[i] == ElementValue(r.fields[i].element, c, f, start)
  }

  /** The values in the order the encoder writes them. */
  function EndpointValues(v6: bool, f: Flow): (vs: seq<seq<Byte>>)
    requires Encodable(f)
    ensures |vs| == 11
  {
    [Be(Sum64(f.bytesTx, f.bytesRx), 8), Be(Sum64(f.packetsTx, f.packetsRx), 8),
     [ProtoNumber(f.protocol)], [f.tos], [f.tcpFlags], Be(Source(f).port, 2),
     AddressOctets(Source(f).address, v6), Be(f.ifIndex, 4), Be(Destination(f).port, 2),
     AddressOctets(Destination(f).address, v6), Be(0, 4)]
  }

  function TimeValues(p: Protocol, f: Flow, start: int): (vs: seq<seq<Byte>>)
    ensures |vs| == 2
  {
    match p
    case NetFlow9 => [Be(UptimeMs(start, f.lastSeen), 4), Be(UptimeMs(start, f.firstSeen), 4)]
    case Ipfix => [Be(Millis(f.firstSeen), 8), Be(Millis(f.lastSeen), 8)]
  }

  function LastValues(c: Config, f: Flow): (vs: seq<seq<Byte>>)
    ensures |vs| == 4
  {
    [[f.icmpType, f.icmpCode], Be(f.vlan, 2), [if f.inbound then 1 else 0], Be(c.sampling, 4)]
  }

  function Values(p: Protocol, v6: bool, c: Config, f: Flow, start: int): (vs: seq<seq<Byte>>)
    requires Encodable(f)
    ensures |vs| == if p == NetFlow9 then 17 else 18
  {
    EndpointValues(v6, f) + TimeValues(p, f, start) + LastValues(c, f) + if p == Ipfix then [f.app] else []
  }

  lemma FieldAt(p: Protocol, v6: bool, i: nat)
    requires i < |Fields(p, v6)|
    ensures var e := Fields(p, v6)[i].element;
            && (i < 11 ==> e == [1, 2, 4, 5, 6, 7, if v6 then 27 else 8, 10, 11, if v6 then 28 else 12, 14][i])
            && (i == 11 ==> e == if p == NetFlow9 then 21 else 152)
            && (i == 12 ==> e == if p == NetFlow9 then 22 else 153)
            && (i == 13 ==> e == if p == Ipfix && v6 then 139 else 32)
            && (i > 13 ==> e == [58, 61, 34, 96][i - 14])
  {}

  lemma EndpointAt(p: Protocol, v6: bool, c: Config, f: Flow, start: int, i: nat)
    requires Encodable(f) && i < 11
    ensures EndpointValues(v6, f)[i] == ElementValue(Fields(p, v6)[i].element, c, f, start)
  {
    hide Be, Sum64, ProtoNumber, AddressOctets, UptimeMs, Millis, Source, Destination, Fields, Encodable;
    FieldsAreValid(p, v6);
    FieldAt(p, v6, i);
  }

  lemma LaterAt(p: Protocol, v6: bool, c: Config, f: Flow, start: int, i: nat)
    requires Encodable(f) && 11 <= i < |Fields(p, v6)|
    ensures (TimeValues(p, f, start) + LastValues(c, f) + if p == Ipfix then [f.app] else [])[i - 11] ==
            ElementValue(Fields(p, v6)[i].element, c, f, start)
  {
    hide Be, Sum64, ProtoNumber, AddressOctets, UptimeMs, Millis, Source, Destination, Fields, Encodable, EndpointValues;
    FieldsAreValid(p, v6);
    FieldAt(p, v6, i);
  }

  lemma ValueAt(p: Protocol, v6: bool, c: Config, f: Flow, start: int, i: nat)
    requires Encodable(f) && i < |Fields(p, v6)|
    ensures Values(p, v6, c, f, start)[i] == ElementValue(Fields(p, v6)[i].element, c, f, start)
  {
    hide EndpointValues, TimeValues, LastValues, ElementValue, Fields, Encodable;
    FieldsAreValid(p, v6);
    if i < 11 { EndpointAt(p, v6, c, f, start, i); } else { LaterAt(p, v6, c, f, start, i); }
  }

  lemma ValuesMean(p: Protocol, v6: bool, c: Config, f: Flow, start: int)
    requires Encodable(f)
    ensures Means(Record(Fields(p, v6), Values(p, v6, c, f, start)), c, f, start)
  {
    hide Values, Fields, ElementValue;
    FieldsAreValid(p, v6);
    forall i | 0 <= i < |Fields(p, v6)|
      ensures Values(p, v6, c, f, start)[i] == ElementValue(Fields(p, v6)[i].element, c, f, start)
    {
      ValueAt(p, v6, c, f, start, i);
    }
  }

  lemma ValuesFit(p: Protocol, v6: bool, c: Config, f: Flow, start: int)
    requires Parsed(f) && Encodable(f) && (!v6 ==> !IsV6(f)) && |f.app| < TWO16
    ensures Fit(Values(p, v6, c, f, start), Fields(p, v6))
  {
    hide Be, Sum64, ProtoNumber, UptimeMs, Millis;
  }

  // ---- The encoder -----------------------------------------------------------------------------------

  /** The start of the exporter, the sequence number, and when each template was last sent. */
  datatype Encoder = Encoder(start: int, sequence: Uint32, templateLast: map<nat, int>)

  function RefreshNs(c: Config): int {
    if c.refreshSeconds <= 0 then 30_000_000_000 else c.refreshSeconds * 1_000_000_000
  }

  predicate TemplateDue(e: Encoder, c: Config, tid: nat, now: int, force: bool) {
    force || tid !in e.templateLast || now - e.templateLast[tid] >= RefreshNs(c)
  }

  function Next32(n: Uint32): Uint32 { if n + 1 == TWO32 then 0 else n + 1 }

  /** A message with one set, numbered with the present sequence number. */
  function Message(p: Protocol, e: Encoder, c: Config, now: int, set_: seq<Byte>): seq<Byte> {
    Header(p, HeaderSize(p) + |set_|, UptimeMs(e.start, now), Seconds(now), e.sequence, c.domain) + set_
  }

  function TemplateSet(p: Protocol, v6: bool): seq<Byte> {
    SetBytes(TemplateSetId(p), TemplateContent(TemplateId(p, v6), Fields(p, v6)))
  }

  function DataSet(p: Protocol, c: Config, f: Flow, start: int): seq<Byte>
    requires Encodable(f)
  {
    FieldsAreValid(p, IsV6(f));
    SetBytes(TemplateId(p, IsV6(f)), RecordBytes(Values(p, IsV6(f), c, f, start), Fields(p, IsV6(f))))
  }

  /** Marks the template as sent; NetFlow also counts its packet. */
  function Templated(p: Protocol, e: Encoder, tid: nat, now: int): Encoder {
    Encoder(e.start, if p == NetFlow9 then Next32(e.sequence) else e.sequence, e.templateLast[tid := now])
  }

  function Counted(e: Encoder): Encoder { e.(sequence := Next32(e.sequence)) }

  /** A due template, then the data - but when an address is not one, an error and no message. */
  function Encode(p: Protocol, e: Encoder, c: Config, f: Flow, now: int, force: bool): (r: (Encoder, Option<seq<seq<Byte>>>)) {
    var v6 := IsV6(f);
    var tid := TemplateId(p, v6);
    var due := TemplateDue(e, c, tid, now, force);
    var e1 := if due then Templated(p, e, tid, now) else e;
    if Encodable(f) then
      var data := Message(p, e1, c, now, DataSet(p, c, f, e.start));
      (Counted(e1), Some(if due then [Message(p, e, c, now, TemplateSet(p, v6)), data] else [data]))
    else (if p == NetFlow9 then Counted(e1) else e1, None)
  }

  // ---- One encode, received --------------------------------------------------------------------------

  /** The data message fits the 16-bit length. */
  predicate Sized(p: Protocol, c: Config, f: Flow, start: int) {
    Encodable(f) ==> HeaderSize(p) + |DataSet(p, c, f, start)| < TWO16 && |f.app| < TWO16
  }

  /** Every template marked as sent is known to the collector. */
  ghost predicate Tracked(p: Protocol, e: Encoder, known: Templates) {
    forall v6: bool :: TemplateId(p, v6) in e.templateLast ==>
      TemplateId(p, v6) in known && known[TemplateId(p, v6)] == Fields(p, v6)
  }

  lemma TemplateReceived(p: Protocol, e: Encoder, c: Config, v6: bool, now: int, known: Templates)
    ensures var msg := Message(p, e, c, now, TemplateSet(p, v6));
            && Receive(p, known, msg) == Some(Received(known[TemplateId(p, v6) := Fields(p, v6)], [], 1))
            && |msg| >= HeaderSize(p) && SequenceOf(p, msg) == e.sequence && |msg| % 4 == 0
  {
    hide Receive, TakeSets, SetBytes, Header, SequenceOf, Fields, UptimeMs, Seconds, FromBe, Be, TemplateContent;
    FieldsAreValid(p, v6);
    TakeTemplateSet(p, TemplateId(p, v6), Fields(p, v6), known);
    OneSetMessage(p, TemplateSet(p, v6), known, UptimeMs(e.start, now), Seconds(now), e.sequence, c.domain);
  }

  lemma DataReceived(p: Protocol, e: Encoder, c: Config, f: Flow, now: int, known: Templates)
    requires Parsed(f) && Encodable(f) && Sized(p, c, f, e.start)
    requires var tid := TemplateId(p, IsV6(f)); tid in known && known[tid] == Fields(p, IsV6(f))
    ensures var msg := Message(p, e, c, now, DataSet(p, c, f, e.start));
            && Receive(p, known, msg) ==
               Some(Received(known, [Record(Fields(p, IsV6(f)), Values(p, IsV6(f), c, f, e.start))], 1))
            && |msg| >= HeaderSize(p) && SequenceOf(p, msg) == e.sequence && |msg| % 4 == 0
            && (p == Ipfix ==> FromBe(msg[2..4]) == |msg|)
  {
    hide Receive, TakeSets, SetBytes, RecordBytes, Header, SequenceOf, Fields, Values, UptimeMs, Seconds, FromBe, Be,
      Fit, IsV6, Parsed;
    var v6 := IsV6(f);
    FieldsAreValid(p, v6);
    ValuesFit(p, v6, c, f, e.start);
    TakeDataSet(p, TemplateId(p, v6), Values(p, v6, c, f, e.start), Fields(p, v6), known);
    OneSetMessage(p, DataSet(p, c, f, e.start), known, UptimeMs(e.start, now), Seconds(now), e.sequence, c.domain);
  }
}
