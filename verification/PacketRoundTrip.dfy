/** Frames laid out field by field, and what decoding and headers-only retention make of them. */
module PacketRoundTrip {
  import opened Bytes
  import opened Endian
  import opened PacketDecode

  // ---- Layout ---------------------------------------------------------------------------------

  /** A VLAN tag: its type and its 16 bits of control information. */
  datatype Tag = Tag(kind: nat, tci: nat)

  predicate ValidTags(tags: seq<Tag>) {
    forall i :: 0 <= i < |tags| ==> IsTag(tags[i].kind) && tags[i].tci < TWO16
  }

  function TypeOf(tags: seq<Tag>, et: nat): nat { if tags == [] then et else tags[0].kind }

  /** Everything behind the first type field. */
  function TagBytes(tags: seq<Tag>, et: nat): (b: seq<Byte>)
    ensures |b| == 4 * |tags|
  {
    if tags == [] then [] else Be(tags[0].tci, 2) + Be(TypeOf(tags[1..], et), 2) + TagBytes(tags[1..], et)
  }

  function FirstVlan(tags: seq<Tag>, vlan: nat): nat
    decreases |tags|
  {
    if tags == [] then vlan else FirstVlan(tags[1..], if vlan == 0 then tags[0].tci % 4096 else vlan)
  }

  function EthernetBytes(macs: seq<Byte>, tags: seq<Tag>, et: nat): seq<Byte> {
    macs + Be(TypeOf(tags, et), 2) + TagBytes(tags, et)
  }

  /** The fields of an IPv4 header that decoding does not look at are `mid` (identification,
      fragment, time to live), `sum` and `options`. */
  datatype Ip4 = Ip4(tos: Byte, mid: seq<Byte>, sum: seq<Byte>, src: seq<Byte>, dst: seq<Byte>, options: seq<Byte>)

  predicate ValidIp4(h: Ip4, size: nat) {
    && |h.mid| == 5 && |h.sum| == 2 && |h.src| == 4 && |h.dst| == 4 && |h.options| % 4 == 0 && |h.options| <= 40
    && 20 + |h.options| + size < TWO16
  }

  function Ip4Bytes(h: Ip4, proto: Byte, size: nat): seq<Byte>
    requires ValidIp4(h, size)
  {
    [64 + 5 + |h.options| / 4, h.tos] + Be(20 + |h.options| + size, 2) + h.mid + [proto] + h.sum + h.src + h.dst + h.options
  }

  /** An extension header: a generic one, a fragment header at offset zero, or an authentication
      header. */
  datatype Ext = Generic(kind: nat, size: Byte, body: seq<Byte>)
               | FirstFragment(skipped: Byte, low: nat, id: seq<Byte>)
               | Auth(size: Byte, body: seq<Byte>)

  predicate ValidExt(x: Ext) {
    match x
    case Generic(kind, size, body) => (kind == 0 || kind == 43 || kind == 60) && |body| + 2 == (size as int + 1) * 8
    case FirstFragment(_, low, id) => low < 8 && |id| == 4
    case Auth(size, body) => |body| + 2 == (size as int + 2) * 4
  }

  predicate ValidExts(exts: seq<Ext>) { forall i :: 0 <= i < |exts| ==> ValidExt(exts[i]) }

  function ExtKind(x: Ext): Byte
    requires ValidExt(x)
  {
    match x
    case Generic(kind, _, _) => kind
    case FirstFragment(_, _, _) => 44
    case Auth(_, _) => 51
  }

  function ExtBytes(x: Ext, next: Byte): (b: seq<Byte>)
    requires ValidExt(x)
    ensures |b| >= 8
  {
    match x
    case Generic(_, size, body) => [next, size] + body
    case FirstFragment(skipped, low, id) => [next, skipped] + Be(low, 2) + id
    case Auth(size, body) => [next, size] + body
  }

  function NextOf(exts: seq<Ext>, upper: Byte): Byte
    requires ValidExts(exts)
  {
    if exts == [] then upper else ExtKind(exts[0])
  }

  function ChainBytes(exts: seq<Ext>, upper: Byte): seq<Byte>
    requires ValidExts(exts)
  {
    if exts == [] then [] else ExtBytes(exts[0], NextOf(exts[1..], upper)) + ChainBytes(exts[1..], upper)
  }

  datatype Ip6 = Ip6(tos: Byte, flow: seq<Byte>, low: Byte, size: seq<Byte>, hops: Byte, src: seq<Byte>, dst: seq<Byte>)

  predicate ValidIp6(h: Ip6) {
    |h.flow| == 2 && h.low < 16 && |h.size| == 2 && |h.src| == 16 && |h.dst| == 16
  }

  function Ip6Bytes(h: Ip6, next: Byte): (b: seq<Byte>)
    requires ValidIp6(h)
    ensures |b| == 40
  {
    var tos: int, low: int := h.tos, h.low;
    [96 + tos / 16, tos % 16 * 16 + low] + h.flow + h.size + [next, h.hops] + h.src + h.dst
  }

  datatype Segment =
    | TcpSegment(srcPort: nat, dstPort: nat, seqNo: nat, ackNo: nat, low: Byte, flags: Byte, tail: seq<Byte>, options: seq<Byte>)
    | UdpDatagram(srcPort: nat, dstPort: nat, tail: seq<Byte>)

  predicate ValidSegment(s: Segment) {
    s.srcPort < TWO16 && s.dstPort < TWO16 &&
    match s
    case TcpSegment(_, _, seqNo, ackNo, low, _, tail, options) =>
      seqNo < TWO32 && ackNo < TWO32 && low < 16 && |tail| == 6 && |options| % 4 == 0 && |options| <= 40
    case UdpDatagram(_, _, tail) => |tail| == 4
  }

  function Number(s: Segment): Byte { if s.TcpSegment? then 6 else 17 }

  function SegmentBytes(s: Segment): seq<Byte>
    requires ValidSegment(s)
  {
    match s
    case TcpSegment(sp, dp, seqNo, ackNo, low, flags, tail, options) =>
      var l: int := low;
      Be(sp, 2) + Be(dp, 2) + Be(seqNo, 4) + Be(ackNo, 4) + [(5 + |options| / 4) * 16 + l, flags] + tail + options
    case UdpDatagram(sp, dp, tail) => Be(sp, 2) + Be(dp, 2) + tail
  }

  /** The packet with the fields of a segment and its data. */
  function WithSegment(p: Packet, s: Segment, data: seq<Byte>): Packet {
    match s
    case TcpSegment(sp, dp, seqNo, ackNo, _, flags, _, _) =>
      p.(protocol := Tcp, srcPort := sp, dstPort := dp, seqNo := seqNo, ackNo := ackNo, flags := flags, payload := data)
    case UdpDatagram(sp, dp, _) => p.(protocol := Udp, srcPort := sp, dstPort := dp, payload := data)
  }

  // ---- Reading at an offset ------------------------------------------------------------------------

  lemma ShiftNums(pre: seq<Byte>, b: seq<Byte>, i: nat)
    ensures i + 2 <= |b| ==> Num16(pre + b, |pre| + i) == Num16(b, i)
    ensures i + 4 <= |b| ==> Num32(pre + b, |pre| + i) == Num32(b, i)
    ensures i < |b| ==> At(pre + b, |pre| + i) == At(b, i)
  {
    hide FromBe;
    if i + 2 <= |b| { assert (pre + b)[|pre| + i..|pre| + i + 2] == b[i..i + 2]; }
    if i + 4 <= |b| { assert (pre + b)[|pre| + i..|pre| + i + 4] == b[i..i + 4]; }
  }

  lemma ShiftDrop(pre: seq<Byte>, b: seq<Byte>, i: nat)
    requires i <= |b|
    ensures (pre + b)[|pre| + i..] == b[i..]
  {}

  lemma Read16(n: nat, rest: seq<Byte>)
    requires n < TWO16
    ensures Num16(Be(n, 2) + rest, 0) == n
  {
    hide FromBe, Be;
    Powers();
    BeInverse(n, 2);
    assert (Be(n, 2) + rest)[0..2] == Be(n, 2);
  }

  lemma TransportShift(pre: seq<Byte>, b: seq<Byte>, proto: nat, p: Packet)
    ensures ParseTransport(pre + b, |pre|, proto, p) == ParseTransport(b, 0, proto, p)
  {
    hide Num16, Num32, At;
    ShiftNums(pre, b, 0);
    ShiftNums(pre, b, 1);
    ShiftNums(pre, b, 2);
    ShiftNums(pre, b, 4);
    ShiftNums(pre, b, 8);
    ShiftNums(pre, b, 12);
    ShiftNums(pre, b, 13);
    ShiftDrop(pre, b, 0);
    assert b[0..] == b;
    if 8 <= |b| { ShiftDrop(pre, b, 8); }
    if 20 <= |b| {
      var hlen := At(b, 12) / 16 * 4;
      if hlen <= |b| { ShiftDrop(pre, b, hlen); }
    }
  }

  // ---- Transport -------------------------------------------------------------------------------------

  lemma Num16Of(b: seq<Byte>, i: nat, n: nat)
    requires n < TWO16 && i + 2 <= |b| && b[i..i + 2] == Be(n, 2)
    ensures Num16(b, i) == n
  {
    hide Be, FromBe;
    Powers();
    BeInverse(n, 2);
  }

  lemma Num32Of(b: seq<Byte>, i: nat, n: nat)
    requires n < TWO32 && i + 4 <= |b| && b[i..i + 4] == Be(n, 4)
    ensures Num32(b, i) == n
  {
    hide Be, FromBe;
    Powers();
    BeInverse(n, 4);
  }

  lemma Slices(a: seq<Byte>, b: seq<Byte>, c: seq<Byte>, d: seq<Byte>, rest: seq<Byte>)
    requires |a| == 2 && |b| == 2 && |c| == 4 && |d| == 4
    ensures var x := a + b + c + d + rest;
            && |x| >= 12 && x[0..2] == a && x[2..4] == b && x[4..8] == c && x[8..12] == d
            && forall i :: 0 <= i < |rest| ==> x[12 + i] == rest[i]
  {}

  lemma TcpNumbers(s: Segment, data: seq<Byte>)
    requires ValidSegment(s) && s.TcpSegment?
    ensures var b := SegmentBytes(s) + data;
            && |b| >= 20 && Num16(b, 0) == s.srcPort && Num16(b, 2) == s.dstPort
            && Num32(b, 4) == s.seqNo && Num32(b, 8) == s.ackNo
  {
    hide Be, Num16, Num32;
    var l: int := s.low;
    var tail := [(5 + |s.options| / 4) * 16 + l, s.flags as int] + s.tail + s.options + data;
    var b := SegmentBytes(s) + data;
    assert b == Be(s.srcPort, 2) + Be(s.dstPort, 2) + Be(s.seqNo, 4) + Be(s.ackNo, 4) + tail;
    Slices(Be(s.srcPort, 2), Be(s.dstPort, 2), Be(s.seqNo, 4), Be(s.ackNo, 4), tail);
    Num16Of(b, 0, s.srcPort);
    Num16Of(b, 2, s.dstPort);
    Num32Of(b, 4, s.seqNo);
    Num32Of(b, 8, s.ackNo);
  }

  lemma TcpLength(s: Segment, data: seq<Byte>)
    requires ValidSegment(s) && s.TcpSegment?
    ensures var b := SegmentBytes(s) + data; var l := |SegmentBytes(s)|;
            20 <= l && |b| >= l && At(b, 12) / 16 * 4 == l && At(b, 13) == s.flags && b[l..] == data
  {
    hide Be;
    var l: int := s.low;
    var head := Be(s.srcPort, 2) + Be(s.dstPort, 2) + Be(s.seqNo, 4) + Be(s.ackNo, 4);
    assert SegmentBytes(s) == head + ([(5 + |s.options| / 4) * 16 + l, s.flags as int] + s.tail + s.options);
    assert SegmentBytes(s)[12] == (5 + |s.options| / 4) * 16 + l;
  }

  lemma TcpIsRead(s: Segment, data: seq<Byte>, p: Packet)
    requires ValidSegment(s) && s.TcpSegment?
    ensures ParseTransport(SegmentBytes(s) + data, 0, 6, p) == Ok(WithSegment(p, s, data))
  {
    hide Num16, Num32, At, SegmentBytes, ValidSegment;
    TcpNumbers(s, data);
    TcpLength(s, data);
  }

  lemma UdpIsRead(s: Segment, data: seq<Byte>, p: Packet)
    requires ValidSegment(s) && s.UdpDatagram?
    ensures ParseTransport(SegmentBytes(s) + data, 0, 17, p) == Ok(WithSegment(p, s, data))
  {
    hide Num16, Num32, Be;
    var b := SegmentBytes(s) + data;
    assert b[0..2] == Be(s.srcPort, 2) && b[2..4] == Be(s.dstPort, 2) && b[8..] == data;
    Num16Of(b, 0, s.srcPort);
    Num16Of(b, 2, s.dstPort);
  }

  lemma SegmentIsRead(pre: seq<Byte>, s: Segment, data: seq<Byte>, p: Packet)
    requires ValidSegment(s)
    ensures ParseTransport(pre + (SegmentBytes(s) + data), |pre|, Number(s), p) == Ok(WithSegment(p, s, data))
  {
    hide ParseTransport, SegmentBytes, ValidSegment;
    TransportShift(pre, SegmentBytes(s) + data, Number(s), p);
    if s.TcpSegment? { TcpIsRead(s, data, p); } else { UdpIsRead(s, data, p); }
  }

  // ---- Network ---------------------------------------------------------------------------------------

  /** The fields that stand at fixed offsets. */
  lemma Ip4Slices(h: Ip4, proto: Byte, size: nat, rest: seq<Byte>)
    requires ValidIp4(h, size)
    ensures var b := Ip4Bytes(h, proto, size) + rest; var ihl := 20 + |h.options|;
            && |b| >= ihl && b[0] == 64 + 5 + |h.options| / 4 && b[1] == h.tos && b[9] == proto
            && b[12..16] == h.src && b[16..20] == h.dst && b[ihl..] == rest
  {
    hide Be;
  }

  lemma Ip4Length(h: Ip4, proto: Byte, size: nat, rest: seq<Byte>)
    requires ValidIp4(h, size)
    ensures var b := Ip4Bytes(h, proto, size) + rest; |b| >= 4 && Num16(b, 2) == 20 + |h.options| + size
  {
    hide Num16, Be;
    var b := Ip4Bytes(h, proto, size) + rest;
    var total := 20 + |h.options| + size;
    var r2 := Be(total, 2) + (h.mid + [proto] + h.sum + h.src + h.dst + h.options + rest);
    assert b == [64 + 5 + |h.options| / 4, h.tos as int] + r2;
    Read16(total, h.mid + [proto] + h.sum + h.src + h.dst + h.options + rest);
    ShiftNums([64 + 5 + |h.options| / 4, h.tos as int], r2, 0);
  }

  lemma FirstOctet(n: nat)
    requires n % 4 == 0 && n <= 40
    ensures (64 + 5 + n / 4) / 16 == 4 && (64 + 5 + n / 4) % 16 * 4 == 20 + n
  {}

  lemma Ip4Fields(h: Ip4, proto: Byte, size: nat, rest: seq<Byte>)
    requires ValidIp4(h, size)
    ensures var b := Ip4Bytes(h, proto, size) + rest; var ihl := 20 + |h.options|;
            && |b| >= ihl && At(b, 0) / 16 == 4 && At(b, 0) % 16 * 4 == ihl && At(b, 1) == h.tos
            && Num16(b, 2) == ihl + size && At(b, 9) == proto && b[12..16] == h.src && b[16..20] == h.dst
            && b[ihl..] == rest
  {
    hide Num16, Ip4Bytes;
    Ip4Slices(h, proto, size, rest);
    Ip4Length(h, proto, size, rest);
    FirstOctet(|h.options|);
  }

  /** An IPv4 datagram behind other octets and in front of trailing ones: the total length keeps
      the trailer out of the payload. */
  lemma Ip4IsRead(pre: seq<Byte>, h: Ip4, s: Segment, data: seq<Byte>, trailer: seq<Byte>, p: Packet)
    requires ValidSegment(s) && ValidIp4(h, |SegmentBytes(s)| + |data|)
    ensures ParseIpv4(pre + (Ip4Bytes(h, Number(s), |SegmentBytes(s)| + |data|) + (SegmentBytes(s) + data) + trailer), |pre|, p) ==
            Ok(WithSegment(p.(version := 4, tos := h.tos, src := h.src, dst := h.dst), s, data))
  {
    hide Num16, At, Ip4Bytes, SegmentBytes, ValidSegment, ParseTransport, FromBe, WithSegment;
    var x := SegmentBytes(s) + data;
    var ip := Ip4Bytes(h, Number(s), |x|);
    var body := ip + x + trailer;
    var b := pre + body;
    assert body == ip + (x + trailer);
    Ip4Fields(h, Number(s), |x|, x + trailer);
    Ip4Size(h, Number(s), |x|);
    var ihl := 20 + |h.options|;
    var off := |pre|;
    ShiftNums(pre, body, 0);
    ShiftNums(pre, body, 1);
    ShiftNums(pre, body, 2);
    ShiftNums(pre, body, 9);
    assert b[off + 12..off + 16] == body[12..16] && b[off + 16..off + 20] == body[16..20];
    assert |b| >= off + ihl + |x|;
    var q := p.(version := 4, tos := h.tos, src := h.src, dst := h.dst);
    assert b[..off + ihl + |x|] == (pre + ip) + x;
    SegmentIsRead(pre + ip, s, data, q);
  }

  lemma Ip4Size(h: Ip4, proto: Byte, size: nat)
    requires ValidIp4(h, size)
    ensures |Ip4Bytes(h, proto, size)| == 20 + |h.options|
  {
    hide Be;
  }

  /** What the walk reads at the start of an extension header. */
  lemma ExtFields(x: Ext, next: Byte, rest: seq<Byte>)
    requires ValidExt(x)
    ensures var b := ExtBytes(x, next) + rest; var n := |ExtBytes(x, next)|;
            && |b| >= n >= 8 && At(b, 0) == next
            && (x.Generic? ==> (At(b, 1) + 1) * 8 == n)
            && (x.Auth? ==> (At(b, 1) + 2) * 4 == n)
            && (x.FirstFragment? ==> n == 8 && Num16(b, 2) == x.low)
  {
    hide Be, Num16;
    var b := ExtBytes(x, next) + rest;
    assert b[0] == next;
    if x.FirstFragment? {
      assert b[2..4] == Be(x.low, 2);
      Num16Of(b, 2, x.low);
    } else {
      assert b[1] == x.size;
    }
  }

  lemma ExtIsWalked(pre: seq<Byte>, x: Ext, next: Byte, rest: seq<Byte>)
    requires ValidExt(x)
    ensures WalkChain(pre + (ExtBytes(x, next) + rest), ExtKind(x), |pre|) ==
            WalkChain(pre + (ExtBytes(x, next) + rest), next, |pre| + |ExtBytes(x, next)|)
  {
    hide Num16, At, ExtBytes;
    var body := ExtBytes(x, next) + rest;
    ExtFields(x, next, rest);
    ShiftNums(pre, body, 0);
    ShiftNums(pre, body, 1);
    ShiftNums(pre, body, 2);
  }

  predicate Walked(upper: nat) { upper != 0 && upper != 43 && upper != 60 && upper != 44 && upper != 51 }

  /** The walk passes every extension header and stops at the upper protocol. */
  lemma {:induction false} ChainIsWalked(pre: seq<Byte>, exts: seq<Ext>, upper: Byte, rest: seq<Byte>)
    requires ValidExts(exts) && Walked(upper)
    ensures WalkChain(pre + (ChainBytes(exts, upper) + rest), NextOf(exts, upper), |pre|) ==
            Upper(upper, |pre| + |ChainBytes(exts, upper)|)
    decreases |exts|
  {
    hide WalkChain, ExtBytes, ExtKind, ValidExt;
    if exts == [] {
      UpperStops(pre + ([] + rest), upper, |pre|);
    } else {
      var next := NextOf(exts[1..], upper);
      var e := ExtBytes(exts[0], next);
      var more := ChainBytes(exts[1..], upper) + rest;
      assert ChainBytes(exts, upper) + rest == e + more;
      ExtIsWalked(pre, exts[0], next, more);
      assert pre + (e + more) == (pre + e) + more;
      ChainIsWalked(pre + e, exts[1..], upper, rest);
    }
  }

  lemma UpperStops(b: seq<Byte>, upper: nat, pos: nat)
    requires Walked(upper)
    ensures WalkChain(b, upper, pos) == Upper(upper, pos)
  {}

  lemma Ip6Fields(h: Ip6, next: Byte, rest: seq<Byte>)
    requires ValidIp6(h)
    ensures var b := Ip6Bytes(h, next) + rest;
            && |b| >= 40 && At(b, 0) / 16 == 6 && At(b, 0) % 16 * 16 + At(b, 1) / 16 == h.tos
            && At(b, 6) == next && b[8..24] == h.src && b[24..40] == h.dst
  {
    var tos: int, low: int := h.tos, h.low;
    var b := Ip6Bytes(h, next) + rest;
    assert b[0] == 96 + tos / 16 && b[1] == tos % 16 * 16 + low && b[6] == next;
    assert b[8..24] == h.src && b[24..40] == h.dst;
  }

  /** An IPv6 datagram: every octet of the frame behind the segment header is payload, because the
      payload length is not looked at. */
  lemma Ip6IsRead(pre: seq<Byte>, h: Ip6, exts: seq<Ext>, s: Segment, data: seq<Byte>, p: Packet)
    requires ValidSegment(s) && ValidIp6(h) && ValidExts(exts)
    ensures ParseIpv6(pre + (Ip6Bytes(h, NextOf(exts, Number(s))) + (ChainBytes(exts, Number(s)) + (SegmentBytes(s) + data))),
                      |pre|, p) ==
            Ok(WithSegment(p.(version := 6, tos := h.tos, src := h.src, dst := h.dst), s, data))
  {
    hide Num16, At, Ip6Bytes, SegmentBytes, ValidSegment, ParseTransport, FromBe, WithSegment, WalkChain, ChainBytes, ValidExts, NextOf, ValidIp6;
    var x := SegmentBytes(s) + data;
    var next := NextOf(exts, Number(s));
    var chain := ChainBytes(exts, Number(s));
    var ip := Ip6Bytes(h, next);
    var body := ip + (chain + x);
    var b := pre + body;
    var off := |pre|;
    Ip6Fields(h, next, chain + x);
    ShiftNums(pre, body, 0);
    ShiftNums(pre, body, 1);
    ShiftNums(pre, body, 6);
    assert b[off + 8..off + 24] == body[8..24] && b[off + 24..off + 40] == body[24..40];
    assert b == (pre + ip) + (chain + x);
    ChainIsWalked(pre + ip, exts, Number(s), x);
    assert b == (pre + ip + chain) + x;
    SegmentIsRead(pre + ip + chain, s, data, p.(version := 6, tos := h.tos, src := h.src, dst := h.dst));
  }

  // ---- Ethernet --------------------------------------------------------------------------------------

  /** All tags are passed, and the first one with a number gives the VLAN. */
  lemma {:induction false} TagsAreWalked(pre: seq<Byte>, tags: seq<Tag>, et: nat, vlan: nat, rest: seq<Byte>)
    requires ValidTags(tags) && et < TWO16 && !IsTag(et)
    ensures WalkTags(pre + (TagBytes(tags, et) + rest), |pre|, TypeOf(tags, et), vlan) ==
            Ok(Tags(|pre| + 4 * |tags|, et, FirstVlan(tags, vlan)))
    decreases |tags|
  {
    hide Num16, Be;
    if tags != [] {
      var t := tags[0];
      var later := TagBytes(tags[1..], et) + rest;
      var two := Be(TypeOf(tags[1..], et), 2);
      var body := Be(t.tci, 2) + (two + later);
      assert TagBytes(tags, et) + rest == body;
      Read16(t.tci, two + later);
      Read16(TypeOf(tags[1..], et), later);
      ShiftNums(pre, body, 0);
      ShiftNums(pre, body, 2);
      ShiftNums(Be(t.tci, 2), two + later, 0);
      var pre' := pre + Be(t.tci, 2) + two;
      assert pre + body == pre' + later;
      TagsAreWalked(pre', tags[1..], et, if vlan == 0 then t.tci % 4096 else vlan, rest);
    }
  }

  lemma EthernetIsRead(macs: seq<Byte>, tags: seq<Tag>, et: nat, rest: seq<Byte>)
    requires |macs| == 12 && ValidTags(tags) && et < TWO16 && !IsTag(et)
    ensures var raw := EthernetBytes(macs, tags, et) + rest;
            && |raw| >= 14
            && WalkTags(raw, 14, Num16(raw, 12), 0) == Ok(Tags(|EthernetBytes(macs, tags, et)|, et, FirstVlan(tags, 0)))
  {
    hide Num16, Be, WalkTags;
    var raw := EthernetBytes(macs, tags, et) + rest;
    var ty := Be(TypeOf(tags, et), 2);
    var tail := TagBytes(tags, et) + rest;
    assert raw == macs + (ty + tail);
    Read16(TypeOf(tags, et), tail);
    ShiftNums(macs, ty + tail, 0);
    assert raw == (macs + ty) + tail;
    TagsAreWalked(macs + ty, tags, et, 0, rest);
  }

  /** What decoding must find in a frame. */
  function Expected(tags: seq<Tag>, version: nat, tos: Byte, src: seq<Byte>, dst: seq<Byte>, s: Segment, payload: seq<Byte>): Packet {
    WithSegment(BLANK.(vlan := FirstVlan(tags, 0), version := version, tos := tos, src := src, dst := dst), s, payload)
  }

  function Ip4Frame(macs: seq<Byte>, tags: seq<Tag>, h: Ip4, s: Segment, data: seq<Byte>, trailer: seq<Byte>): seq<Byte>
    requires ValidSegment(s) && ValidIp4(h, |SegmentBytes(s)| + |data|)
  {
    EthernetBytes(macs, tags, IPV4) + (Ip4Bytes(h, Number(s), |SegmentBytes(s)| + |data|) + (SegmentBytes(s) + data) + trailer)
  }

  /** The octets of an IPv4 frame before its data. */
  function Headers4(macs: seq<Byte>, tags: seq<Tag>, h: Ip4, s: Segment, size: nat): seq<Byte>
    requires ValidSegment(s) && ValidIp4(h, |SegmentBytes(s)| + size)
  {
    EthernetBytes(macs, tags, IPV4) + Ip4Bytes(h, Number(s), |SegmentBytes(s)| + size) + SegmentBytes(s)
  }

  /** Decoding an IPv4 frame, with any stack of tags, options and trailing octets, recovers every
      field and exactly the data. */
  lemma Ip4FrameIsDecoded(macs: seq<Byte>, tags: seq<Tag>, h: Ip4, s: Segment, data: seq<Byte>, trailer: seq<Byte>)
    requires |macs| == 12 && ValidTags(tags) && ValidSegment(s) && ValidIp4(h, |SegmentBytes(s)| + |data|)
    ensures ParseEthernet(Ip4Frame(macs, tags, h, s, data, trailer)) == Ok(Expected(tags, 4, h.tos, h.src, h.dst, s, data))
  {
    hide EthernetBytes, Ip4Bytes, SegmentBytes, ParseIpv4, ParseIpv6, WalkTags, Num16, ValidSegment, WithSegment, FirstVlan;
    var eth := EthernetBytes(macs, tags, IPV4);
    var rest := Ip4Bytes(h, Number(s), |SegmentBytes(s)| + |data|) + (SegmentBytes(s) + data) + trailer;
    EthernetIsRead(macs, tags, IPV4, rest);
    Ip4IsRead(eth, h, s, data, trailer, BLANK.(vlan := FirstVlan(tags, 0)));
  }

  function Ip6Frame(macs: seq<Byte>, tags: seq<Tag>, h: Ip6, exts: seq<Ext>, s: Segment, data: seq<Byte>): seq<Byte>
    requires ValidSegment(s) && ValidIp6(h) && ValidExts(exts)
  {
    EthernetBytes(macs, tags, IPV6)
    + (Ip6Bytes(h, NextOf(exts, Number(s))) + (ChainBytes(exts, Number(s)) + (SegmentBytes(s) + data)))
  }

  lemma Ip6FrameIsDecoded(macs: seq<Byte>, tags: seq<Tag>, h: Ip6, exts: seq<Ext>, s: Segment, data: seq<Byte>)
    requires |macs| == 12 && ValidTags(tags) && ValidSegment(s) && ValidIp6(h) && ValidExts(exts)
    ensures ParseEthernet(Ip6Frame(macs, tags, h, exts, s, data)) == Ok(Expected(tags, 6, h.tos, h.src, h.dst, s, data))
  {
    hide EthernetBytes, Ip6Bytes, SegmentBytes, ParseIpv4, ParseIpv6, WalkTags, Num16, ValidSegment, WithSegment, FirstVlan,
      ChainBytes, NextOf, ValidIp6, ValidExts;
    var eth := EthernetBytes(macs, tags, IPV6);
    var rest := Ip6Bytes(h, NextOf(exts, Number(s))) + (ChainBytes(exts, Number(s)) + (SegmentBytes(s) + data));
    EthernetIsRead(macs, tags, IPV6, rest);
    Ip6IsRead(eth, h, exts, s, data, BLANK.(vlan := FirstVlan(tags, 0)));
  }
}
