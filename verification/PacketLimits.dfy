/** Frames that carry no ports, later fragments, and frames cut short. */
module PacketLimits {
  import opened Bytes
  import opened Endian
  import opened PacketDecode
  import opened PacketRoundTrip

  // ---- Whatever is inside --------------------------------------------------------------------------

  /** An IPv4 datagram with any content: what the transport is decoded from is the content alone, when
      it is all there, and what there is of it when the frame was cut. */
  lemma Ip4IsParsed(pre: seq<Byte>, h: Ip4, proto: Byte, size: nat, x: seq<Byte>, trailer: seq<Byte>, p: Packet)
    requires ValidIp4(h, size) && (|x| == size || (|x| < size && trailer == []))
    ensures ParseIpv4(pre + (Ip4Bytes(h, proto, size) + x + trailer), |pre|, p) ==
            ParseTransport(x, 0, proto, p.(version := 4, tos := h.tos, src := h.src, dst := h.dst))
  {
    hide Num16, At, Ip4Bytes, ParseTransport, FromBe;
    var ip := Ip4Bytes(h, proto, size);
    var body := ip + x + trailer;
    var b := pre + body;
    assert body == ip + (x + trailer);
    Ip4Fields(h, proto, size, x + trailer);
    Ip4Size(h, proto, size);
    var ihl := 20 + |h.options|;
    var off := |pre|;
    ShiftNums(pre, body, 0);
    ShiftNums(pre, body, 1);
    ShiftNums(pre, body, 2);
    ShiftNums(pre, body, 9);
    assert b[off + 12..off + 16] == body[12..16] && b[off + 16..off + 20] == body[16..20];
    var end := if off + (ihl + size) > |b| then |b| else off + (ihl + size);
    assert b[..end] == (pre + ip) + x;
    TransportShift(pre + ip, x, proto, p.(version := 4, tos := h.tos, src := h.src, dst := h.dst));
  }

  lemma Ip6IsParsed(pre: seq<Byte>, h: Ip6, exts: seq<Ext>, proto: Byte, x: seq<Byte>, p: Packet)
    requires ValidIp6(h) && ValidExts(exts) && Walked(proto)
    ensures ParseIpv6(pre + (Ip6Bytes(h, NextOf(exts, proto)) + (ChainBytes(exts, proto) + x)), |pre|, p) ==
            ParseTransport(x, 0, proto, p.(version := 6, tos := h.tos, src := h.src, dst := h.dst))
  {
    hide Num16, At, Ip6Bytes, ParseTransport, FromBe, WalkChain, ChainBytes, ValidExts, NextOf, ValidIp6, Walked;
    var ip := Ip6Bytes(h, NextOf(exts, proto));
    var chain := ChainBytes(exts, proto);
    var body := ip + (chain + x);
    var b := pre + body;
    Ip6Front(pre, h, NextOf(exts, proto), chain + x);
    assert b == (pre + ip) + (chain + x);
    ChainIsWalked(pre + ip, exts, proto, x);
    assert b == (pre + ip + chain) + x;
    TransportShift(pre + ip + chain, x, proto, p.(version := 6, tos := h.tos, src := h.src, dst := h.dst));
  }

  /** What is read from an IPv6 header behind other octets. */
  lemma Ip6Front(pre: seq<Byte>, h: Ip6, next: Byte, rest: seq<Byte>)
    requires ValidIp6(h)
    ensures var b := pre + (Ip6Bytes(h, next) + rest); var off := |pre|;
            && |b| >= off + 40 && At(b, off) / 16 == 6 && At(b, off) % 16 * 16 + At(b, off + 1) / 16 == h.tos
            && At(b, off + 6) == next && b[off + 8..off + 24] == h.src && b[off + 24..off + 40] == h.dst
  {
    hide At, Ip6Bytes;
    var body := Ip6Bytes(h, next) + rest;
    var b, off := pre + body, |pre|;
    Ip6Fields(h, next, rest);
    ShiftNums(pre, body, 0);
    ShiftNums(pre, body, 1);
    ShiftNums(pre, body, 6);
    assert b[off + 8..off + 24] == body[8..24] && b[off + 24..off + 40] == body[24..40];
  }

  function Ip4Any(macs: seq<Byte>, tags: seq<Tag>, h: Ip4, proto: Byte, size: nat, x: seq<Byte>, trailer: seq<Byte>): seq<Byte>
    requires ValidIp4(h, size)
  {
    EthernetBytes(macs, tags, IPV4) + (Ip4Bytes(h, proto, size) + x + trailer)
  }

  function Ip6Any(macs: seq<Byte>, tags: seq<Tag>, h: Ip6, exts: seq<Ext>, proto: Byte, x: seq<Byte>): seq<Byte>
    requires ValidIp6(h) && ValidExts(exts)
  {
    EthernetBytes(macs, tags, IPV6) + (Ip6Bytes(h, NextOf(exts, proto)) + (ChainBytes(exts, proto) + x))
  }

  lemma Ip4FrameIsParsed(macs: seq<Byte>, tags: seq<Tag>, h: Ip4, proto: Byte, size: nat, x: seq<Byte>, trailer: seq<Byte>)
    requires |macs| == 12 && ValidTags(tags) && ValidIp4(h, size) && (|x| == size || (|x| < size && trailer == []))
    ensures ParseEthernet(Ip4Any(macs, tags, h, proto, size, x, trailer)) ==
            ParseTransport(x, 0, proto, BLANK.(vlan := FirstVlan(tags, 0), version := 4, tos := h.tos, src := h.src, dst := h.dst))
  {
    hide EthernetBytes, Ip4Bytes, ParseIpv4, ParseIpv6, ParseTransport, WalkTags, Num16, FirstVlan;
    var eth := EthernetBytes(macs, tags, IPV4);
    EthernetIsRead(macs, tags, IPV4, Ip4Bytes(h, proto, size) + x + trailer);
    Ip4IsParsed(eth, h, proto, size, x, trailer, BLANK.(vlan := FirstVlan(tags, 0)));
  }

  lemma Ip6FrameIsParsed(macs: seq<Byte>, tags: seq<Tag>, h: Ip6, exts: seq<Ext>, proto: Byte, x: seq<Byte>)
    requires |macs| == 12 && ValidTags(tags) && ValidIp6(h) && ValidExts(exts) && Walked(proto)
    ensures ParseEthernet(Ip6Any(macs, tags, h, exts, proto, x)) ==
            ParseTransport(x, 0, proto, BLANK.(vlan := FirstVlan(tags, 0), version := 6, tos := h.tos, src := h.src, dst := h.dst))
  {
    hide EthernetBytes, Ip6Bytes, ParseIpv4, ParseIpv6, ParseTransport, WalkTags, Num16, FirstVlan, ChainBytes, NextOf,
      ValidIp6, ValidExts, Walked;
    var eth := EthernetBytes(macs, tags, IPV6);
    EthernetIsRead(macs, tags, IPV6, Ip6Bytes(h, NextOf(exts, proto)) + (ChainBytes(exts, proto) + x));
    Ip6IsParsed(eth, h, exts, proto, x, BLANK.(vlan := FirstVlan(tags, 0)));
  }

  // ---- Without ports -----------------------------------------------------------------------------------

  /** A packet of a protocol without ports: an ICMP message of at least two octets gives its type and
      code and is the payload from its first octet on; of other protocols everything is payload. */
  ghost predicate HoldsMessage(q: Packet, proto: nat, x: seq<Byte>) {
    && q.srcPort == q.dstPort == q.seqNo == q.ackNo == q.flags == 0
    && (proto == 1 ==> q.protocol == Icmp) && (proto == 58 ==> q.protocol == IcmpV6)
    && (proto != 1 && proto != 58 ==> q.protocol == Other(proto) && q.payload == x && q.icmpType == q.icmpCode == 0)
    && ((proto == 1 || proto == 58) && |x| >= 2 ==> q.payload == x && q.icmpType == x[0] && q.icmpCode == x[1])
    && ((proto == 1 || proto == 58) && |x| < 2 ==> q.payload == [] && q.icmpType == q.icmpCode == 0)
  }

  lemma MessageIsRead(x: seq<Byte>, proto: nat, version: nat, vlan: nat, tos: nat, src: seq<Byte>, dst: seq<Byte>)
    requires proto != 6 && proto != 17
    ensures var r := ParseTransport(x, 0, proto, BLANK.(vlan := vlan, version := version, tos := tos, src := src, dst := dst));
            && r.Ok? && HoldsMessage(r.value, proto, x)
            && r.value.version == version && r.value.vlan == vlan && r.value.tos == tos && r.value.src == src && r.value.dst == dst
  {
    assert x[0..] == x;
  }

  /** Frames with ICMP, ICMPv6 or any protocol other than TCP and UDP. */
  lemma MessageFrameIsDecoded(macs: seq<Byte>, tags: seq<Tag>, h: Ip4, h6: Ip6, exts: seq<Ext>, proto: Byte, x: seq<Byte>,
                              trailer: seq<Byte>)
    requires |macs| == 12 && ValidTags(tags) && ValidIp4(h, |x|) && ValidIp6(h6) && ValidExts(exts)
    requires proto != 6 && proto != 17
    ensures var r := ParseEthernet(Ip4Any(macs, tags, h, proto, |x|, x, trailer));
            && r.Ok? && HoldsMessage(r.value, proto, x) && r.value.version == 4 && r.value.vlan == FirstVlan(tags, 0)
            && r.value.tos == h.tos && r.value.src == h.src && r.value.dst == h.dst
    ensures Walked(proto) ==>
              var r := ParseEthernet(Ip6Any(macs, tags, h6, exts, proto, x));
              && r.Ok? && HoldsMessage(r.value, proto, x) && r.value.version == 6 && r.value.vlan == FirstVlan(tags, 0)
              && r.value.tos == h6.tos && r.value.src == h6.src && r.value.dst == h6.dst
  {
    hide ParseEthernet, ParseTransport, Ip4Any, Ip6Any, FirstVlan, HoldsMessage, Walked, ValidExts, ValidIp6, ValidTags;
    Ip4FrameIsParsed(macs, tags, h, proto, |x|, x, trailer);
    MessageIsRead(x, proto, 4, FirstVlan(tags, 0), h.tos, h.src, h.dst);
    if Walked(proto) {
      Ip6FrameIsParsed(macs, tags, h6, exts, proto, x);
      MessageIsRead(x, proto, 6, FirstVlan(tags, 0), h6.tos, h6.src, h6.dst);
    }
  }

  // ---- Later fragments ---------------------------------------------------------------------------------

  /** A fragment header that is not at offset zero. */
  function LaterFragment(next: Byte, skipped: Byte, low: nat, id: seq<Byte>): seq<Byte> {
    [next, skipped] + Be(low, 2) + id
  }

  lemma FragmentEnds(b: seq<Byte>, pos: nat)
    requires |b| >= pos + 8 && Num16(b, pos + 2) / 8 != 0
    ensures WalkChain(b, 44, pos) == Later(pos + 8)
  {
    hide Num16, At;
  }

  lemma LaterIsWalked(pre: seq<Byte>, next: Byte, skipped: Byte, low: nat, id: seq<Byte>, rest: seq<Byte>)
    requires 8 <= low < TWO16 && |id| == 4
    ensures WalkChain(pre + (LaterFragment(next, skipped, low, id) + rest), 44, |pre|) == Later(|pre| + 8)
  {
    hide Be, Num16, WalkChain, LaterFragment;
    var body := LaterFragment(next, skipped, low, id) + rest;
    OffsetIsRead(next, skipped, low, id, rest);
    ShiftNums(pre, body, 2);
    FragmentEnds(pre + body, |pre|);
  }

  lemma OffsetIsRead(next: Byte, skipped: Byte, low: nat, id: seq<Byte>, rest: seq<Byte>)
    requires 8 <= low < TWO16 && |id| == 4
    ensures var body := LaterFragment(next, skipped, low, id) + rest; |body| >= 8 && Num16(body, 2) / 8 != 0
  {
    hide Be, Num16;
    var body := LaterFragment(next, skipped, low, id) + rest;
    assert body == [next, skipped] + (Be(low, 2) + (id + rest));
    assert body[2..4] == Be(low, 2);
    Num16Of(body, 2, low);
  }

  lemma {:induction false} ChainToLater(pre: seq<Byte>, exts: seq<Ext>, f: seq<Byte>, rest: seq<Byte>, next: Byte, skipped: Byte,
                                        low: nat, id: seq<Byte>)
    requires ValidExts(exts) && 8 <= low < TWO16 && |id| == 4 && f == LaterFragment(next, skipped, low, id)
    ensures WalkChain(pre + (ChainBytes(exts, 44) + (f + rest)), NextOf(exts, 44), |pre|) ==
            Later(|pre| + |ChainBytes(exts, 44)| + 8)
    decreases |exts|
  {
    hide WalkChain, ExtBytes, ExtKind, ValidExt, LaterFragment;
    if exts == [] {
      LaterIsWalked(pre, next, skipped, low, id, rest);
      assert [] + (f + rest) == f + rest;
    } else {
      var after := NextOf(exts[1..], 44);
      var e := ExtBytes(exts[0], after);
      var more := ChainBytes(exts[1..], 44) + (f + rest);
      assert ChainBytes(exts, 44) + (f + rest) == e + more;
      ExtIsWalked(pre, exts[0], after, more);
      assert pre + (e + more) == (pre + e) + more;
      ChainToLater(pre + e, exts[1..], f, rest, next, skipped, low, id);
    }
  }

  /** A later fragment of an IPv6 datagram: no transport is read, and what follows the fragment header is
      the payload. */
  lemma LaterFragmentIsKept(pre: seq<Byte>, h: Ip6, exts: seq<Ext>, next: Byte, skipped: Byte, low: nat, id: seq<Byte>,
                            rest: seq<Byte>, p: Packet)
    requires ValidIp6(h) && ValidExts(exts) && 8 <= low < TWO16 && |id| == 4
    ensures var f := LaterFragment(next, skipped, low, id);
            ParseIpv6(pre + (Ip6Bytes(h, NextOf(exts, 44)) + (ChainBytes(exts, 44) + (f + rest))), |pre|, p) ==
            Ok(p.(version := 6, tos := h.tos, src := h.src, dst := h.dst, protocol := Fragment, payload := rest))
  {
    hide At, Ip6Bytes, ParseTransport, FromBe, WalkChain, ChainBytes, ValidExts, NextOf, ValidIp6, LaterFragment;
    var f := LaterFragment(next, skipped, low, id);
    FragmentSize(next, skipped, low, id);
    var ip, chain := Ip6Bytes(h, NextOf(exts, 44)), ChainBytes(exts, 44);
    var b := pre + (ip + (chain + (f + rest)));
    Ip6Front(pre, h, NextOf(exts, 44), chain + (f + rest));
    assert b == (pre + ip) + (chain + (f + rest));
    ChainToLater(pre + ip, exts, f, rest, next, skipped, low, id);
    assert b[|pre| + 40 + |chain| + 8..] == rest;
  }

  lemma FragmentSize(next: Byte, skipped: Byte, low: nat, id: seq<Byte>)
    requires |id| == 4
    ensures |LaterFragment(next, skipped, low, id)| == 8
  {
    hide Be;
  }

  // ---- Cut frames --------------------------------------------------------------------------------------

  lemma SegmentCut(s: Segment, n: nat, p: Packet)
    requires ValidSegment(s) && n < |SegmentBytes(s)|
    ensures ParseTransport(SegmentBytes(s)[..n], 0, Number(s), p) == Error
  {
    hide Num16, Num32, SegmentBytes, ValidSegment, FromBe;
    if s.TcpSegment? {
      TcpLength(s, []);
      assert SegmentBytes(s) + [] == SegmentBytes(s);
      if n >= 20 { assert SegmentBytes(s)[..n][12] == SegmentBytes(s)[12]; }
    } else {
      UdpSize(s);
    }
  }

  lemma UdpSize(s: Segment)
    requires ValidSegment(s) && s.UdpDatagram?
    ensures |SegmentBytes(s)| == 8
  {
    hide Be;
  }

  lemma Ip4Cut(pre: seq<Byte>, h: Ip4, proto: Byte, size: nat, n: nat, p: Packet)
    requires ValidIp4(h, size) && n < |Ip4Bytes(h, proto, size)|
    ensures ParseIpv4(pre + Ip4Bytes(h, proto, size)[..n], |pre|, p) == Error
  {
    hide Num16, Ip4Bytes, ParseTransport;
    var ip := Ip4Bytes(h, proto, size);
    Ip4Fields(h, proto, size, []);
    Ip4Size(h, proto, size);
    assert ip + [] == ip;
    if n >= 20 { assert (pre + ip[..n])[|pre|] == ip[0]; }
  }

  lemma {:induction false} TagsCut(pre: seq<Byte>, tags: seq<Tag>, et: nat, vlan: nat, n: nat)
    requires ValidTags(tags) && et < TWO16 && n < 4 * |tags|
    ensures WalkTags(pre + TagBytes(tags, et)[..n], |pre|, TypeOf(tags, et), vlan) == Error
    decreases |tags|
  {
    hide Num16, Be;
    var b := pre + TagBytes(tags, et)[..n];
    if n >= 4 {
      var t := tags[0];
      var two := Be(TypeOf(tags[1..], et), 2);
      var later := TagBytes(tags[1..], et)[..n - 4];
      var body := Be(t.tci, 2) + (two + later);
      assert TagBytes(tags, et)[..n] == body;
      Read16(TypeOf(tags[1..], et), later);
      ShiftNums(pre, body, 2);
      ShiftNums(Be(t.tci, 2), two + later, 0);
      var pre' := pre + Be(t.tci, 2) + two;
      assert b == pre' + later;
      TagsCut(pre', tags[1..], et, if vlan == 0 then Num16(b, |pre|) % 4096 else vlan, n - 4);
    }
  }

  lemma EthernetCut(macs: seq<Byte>, tags: seq<Tag>, et: nat, n: nat)
    requires |macs| == 12 && ValidTags(tags) && et < TWO16 && n < |EthernetBytes(macs, tags, et)|
    ensures ParseEthernet(EthernetBytes(macs, tags, et)[..n]) == Error
  {
    hide Num16, Be, WalkTags, ParseIpv4, ParseIpv6;
    var ty := Be(TypeOf(tags, et), 2);
    if n >= 14 {
      var cut := TagBytes(tags, et)[..n - 14];
      assert EthernetBytes(macs, tags, et)[..n] == macs + (ty + cut) == (macs + ty) + cut;
      Read16(TypeOf(tags, et), cut);
      ShiftNums(macs, ty + cut, 0);
      TagsCut(macs + ty, tags, et, 0, n - 14);
    }
  }

  /** An IPv4 frame captured short: as long as its headers are there it is decoded as the frame with what
      is left of the data, and without all of them it is refused. */
  lemma CutFrame(macs: seq<Byte>, tags: seq<Tag>, h: Ip4, s: Segment, data: seq<Byte>, n: nat)
    requires |macs| == 12 && ValidTags(tags) && ValidSegment(s) && ValidIp4(h, |SegmentBytes(s)| + |data|)
    requires n <= |Ip4Frame(macs, tags, h, s, data, [])|
    ensures var raw := Ip4Frame(macs, tags, h, s, data, []); var head := |Headers4(macs, tags, h, s, |data|)|;
            && (n >= head ==>
                 n - head <= |data| && ParseEthernet(raw[..n]) == Ok(Expected(tags, 4, h.tos, h.src, h.dst, s, data[..n - head])))
            && (n < head ==> ParseEthernet(raw[..n]) == Error)
  {
    hide ParseEthernet, EthernetBytes, Ip4Bytes, SegmentBytes, ValidSegment, ParseTransport, FirstVlan, WithSegment, ValidTags;
    var eth := EthernetBytes(macs, tags, IPV4);
    var size := |SegmentBytes(s)| + |data|;
    var ip := Ip4Bytes(h, Number(s), size);
    var seg := SegmentBytes(s);
    var raw := Ip4Frame(macs, tags, h, s, data, []);
    assert raw == eth + (ip + (seg + data));
    var q := BLANK.(vlan := FirstVlan(tags, 0), version := 4, tos := h.tos, src := h.src, dst := h.dst);
    if n < |eth| {
      assert raw[..n] == eth[..n];
      EthernetCut(macs, tags, IPV4, n);
    } else if n < |eth| + |ip| {
      assert raw[..n] == eth + ip[..n - |eth|];
      Ip4HeaderCut(macs, tags, h, Number(s), size, n - |eth|);
    } else {
      var x := (seg + data)[..n - |eth| - |ip|];
      assert raw[..n] == eth + (ip + x + []);
      Ip4FrameIsParsed(macs, tags, h, Number(s), size, x, []);
      if |x| < |seg| {
        assert x == seg[..|x|];
        SegmentCut(s, |x|, q);
      } else {
        var left := data[..|x| - |seg|];
        assert x == [] + (seg + left);
        SegmentIsRead([], s, left, q);
      }
    }
  }

  lemma Ip4HeaderCut(macs: seq<Byte>, tags: seq<Tag>, h: Ip4, proto: Byte, size: nat, n: nat)
    requires |macs| == 12 && ValidTags(tags) && ValidIp4(h, size) && n < |Ip4Bytes(h, proto, size)|
    ensures ParseEthernet(EthernetBytes(macs, tags, IPV4) + Ip4Bytes(h, proto, size)[..n]) == Error
  {
    hide EthernetBytes, Ip4Bytes, ParseIpv4, ParseIpv6, WalkTags, Num16, FirstVlan, ValidTags;
    var cut := Ip4Bytes(h, proto, size)[..n];
    EthernetIsRead(macs, tags, IPV4, cut);
    Ip4Cut(EthernetBytes(macs, tags, IPV4), h, proto, size, n, BLANK.(vlan := FirstVlan(tags, 0)));
  }

  /** Frames that are neither IPv4 nor IPv6 are refused, whatever they hold. */
  lemma OtherTypesAreRefused(macs: seq<Byte>, tags: seq<Tag>, et: nat, rest: seq<Byte>)
    requires |macs| == 12 && ValidTags(tags) && et < TWO16 && et != 0x8100 && et != 0x88a8
    ensures et != 0x0800 && et != 0x86dd ==> ParseEthernet(EthernetBytes(macs, tags, et) + rest) == Error
  {
    hide EthernetBytes, ParseIpv4, ParseIpv6, WalkTags, Num16, FirstVlan;
    EthernetIsRead(macs, tags, et, rest);
  }

  /** So is an IP header that contradicts its place: another version, a header shorter than twenty octets,
      or a total length shorter than the header. */
  lemma BadHeadersAreRefused(b: seq<Byte>, off: nat, p: Packet)
    requires |b| >= off + 20
    ensures (b[off] as int / 16 != 4 || b[off] as int % 16 < 5
             || 256 * (b[off + 2] as int) + b[off + 3] as int < b[off] as int % 16 * 4) ==>
              ParseIpv4(b, off, p) == Error
    ensures b[off] as int / 16 != 6 ==> ParseIpv6(b, off, p) == Error
  {
    hide ParseTransport, WalkChain;
    TwoOctets(b[off + 2..off + 4]);
  }

  /** And a TCP header that says it is shorter than twenty octets, or longer than what is there. */
  lemma BadTcpIsRefused(b: seq<Byte>, off: nat, p: Packet)
    requires |b| >= off + 20
    ensures b[off + 12] as int / 16 < 5 || off + b[off + 12] as int / 16 * 4 > |b| ==> ParseTransport(b, off, 6, p) == Error
  {
    hide FromBe;
  }

  lemma TwoOctets(w: seq<Byte>)
    requires |w| == 2
    ensures FromBe(w) == 256 * (w[0] as int) + w[1] as int
  {
    assert FromBe(w[..1]) == w[0] as int by { assert w[..1][..0] == []; }
  }
}
