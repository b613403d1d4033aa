/** Decoding of Ethernet frames: VLAN tags, IPv4, IPv6 with extension headers, TCP, UDP and ICMP. */
module PacketDecode {
  import opened Bytes
  import opened Endian

  datatype Protocol = Tcp | Udp | Icmp | IcmpV6 | Fragment | Other(number: nat)

  /** A decoded packet; addresses are octets. */
  datatype Packet = Packet(version: nat, protocol: Protocol, src: seq<Byte>, dst: seq<Byte>, srcPort: nat, dstPort: nat,
                           seqNo: nat, ackNo: nat, flags: nat, tos: nat, vlan: nat, icmpType: nat, icmpCode: nat,
                           payload: seq<Byte>)

  datatype Result<T> = Ok(value: T) | Error

  function At(b: seq<Byte>, i: nat): nat
    requires i < |b|
  {
    b[i]
  }

  function Num16(b: seq<Byte>, i: nat): nat
    requires i + 2 <= |b|
  {
    FromBe(b[i..i + 2])
  }

  function Num32(b: seq<Byte>, i: nat): nat
    requires i + 4 <= |b|
  {
    FromBe(b[i..i + 4])
  }

  const BLANK := Packet(0, Other(0), [], [], 0, 0, 0, 0, 0, 0, 0, 0, 0, [])

  // ---- Transport ------------------------------------------------------------------------------

  function ParseTransport(b: seq<Byte>, off: nat, proto: nat, p: Packet): Result<Packet> {
    if proto == 6 then
      if |b| < off + 20 then Error
      else
        var hlen := At(b, off + 12) / 16 * 4;
        if hlen < 20 || |b| < off + hlen then Error
        else Ok(p.(protocol := Tcp, srcPort := Num16(b, off), dstPort := Num16(b, off + 2), seqNo := Num32(b, off + 4),
                   ackNo := Num32(b, off + 8), flags := At(b, off + 13), payload := b[off + hlen..]))
    else if proto == 17 then
      if |b| < off + 8 then Error
      else Ok(p.(protocol := Udp, srcPort := Num16(b, off), dstPort := Num16(b, off + 2), payload := b[off + 8..]))
    else if proto == 1 || proto == 58 then
      var q := p.(protocol := if proto == 1 then Icmp else IcmpV6);
      if |b| >= off + 2 then Ok(q.(icmpType := At(b, off), icmpCode := At(b, off + 1), payload := b[off..])) else Ok(q)
    else
      var q := p.(protocol := Other(proto));
      if |b| > off then Ok(q.(payload := b[off..])) else Ok(q)
  }

  // ---- Network ----------------------------------------------------------------------------------

  function ParseIpv4(b: seq<Byte>, off: nat, p: Packet): Result<Packet> {
    if |b| < off + 20 then Error
    else if At(b, off) / 16 != 4 then Error
    else
      var ihl := At(b, off) % 16 * 4;
      if ihl < 20 || |b| < off + ihl then Error
      else
        var total := Num16(b, off + 2);
        if total < ihl then Error
        else
          var end := if off + total > |b| then |b| else off + total;
          ParseTransport(b[..end], off + ihl, At(b, off + 9),
                         p.(version := 4, tos := At(b, off + 1), src := b[off + 12..off + 16], dst := b[off + 16..off + 20]))
  }

  /** Where the extension headers end: at an upper protocol, at a later fragment, or in an error. */
  datatype Chain = Broken | Later(pos: nat) | Upper(next: nat, pos: nat)

  function WalkChain(b: seq<Byte>, next: nat, pos: nat): (c: Chain)
    ensures c.Later? ==> pos <= c.pos <= |b|
    ensures c.Upper? ==> pos <= c.pos && (c.pos <= |b| || c.pos == pos)
    decreases if pos <= |b| then |b| - pos else 0
  {
    if next == 0 || next == 43 || next == 60 then
      if |b| < pos + 2 then Broken
      else
        var l := (At(b, pos + 1) + 1) * 8;
        if |b| < pos + l then Broken else WalkChain(b, At(b, pos), pos + l)
    else if next == 44 then
      if |b| < pos + 8 then Broken
      else if Num16(b, pos + 2) / 8 != 0 then Later(pos + 8)
      else WalkChain(b, At(b, pos), pos + 8)
    else if next == 51 then
      if |b| < pos + 2 then Broken
      else
        var l := (At(b, pos + 1) + 2) * 4;
        if |b| < pos + l then Broken else WalkChain(b, At(b, pos), pos + l)
    else Upper(next, pos)
  }

  function ParseIpv6(b: seq<Byte>, off: nat, p: Packet): Result<Packet> {
    if |b| < off + 40 then Error
    else if At(b, off) / 16 != 6 then Error
    else
      var q := p.(version := 6, tos := At(b, off) % 16 * 16 + At(b, off + 1) / 16,
                  src := b[off + 8..off + 24], dst := b[off + 24..off + 40]);
      match WalkChain(b, At(b, off + 6), off + 40)
      case Broken => Error
      case Later(pos) => Ok(q.(protocol := Fragment, payload := b[pos..]))
      case Upper(next, pos) => ParseTransport(b, pos, next, q)
  }

  // ---- Ethernet ---------------------------------------------------------------------------------

  const TAG := 0x8100
  const TAG_PROVIDER := 0x88a8
  const IPV4 := 0x0800
  const IPV6 := 0x86dd

  predicate IsTag(et: nat) { et == TAG || et == TAG_PROVIDER }

  datatype Tags = Tags(off: nat, et: nat, vlan: nat)

  /** Behind all tags: the offset, the type, and the first tag number that is not zero. */
  function WalkTags(raw: seq<Byte>, off: nat, et: nat, vlan: nat): (t: Result<Tags>)
    ensures t.Ok? && off <= |raw| ==> off <= t.value.off <= |raw|
    decreases if off <= |raw| then |raw| - off else 0
  {
    if !IsTag(et) then Ok(Tags(off, et, vlan))
    else if |raw| < off + 4 then Error
    else WalkTags(raw, off + 4, Num16(raw, off + 2), if vlan == 0 then Num16(raw, off) % 4096 else vlan)
  }

  function ParseEthernet(raw: seq<Byte>): Result<Packet> {
    if |raw| < 14 then Error
    else
      match WalkTags(raw, 14, Num16(raw, 12), 0)
      case Error => Error
      case Ok(t) =>
        if t.et == IPV4 then ParseIpv4(raw, t.off, BLANK.(vlan := t.vlan))
        else if t.et == IPV6 then ParseIpv6(raw, t.off, BLANK.(vlan := t.vlan))
        else Error
  }

  // ---- The payload is a slice of the frame -----------------------------------------------------------

  ghost predicate IsSlice(raw: seq<Byte>, payload: seq<Byte>, from: nat, to: nat) {
    from <= to <= |raw| && payload == raw[from..to]
  }

  lemma TransportSlice(b: seq<Byte>, off: nat, proto: nat, p: Packet) returns (from: nat)
    requires ParseTransport(b, off, proto, p).Ok? && p.payload == []
    ensures var q := ParseTransport(b, off, proto, p).value;
            q.payload != [] ==> off <= from <= |b| && q.payload == b[from..]
    ensures ParseTransport(b, off, proto, p).value.vlan == p.vlan
  {
    hide FromBe;
    from := if proto == 6 then off + At(b, off + 12) / 16 * 4 else if proto == 17 then off + 8 else off;
  }

  lemma Ipv4Slice(b: seq<Byte>, off: nat, p: Packet) returns (from: nat, to: nat)
    requires ParseIpv4(b, off, p).Ok? && p.payload == [] && ParseIpv4(b, off, p).value.payload != []
    ensures IsSlice(b, ParseIpv4(b, off, p).value.payload, from, to) && from >= off + 20
  {
    hide FromBe, ParseTransport;
    var ihl := At(b, off) % 16 * 4;
    var total := Num16(b, off + 2);
    to := if off + total > |b| then |b| else off + total;
    var q := p.(version := 4, tos := At(b, off + 1), src := b[off + 12..off + 16], dst := b[off + 16..off + 20]);
    from := TransportSlice(b[..to], off + ihl, At(b, off + 9), q);
    assert b[..to][from..] == b[from..to];
  }

  lemma Ipv6Slice(b: seq<Byte>, off: nat, p: Packet) returns (from: nat, to: nat)
    requires ParseIpv6(b, off, p).Ok? && p.payload == [] && ParseIpv6(b, off, p).value.payload != []
    ensures IsSlice(b, ParseIpv6(b, off, p).value.payload, from, to) && from >= off + 40
  {
    hide FromBe, ParseTransport, WalkChain;
    to := |b|;
    var q := p.(version := 6, tos := At(b, off) % 16 * 16 + At(b, off + 1) / 16,
                src := b[off + 8..off + 24], dst := b[off + 24..off + 40]);
    var c := WalkChain(b, At(b, off + 6), off + 40);
    if c.Later? {
      from := c.pos;
    } else {
      from := TransportSlice(b, c.pos, c.next, q);
    }
    assert b[from..] == b[from..to];
  }

  /** A payload that is not empty is one contiguous stretch of the frame, behind the Ethernet and
      the network header. */
  lemma PayloadIsSlice(raw: seq<Byte>) returns (from: nat, to: nat)
    requires ParseEthernet(raw).Ok? && ParseEthernet(raw).value.payload != []
    ensures IsSlice(raw, ParseEthernet(raw).value.payload, from, to) && from >= 34
  {
    hide FromBe, ParseIpv4, ParseIpv6, WalkTags;
    var t := WalkTags(raw, 14, Num16(raw, 12), 0).value;
    if t.et == IPV4 {
      from, to := Ipv4Slice(raw, t.off, BLANK.(vlan := t.vlan));
    } else {
      from, to := Ipv6Slice(raw, t.off, BLANK.(vlan := t.vlan));
    }
  }

  // ---- The loops ----------------------------------------------------------------------------------

  method DecodeTags(raw: seq<Byte>) returns (r: Result<Tags>)
    requires |raw| >= 14
    ensures r == WalkTags(raw, 14, Num16(raw, 12), 0)
  {
    hide FromBe;
    var off, et, vlan := 14, Num16(raw, 12), 0;
    while IsTag(et)
      invariant 14 <= off <= |raw|
      invariant WalkTags(raw, off, et, vlan) == WalkTags(raw, 14, Num16(raw, 12), 0)
      decreases |raw| - off
    {
      if |raw| < off + 4 {
        return Error;
      }
      var tci := Num16(raw, off);
      if vlan == 0 {
        vlan := tci % 4096;
      }
      et := Num16(raw, off + 2);
      off := off + 4;
    }
    return Ok(Tags(off, et, vlan));
  }

  method DecodeChain(b: seq<Byte>, first: nat, start: nat) returns (c: Chain)
    requires start <= |b|
    ensures c == WalkChain(b, first, start)
  {
    hide FromBe, Num16;
    var next, pos := first, start;
    while true
      invariant start <= pos <= |b|
      invariant WalkChain(b, next, pos) == WalkChain(b, first, start)
      decreases |b| - pos
    {
      if next == 0 || next == 43 || next == 60 {
        if |b| < pos + 2 {
          return Broken;
        }
        var l := (At(b, pos + 1) + 1) * 8;
        if |b| < pos + l {
          return Broken;
        }
        next, pos := At(b, pos), pos + l;
      } else if next == 44 {
        if |b| < pos + 8 {
          return Broken;
        }
        var frag := Num16(b, pos + 2);
        next, pos := At(b, pos), pos + 8;
        if frag / 8 != 0 {
          return Later(pos);
        }
      } else if next == 51 {
        if |b| < pos + 2 {
          return Broken;
        }
        var l := (At(b, pos + 1) + 2) * 4;
        if |b| < pos + l {
          return Broken;
        }
        next, pos := At(b, pos), pos + l;
      } else {
        return Upper(next, pos);
      }
    }
  }

  method DecodeIpv6(b: seq<Byte>, off: nat, p: Packet) returns (r: Result<Packet>)
    ensures r == ParseIpv6(b, off, p)
  {
    hide FromBe, WalkChain, ParseTransport;
    if |b| < off + 40 {
      return Error;
    }
    if At(b, off) / 16 != 6 {
      return Error;
    }
    var q := p.(version := 6, tos := At(b, off) % 16 * 16 + At(b, off + 1) / 16,
                src := b[off + 8..off + 24], dst := b[off + 24..off + 40]);
    var c := DecodeChain(b, At(b, off + 6), off + 40);
    match c
    case Broken => return Error;
    case Later(pos) => return Ok(q.(protocol := Fragment, payload := b[pos..]));
    case Upper(next, pos) => return ParseTransport(b, pos, next, q);
  }

  method DecodeEthernet(raw: seq<Byte>) returns (r: Result<Packet>)
    ensures r == ParseEthernet(raw)
  {
    hide FromBe, WalkTags, ParseIpv4, ParseIpv6;
    if |raw| < 14 {
      return Error;
    }
    var t := DecodeTags(raw);
    if t.Error? {
      return Error;
    }
    var p := BLANK.(vlan := t.value.vlan);
    if t.value.et == IPV4 {
      return ParseIpv4(raw, t.value.off, p);
    } else if t.value.et == IPV6 {
      r := DecodeIpv6(raw, t.value.off, p);
    } else {
      return Error;
    }
  }
}
