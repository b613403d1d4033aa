/** The encoder object: its sequence number, its template times, and the buffers it fills. */
module FlowEncoder {
  import opened Bytes
  import opened Endian
  import opened Text
  import opened FlowCodec
  import opened FlowEncode

  // ---- Filling a record ---------------------------------------------------------------------------

  lemma {:induction false} RecordBytesSnoc(vs: seq<seq<Byte>>, fs: seq<Field>, v: seq<Byte>, f: Field)
    requires |vs| == |fs|
    ensures RecordBytes(vs + [v], fs + [f]) == RecordBytes(vs, fs) + ValueBytes(v, f.length)
    decreases |vs|
  {
    hide ValueBytes;
    if vs == [] {
      assert [v][1..] == [] && vs + [v] == [v] && fs + [f] == [f];
      assert [] + ValueBytes(v, f.length) == ValueBytes(v, f.length);
    } else {
      assert (vs + [v])[1..] == vs[1..] + [v] && (fs + [f])[1..] == fs[1..] + [f];
      RecordBytesSnoc(vs[1..], fs[1..], v, f);
    }
  }

  /** A buffer that holds the values of the first fields of a template. */
  ghost predicate Filling(b: seq<Byte>, p: Protocol, v6: bool, vs: seq<seq<Byte>>) {
    |vs| <= |Fields(p, v6)| && b == RecordBytes(vs, Fields(p, v6)[..|vs|])
  }

  lemma FixedFields(p: Protocol, v6: bool)
    ensures forall i :: 0 <= i < 17 ==> Fields(p, v6)[i].length != VARIABLE
  {}

  method Append(b: seq<Byte>, v: seq<Byte>, ghost p: Protocol, ghost v6: bool, ghost vs: seq<seq<Byte>>)
    returns (b': seq<Byte>, ghost vs': seq<seq<Byte>>)
    requires Filling(b, p, v6, vs) && |vs| < 17
    ensures vs' == vs + [v] && Filling(b', p, v6, vs')
  {
    hide RecordBytes, Fields;
    FieldsAreValid(p, v6);
    FixedFields(p, v6);
    ghost var fs := Fields(p, v6);
    RecordBytesSnoc(vs, fs[..|vs|], v, fs[|vs|]);
    assert fs[..|vs|] + [fs[|vs|]] == fs[..|vs| + 1];
    vs' := vs + [v];
    b' := b + v;
  }

  lemma StartFilling(p: Protocol, v6: bool)
    ensures Filling([], p, v6, [])
  {
    assert Fields(p, v6)[..0] == [];
  }

  method WriteCounters(f: Flow, ghost p: Protocol, ghost v6: bool) returns (b: seq<Byte>, ghost vs: seq<seq<Byte>>)
    ensures Filling(b, p, v6, vs)
    ensures vs == [Be(Sum64(f.bytesTx, f.bytesRx), 8), Be(Sum64(f.packetsTx, f.packetsRx), 8),
                   [ProtoNumber(f.protocol)], [f.tos], [f.tcpFlags], Be(Source(f).port, 2)]
  {
    hide Filling, RecordBytes, Fields, Be, Sum64, ProtoNumber, Source;
    StartFilling(p, v6);
    b, vs := Append([], Be(Sum64(f.bytesTx, f.bytesRx), 8), p, v6, []);
    b, vs := Append(b, Be(Sum64(f.packetsTx, f.packetsRx), 8), p, v6, vs);
    b, vs := Append(b, [ProtoNumber(f.protocol)], p, v6, vs);
    b, vs := Append(b, [f.tos], p, v6, vs);
    b, vs := Append(b, [f.tcpFlags], p, v6, vs);
    b, vs := Append(b, Be(Source(f).port, 2), p, v6, vs);
  }

  method WriteEndpoints(f: Flow, ghost p: Protocol, v6: bool) returns (r: Option<seq<Byte>>)
    requires v6 == IsV6(f)
    ensures r.None? <==> !Encodable(f)
    ensures r.Some? ==> Filling(r.value, p, v6, EndpointValues(v6, f))
  {
    hide Filling, RecordBytes, Fields, Be, Sum64, ProtoNumber, AddressOctets, Source, Destination;
    var b;
    ghost var vs;
    b, vs := WriteCounters(f, p, v6);
    var src, dst := Source(f), Destination(f);
    if src.address == NoAddress {
      return None;
    }
    b, vs := Append(b, AddressOctets(src.address, v6), p, v6, vs);
    b, vs := Append(b, Be(f.ifIndex, 4), p, v6, vs);
    b, vs := Append(b, Be(dst.port, 2), p, v6, vs);
    if dst.address == NoAddress {
      return None;
    }
    b, vs := Append(b, AddressOctets(dst.address, v6), p, v6, vs);
    b, vs := Append(b, Be(0, 4), p, v6, vs);
    assert vs == EndpointValues(v6, f);
    return Some(b);
  }

  /** The fields both protocols share, in the encoder's order; `None` for a bad address. */
  method WriteFlowData(c: Config, f: Flow, v6: bool, ipfix: bool, start: int) returns (r: Option<seq<Byte>>)
    requires v6 == IsV6(f)
    ensures r.None? <==> !Encodable(f)
    ensures r.Some? ==>
      var p := if ipfix then Ipfix else NetFlow9;
      Filling(r.value, p, v6, EndpointValues(v6, f) + TimeValues(p, f, start) + LastValues(c, f))
  {
    hide Filling, RecordBytes, Fields, Be, UptimeMs, Millis, EndpointValues, Encodable, IsV6;
    ghost var p := if ipfix then Ipfix else NetFlow9;
    r := WriteEndpoints(f, p, v6);
    if r.None? {
      return;
    }
    var b := r.value;
    ghost var vs := EndpointValues(v6, f);
    if ipfix {
      b, vs := Append(b, Be(Millis(f.firstSeen), 8), p, v6, vs);
      b, vs := Append(b, Be(Millis(f.lastSeen), 8), p, v6, vs);
    } else {
      b, vs := Append(b, Be(UptimeMs(start, f.lastSeen), 4), p, v6, vs);
      b, vs := Append(b, Be(UptimeMs(start, f.firstSeen), 4), p, v6, vs);
    }
    assert vs == EndpointValues(v6, f) + TimeValues(p, f, start);
    b, vs := Append(b, [f.icmpType, f.icmpCode], p, v6, vs);
    b, vs := Append(b, Be(f.vlan, 2), p, v6, vs);
    b, vs := Append(b, [if f.inbound then 1 else 0], p, v6, vs);
    b, vs := Append(b, Be(c.sampling, 4), p, v6, vs);
    assert vs == EndpointValues(v6, f) + TimeValues(p, f, start) + LastValues(c, f);
    return Some(b);
  }

  lemma AppBytes(p: Protocol, v6: bool, c: Config, f: Flow, start: int, b: seq<Byte>)
    requires Encodable(f)
    requires Filling(b, p, v6, EndpointValues(v6, f) + TimeValues(p, f, start) + LastValues(c, f))
    ensures |Values(p, v6, c, f, start)| == |Fields(p, v6)|
    ensures RecordBytes(Values(p, v6, c, f, start), Fields(p, v6)) == b + if p == Ipfix then VarBytes(f.app) else []
  {
    hide RecordBytes, Fields, EndpointValues, TimeValues, LastValues, VarBytes;
    FieldsAreValid(p, v6);
    var vs := EndpointValues(v6, f) + TimeValues(p, f, start) + LastValues(c, f);
    var fs := Fields(p, v6);
    if p == Ipfix {
      LastFieldVaries(v6);
      assert fs[..17] + [fs[17]] == fs;
      RecordBytesSnoc(vs, fs[..17], f.app, fs[17]);
    } else {
      assert fs[..17] == fs && vs + [] == vs && b + [] == b;
    }
  }

  lemma LastFieldVaries(v6: bool)
    ensures Fields(Ipfix, v6)[17].length == VARIABLE
  {}

  lemma {:induction false} FixedRecordSize(vs: seq<seq<Byte>>, fs: seq<Field>)
    requires |vs| == |fs| && forall i :: 0 <= i < |vs| ==> fs[i].length != VARIABLE && |vs[i]| <= 16
    ensures |RecordBytes(vs, fs)| <= 16 * |vs|
    decreases |vs|
  {
    if vs != [] { FixedRecordSize(vs[1..], fs[1..]); }
  }

  lemma FixedValuesAreShort(p: Protocol, v6: bool, c: Config, f: Flow, start: int)
    requires Parsed(f) && Encodable(f)
    ensures var vs := EndpointValues(v6, f) + TimeValues(p, f, start) + LastValues(c, f);
            forall i :: 0 <= i < 17 ==> |vs[i]| <= 16
  {
    hide Be, Sum64, ProtoNumber, UptimeMs, Millis;
  }

  /** Every flow whose application name has at most 65000 octets fits a message. */
  lemma SizedWhenAppFits(p: Protocol, c: Config, f: Flow, start: int)
    requires Parsed(f) && |f.app| <= 65000
    ensures Sized(p, c, f, start)
  {
    hide RecordBytes, Fields, EndpointValues, TimeValues, LastValues, Be, IsV6, Encodable, Parsed, Values;
    if Encodable(f) {
      var v6 := IsV6(f);
      var vs := EndpointValues(v6, f) + TimeValues(p, f, start) + LastValues(c, f);
      FieldsAreValid(p, v6);
      FixedFields(p, v6);
      FixedValuesAreShort(p, v6, c, f, start);
      FixedRecordSize(vs, Fields(p, v6)[..17]);
      AppBytes(p, v6, c, f, start, RecordBytes(vs, Fields(p, v6)[..17]));
    }
  }

  // ---- The object -----------------------------------------------------------------------------------

  class MessageEncoder {
    const start: int
    var sequence: Uint32
    var templateLast: map<nat, int>

    ghost function Abs(): Encoder
      reads this
    {
      Encoder(start, sequence, templateLast)
    }

    constructor (start: int)
      ensures Abs() == Encoder(start, 0, map[])
    {
      this.start := start;
      sequence := 0;
      templateLast := map[];
    }

    method CountUp()
      modifies this`sequence
      ensures Abs() == Counted(old(Abs()))
    {
      sequence := if sequence + 1 == TWO32 then 0 else sequence + 1;
    }

    /** A set: id and a length of zero, the content, padding to four octets, then the length. */
    method CloseSet(id: nat, content: seq<Byte>) returns (b: seq<Byte>)
      ensures b == SetBytes(id, content)
    {
      hide Be;
      b := Be(id, 2) + Be(0, 2) + content;
      while |b| % 4 != 0
        invariant b == Be(id, 2) + Be(0, 2) + content + Zeros(|b| - 4 - |content|)
        invariant 4 + |content| <= |b| <= 4 + |content| + |Padding(|content|)|
        decreases 4 + |content| + |Padding(|content|)| - |b|
      {
        assert Zeros(|b| - 4 - |content|) + [0] == Zeros(|b| + 1 - 4 - |content|);
        b := b + [0];
      }
      assert |b| == 4 + |content| + |Padding(|content|)|;
      b := b[..2] + Be(|b|, 2) + b[4..];
    }

    method TemplateOf(p: Protocol, v6: bool) returns (b: seq<Byte>)
      ensures b == TemplateSet(p, v6)
    {
      hide Be, Fields, SetBytes;
      var fs := Fields(p, v6);
      var content := Be(TemplateId(p, v6), 2) + Be(|fs|, 2);
      for i := 0 to |fs|
        invariant content == Be(TemplateId(p, v6), 2) + Be(|fs|, 2) + FieldsBytes(fs[..i])
      {
        assert fs[..i + 1][..i] == fs[..i];
        content := content + Be(fs[i].element, 2) + Be(fs[i].length, 2);
      }
      assert fs[..|fs|] == fs;
      b := CloseSet(TemplateSetId(p), content);
    }

    method DataOf(p: Protocol, c: Config, f: Flow) returns (r: Option<seq<Byte>>)
      ensures r.None? <==> !Encodable(f)
      ensures r.Some? ==> r.value == DataSet(p, c, f, start)
    {
      hide Be, Fields, SetBytes, RecordBytes, Filling, IsV6, EndpointValues, TimeValues, LastValues, Encodable, VarBytes, Values;
      var v6 := IsV6(f);
      r := WriteFlowData(c, f, v6, p == Ipfix, start);
      if r.None? {
        return;
      }
      AppBytes(p, v6, c, f, start, r.value);
      var content := r.value;
      if p == Ipfix {
        content := content + VarBytes(f.app);
      } else {
        assert content + [] == content;
      }
      var b := CloseSet(TemplateId(p, v6), content);
      return Some(b);
    }

    method NetFlow9Message(c: Config, now: int) returns (header: seq<Byte>)
      modifies this`sequence
      ensures header == Header(NetFlow9, 0, UptimeMs(start, now), Seconds(now), old(sequence), c.domain)
      ensures Abs() == Counted(old(Abs()))
    {
      header := Be(9, 2) + Be(1, 2) + Be(UptimeMs(start, now), 4) + Be(Seconds(now), 4) + Be(sequence, 4) + Be(c.domain, 4);
      CountUp();
    }

    method EncodeNetFlow9(c: Config, f: Flow, now: int, force: bool) returns (r: Option<seq<seq<Byte>>>)
      modifies this
      ensures (Abs(), r) == Encode(NetFlow9, old(Abs()), c, f, now, force)
    {
      hide Be, Fields, SetBytes, RecordBytes, IsV6, Values, Encodable, UptimeMs, Seconds, TemplateSet, DataSet, RefreshNs, Next32;
      var v6 := IsV6(f);
      var tid := TemplateId(NetFlow9, v6);
      var out: seq<seq<Byte>> := [];
      if force || tid !in templateLast || now - templateLast[tid] >= RefreshNs(c) {
        var h := NetFlow9Message(c, now);
        var t := TemplateOf(NetFlow9, v6);
        out := [h + t];
        templateLast := templateLast[tid := now];
      }
      var h := NetFlow9Message(c, now);
      var d := DataOf(NetFlow9, c, f);
      if d.None? {
        return None;
      }
      assert out == [] ==> out + [h + d.value] == [h + d.value];
      assert out != [] ==> out + [h + d.value] == [out[0], h + d.value];
      return Some(out + [h + d.value]);
    }

    /** The header, the set, and the length of both put into the header. */
    method IpfixMessage(c: Config, now: int, set_: seq<Byte>) returns (msg: seq<Byte>)
      ensures msg == Message(Ipfix, Abs(), c, now, set_)
    {
      hide Be, Seconds, UptimeMs;
      msg := Be(10, 2) + Be(0, 2) + Be(Seconds(now), 4) + Be(sequence, 4) + Be(c.domain, 4) + set_;
      msg := msg[..2] + Be(|msg|, 2) + msg[4..];
    }

    method EncodeIpfix(c: Config, f: Flow, now: int, force: bool) returns (r: Option<seq<seq<Byte>>>)
      modifies this
      ensures (Abs(), r) == Encode(Ipfix, old(Abs()), c, f, now, force)
    {
      hide Be, Fields, SetBytes, RecordBytes, IsV6, Values, Encodable, UptimeMs, Seconds, TemplateSet, DataSet, Message, RefreshNs;
      var v6 := IsV6(f);
      var tid := TemplateId(Ipfix, v6);
      var out: seq<seq<Byte>> := [];
      if force || tid !in templateLast || now - templateLast[tid] >= RefreshNs(c) {
        var t := TemplateOf(Ipfix, v6);
        var msg := IpfixMessage(c, now, t);
        out := [msg];
        templateLast := templateLast[tid := now];
      }
      var d := DataOf(Ipfix, c, f);
      if d.None? {
        return None;
      }
      var msg := IpfixMessage(c, now, d.value);
      CountUp();
      assert out == [] ==> out + [msg] == [msg];
      assert out != [] ==> out + [msg] == [out[0], msg];
      return Some(out + [msg]);
    }
  }
}
