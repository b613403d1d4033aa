/** PCAPNG blocks (draft-ietf-opsawg-pcapng, sections 3.1 and 4.1 to 4.3) as the recorder writes
    them: octets filled in at fixed offsets, little-endian. */
module PcapngFormat {
  import opened Bytes
  import opened Endian

  const SECTION := 0x0A0D0D0A
  const INTERFACE := 1
  const PACKET := 6
  const BYTE_ORDER := 0x1A2B3C4D

  /** A block: type, length, payload, length again. */
  function Block(kind: nat, payload: seq<Byte>): (b: seq<Byte>)
    ensures |b| == |payload| + 12
  {
    Le(kind, 4) + Le(|payload| + 12, 4) + payload + Le(|payload| + 12, 4)
  }

  function Octets(s: string): (b: seq<Byte>)
    requires forall i :: 0 <= i < |s| ==> s[i] as int < 256
    ensures |b| == |s|
  {
    seq(|s|, i requires 0 <= i < |s| => s[i] as int)
  }

  function Chars(b: seq<Byte>): (s: string)
    ensures |s| == |b|
  {
    seq(|b|, i requires 0 <= i < |b| => b[i] as char)
  }

  predicate OneByteChars(s: string) {
    forall i :: 0 <= i < |s| ==> s[i] as int < 256
  }

  lemma CharsOfOctets(s: string)
    requires OneByteChars(s)
    ensures Chars(Octets(s)) == s
  {}

  /** Version 1.0 and an unknown section length. */
  function SectionPayload(): (p: seq<Byte>)
    ensures |p| == 16
  {
    Le(BYTE_ORDER, 4) + Le(1, 2) + Le(0, 2) + Le(TWO64 - 1, 8)
  }

  /** Link type Ethernet, snapshot length 65535, the name as an option, the end of the options. */
  function InterfacePayload(name: string): (p: seq<Byte>)
    requires OneByteChars(name)
    ensures |p| == 16 + |name| + |Padding(|name|)|
  {
    Le(1, 2) + Le(0, 2) + Le(65535, 4) + Le(2, 2) + Le(|name|, 2) + Octets(name) + Padding(|name|) + Le(0, 4)
  }

  /** Nanoseconds to microseconds as Go divides: towards zero. */
  function Micros(ns: int): int {
    if ns >= 0 then ns / 1000 else -((-ns) / 1000)
  }

  function ToUint64(x: int): nat
    requires -0x8000_0000_0000_0000 <= x < 0x8000_0000_0000_0000
  {
    if x < 0 then x + TWO64 else x
  }

  predicate Int64(x: int) { -0x8000_0000_0000_0000 <= x < 0x8000_0000_0000_0000 }

  function PacketPayload(id: nat, ns: int, data: seq<Byte>): (p: seq<Byte>)
    requires Int64(ns)
    ensures |p| == 20 + |data| + |Padding(|data|)|
  {
    var u := ToUint64(Micros(ns));
    Le(id, 4) + Le(u / TWO32, 4) + Le(u % TWO32, 4) + Le(|data|, 4) + Le(|data|, 4) + data + Padding(|data|)
  }

  // ---- The writers ----------------------------------------------------------------------------

  /** A buffer whose front is `head + body` and whose rest is still zero. */
  ghost predicate Filled(a: array<Byte>, head: seq<Byte>, body: seq<Byte>)
    reads a
  {
    && |head| + |body| <= a.Length && a[..|head| + |body|] == head + body
    && forall k :: |head| + |body| <= k < a.Length ==> a[k] == 0
  }

  /** Copies `b` into the buffer, right behind what is filled. */
  method Put(a: array<Byte>, at: nat, b: seq<Byte>, ghost head: seq<Byte>, ghost body: seq<Byte>)
    requires at + |b| <= a.Length && at == |head| + |body| && Filled(a, head, body)
    modifies a
    ensures Filled(a, head, body + b)
  {
    for i := 0 to |b|
      invariant forall k :: at + i <= k < a.Length ==> a[k] == 0
      invariant a[..at + i] == head + (body + b[..i])
    {
      a[at + i] := b[i];
      assert a[..at + i + 1] == head + (body + b[..i]) + [b[i]];
      assert head + (body + b[..i]) + [b[i]] == head + (body + b[..i + 1]);
    }
    assert b[..|b|] == b;
  }

  /** Little-endian PutUint16, PutUint32 and PutUint64. */
  method PutLe(a: array<Byte>, at: nat, n: nat, k: nat, ghost head: seq<Byte>, ghost body: seq<Byte>)
    requires at + k <= a.Length && at == |head| + |body| && Filled(a, head, body)
    modifies a
    ensures Filled(a, head, body + Le(n, k))
  {
    Put(a, at, Le(n, k), head, body);
  }

  /** Octets that are not written stay zero. */
  lemma Skip(a: array<Byte>, n: nat, head: seq<Byte>, body: seq<Byte>)
    requires Filled(a, head, body) && |head| + |body| + n <= a.Length
    ensures Filled(a, head, body + Zeros(n))
  {
    assert a[..|head| + |body| + n] == head + (body + Zeros(n));
  }

  /** Starts a block of the given size: zeroed, with type and length in front. */
  method Start(kind: nat, total: nat) returns (a: array<Byte>)
    requires total >= 12
    ensures fresh(a) && a.Length == total && Filled(a, Le(kind, 4) + Le(total, 4), [])
  {
    hide Le;
    a := new Byte[total](_ => 0);
    PutLe(a, 0, kind, 4, [], []);
    PutLe(a, 4, total, 4, [], [] + Le(kind, 4));
    assert [] + ([] + Le(kind, 4) + Le(total, 4)) == Le(kind, 4) + Le(total, 4) + [];
  }

  /** Ends it with the length. */
  method Finish(a: array<Byte>, kind: nat, ghost payload: seq<Byte>) returns (b: seq<Byte>)
    requires Filled(a, Le(kind, 4) + Le(a.Length, 4), payload) && a.Length == |payload| + 12
    modifies a
    ensures b == Block(kind, payload)
  {
    hide Le;
    ghost var head := Le(kind, 4) + Le(a.Length, 4);
    PutLe(a, a.Length - 4, a.Length, 4, head, payload);
    assert head + (payload + Le(a.Length, 4)) == head + payload + Le(a.Length, 4);
    b := a[..];
    assert b == a[..a.Length];
  }

  lemma LeOfZero()
    ensures Le(0, 2) == Zeros(2) && Le(0, 4) == Zeros(4)
  {
    assert Le(0, 2) == [0] + Le(0, 1);
    assert Le(0, 4) == [0] + ([0] + Le(0, 2));
  }

  method WriteSection() returns (b: seq<Byte>)
    ensures b == Block(SECTION, SectionPayload()) && |b| == 28
  {
    hide Le, Filled;
    var a := Start(SECTION, 28);
    ghost var h := Le(SECTION, 4) + Le(28, 4);
    PutLe(a, 8, BYTE_ORDER, 4, h, []);
    ghost var p := [] + Le(BYTE_ORDER, 4);
    PutLe(a, 12, 1, 2, h, p);
    PutLe(a, 14, 0, 2, h, p + Le(1, 2));
    PutLe(a, 16, TWO64 - 1, 8, h, p + Le(1, 2) + Le(0, 2));
    assert [] + Le(BYTE_ORDER, 4) == Le(BYTE_ORDER, 4);
    b := Finish(a, SECTION, SectionPayload());
  }

  function InterfaceSize(name: string): nat {
    28 + |name| + (4 - |name| % 4) % 4
  }

  method WriteInterface(name: string) returns (b: seq<Byte>)
    requires OneByteChars(name)
    ensures b == Block(INTERFACE, InterfacePayload(name)) && |b| == InterfaceSize(name)
  {
    hide Le, Octets, Filled;
    var pad := (4 - |name| % 4) % 4;
    var total := InterfaceSize(name);
    var a := Start(INTERFACE, total);
    ghost var h := Le(INTERFACE, 4) + Le(total, 4);
    PutLe(a, 8, 1, 2, h, []);
    assert [] + Le(1, 2) == Le(1, 2);
    LeOfZero();
    Skip(a, 2, h, Le(1, 2));
    ghost var p := Le(1, 2) + Le(0, 2);
    PutLe(a, 12, 65535, 4, h, p);
    p := p + Le(65535, 4);
    PutLe(a, 16, 2, 2, h, p);
    p := p + Le(2, 2);
    PutLe(a, 18, |name|, 2, h, p);
    p := p + Le(|name|, 2);
    Put(a, 20, Octets(name), h, p);
    p := p + Octets(name);
    Skip(a, pad, h, p);
    assert Zeros(pad) == Padding(|name|);
    p := p + Padding(|name|);
    Skip(a, 4, h, p);
    b := Finish(a, INTERFACE, InterfacePayload(name));
  }

  method WritePacket(id: nat, ns: int, data: seq<Byte>) returns (b: seq<Byte>)
    requires Int64(ns)
    ensures b == Block(PACKET, PacketPayload(id, ns, data))
  {
    hide Le, Filled, ToUint64;
    var pad := (4 - |data| % 4) % 4;
    var total := 32 + |data| + pad;
    var a := Start(PACKET, total);
    ghost var h := Le(PACKET, 4) + Le(total, 4);
    var u := ToUint64(Micros(ns));
    PutLe(a, 8, id, 4, h, []);
    assert [] + Le(id, 4) == Le(id, 4);
    ghost var p := Le(id, 4);
    PutLe(a, 12, u / TWO32, 4, h, p);
    p := p + Le(u / TWO32, 4);
    PutLe(a, 16, u % TWO32, 4, h, p);
    p := p + Le(u % TWO32, 4);
    PutLe(a, 20, |data|, 4, h, p);
    p := p + Le(|data|, 4);
    PutLe(a, 24, |data|, 4, h, p);
    p := p + Le(|data|, 4);
    Put(a, 28, data, h, p);
    p := p + data;
    Skip(a, pad, h, p);
    assert Zeros(pad) == Padding(|data|);
    b := Finish(a, PACKET, PacketPayload(id, ns, data));
  }
}
