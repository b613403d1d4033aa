/** What the blocks of the recorder say at the offsets of the format (draft-ietf-opsawg-pcapng, sections
    3.1 and 4.1 to 4.3), read without its writer. */
module PcapngFields {
  import opened Bytes
  import opened Endian
  import opened PcapngFormat

  /** The number octets stand for, the last one weighing most. */
  function Least(b: seq<Byte>): nat {
    if b == [] then 0
    else
      var high: int := b[|b| - 1];
      Least(b[..|b| - 1]) + high * Pow256(|b| - 1)
  }

  /** The number at an offset. */
  function NumberAt(b: seq<Byte>, at: nat, size: nat): nat
    requires at + size <= |b|
  {
    Least(b[at..at + size])
  }

  lemma {:induction false} LeastCons(low: Byte, b: seq<Byte>)
    ensures Least([low] + b) == low + 256 * Least(b)
    decreases |b|
  {
    var w := [low] + b;
    if b == [] {
      assert Least(w[..0]) == 0 && Pow256(0) == 1;
    } else {
      var n := |b|;
      assert w[..n] == [low] + b[..n - 1];
      LeastCons(low, b[..n - 1]);
      var high: int := b[n - 1];
      assert Pow256(n) == 256 * Pow256(n - 1);
      assert high * (256 * Pow256(n - 1)) == 256 * (high * Pow256(n - 1));
    }
  }

  lemma {:induction false} LeastIs(n: nat, k: nat)
    requires n < Pow256(k)
    ensures Least(Le(n, k)) == n
    decreases k
  {
    hide Least;
    if k == 0 {
      LeastNothing();
    } else {
      LeastIs(n / 256, k - 1);
      LeastCons(n % 256, Le(n / 256, k - 1));
    }
  }

  lemma LeastNothing()
    ensures Least([]) == 0
  {}

  /** A number written at an offset is the one that stands there. */
  lemma Stands(b: seq<Byte>, at: nat, n: nat, k: nat)
    requires at + k <= |b| && b[at..at + k] == Le(n, k)
    requires (k == 2 && n < TWO16) || (k == 4 && n < TWO32) || (k == 8 && n < TWO64)
    ensures NumberAt(b, at, k) == n
  {
    hide Le, Least;
    Powers();
    LeastIs(n, k);
  }

  /** Type, length in front and behind, and a whole number of four octets. */
  ghost predicate IsBlock(b: seq<Byte>, kind: nat) {
    && |b| >= 12 && |b| % 4 == 0 && NumberAt(b, 0, 4) == kind
    && NumberAt(b, 4, 4) == |b| && NumberAt(b, |b| - 4, 4) == |b|
  }

  lemma BlockIs(kind: nat, payload: seq<Byte>)
    requires kind < TWO32 && |payload| % 4 == 0 && |payload| + 12 < TWO32
    ensures var b := Block(kind, payload); IsBlock(b, kind) && |b| == |payload| + 12 && b[8..|b| - 4] == payload
  {
    hide Le, Least, NumberAt;
    var b := Block(kind, payload);
    assert b == Le(kind, 4) + (Le(|b|, 4) + (payload + Le(|b|, 4)));
    assert b[0..4] == Le(kind, 4) && b[4..8] == Le(|b|, 4) && b[|b| - 4..|b|] == Le(|b|, 4);
    Stands(b, 0, kind, 4);
    Stands(b, 4, |b|, 4);
    Stands(b, |b| - 4, |b|, 4);
  }

  lemma NumberInside(b: seq<Byte>, p: seq<Byte>, at: nat, size: nat)
    requires |b| == |p| + 12 && b[8..|b| - 4] == p && at + size <= |p|
    ensures NumberAt(b, 8 + at, size) == NumberAt(p, at, size)
  {
    hide Least;
    forall i | 0 <= i < |p| ensures b[8 + i] == p[i] { assert b[8..|b| - 4][i] == b[8 + i]; }
    assert b[8 + at..8 + at + size] == p[at..at + size];
  }

  /** The section header: the byte-order magic, version 1.0, a section of unknown length. */
  lemma SectionSays()
    ensures var b := Block(SECTION, SectionPayload());
            && IsBlock(b, 0x0A0D0D0A) && |b| == 28 && NumberAt(b, 8, 4) == 0x1A2B3C4D
            && NumberAt(b, 12, 2) == 1 && NumberAt(b, 14, 2) == 0 && NumberAt(b, 16, 8) == 0xFFFF_FFFF_FFFF_FFFF
  {
    hide Le, Least, NumberAt, IsBlock, Block;
    var p := SectionPayload();
    var b := Block(SECTION, p);
    BlockIs(SECTION, p);
    assert p[0..4] == Le(BYTE_ORDER, 4) && p[4..6] == Le(1, 2) && p[6..8] == Le(0, 2) && p[8..16] == Le(TWO64 - 1, 8);
    Stands(p, 0, BYTE_ORDER, 4);
    Stands(p, 4, 1, 2);
    Stands(p, 6, 0, 2);
    Stands(p, 8, TWO64 - 1, 8);
    NumberInside(b, p, 0, 4);
    NumberInside(b, p, 4, 2);
    NumberInside(b, p, 6, 2);
    NumberInside(b, p, 8, 8);
  }

  /** The interface description: Ethernet, 65535 octets at most, and one option, the name. */
  ghost predicate DescribesInterface(b: seq<Byte>, name: string)
    requires OneByteChars(name)
  {
    && IsBlock(b, 1) && |b| >= 28 + |name| && |b| < 32 + |name|
    && NumberAt(b, 8, 2) == 1 && NumberAt(b, 10, 2) == 0 && NumberAt(b, 12, 4) == 65535
    && NumberAt(b, 16, 2) == 2 && NumberAt(b, 18, 2) == |name|
    && (forall i :: 0 <= i < |name| ==> b[20 + i] == name[i] as int)
    && (forall i :: 20 + |name| <= i < |b| - 4 ==> b[i] == 0)
  }

  lemma InterfaceSays(name: string)
    requires OneByteChars(name) && |name| < TWO16
    ensures DescribesInterface(Block(INTERFACE, InterfacePayload(name)), name)
  {
    hide Le, Least, NumberAt, IsBlock, Block;
    var p := InterfacePayload(name);
    var b := Block(INTERFACE, p);
    BlockIs(INTERFACE, p);
    InterfaceParts(name);
    Stands(p, 0, 1, 2);
    Stands(p, 2, 0, 2);
    Stands(p, 4, 65535, 4);
    Stands(p, 8, 2, 2);
    Stands(p, 10, |name|, 2);
    NumberInside(b, p, 0, 2);
    NumberInside(b, p, 2, 2);
    NumberInside(b, p, 4, 4);
    NumberInside(b, p, 8, 2);
    NumberInside(b, p, 10, 2);
    forall i | 0 <= i < |p| ensures b[8 + i] == p[i] { assert b[8..|b| - 4][i] == b[8 + i]; }
    forall i | 0 <= i < |name| ensures b[20 + i] == name[i] as int { assert b[8 + (12 + i)] == p[12 + i]; }
    forall i | 20 + |name| <= i < |b| - 4 ensures b[i] == 0 { assert b[8 + (i - 8)] == p[i - 8]; }
  }

  lemma FrontParts(a: seq<Byte>, b: seq<Byte>, c: seq<Byte>, d: seq<Byte>, e: seq<Byte>, rest: seq<Byte>)
    requires |a| == 2 && |b| == 2 && |c| == 4 && |d| == 2 && |e| == 2
    ensures var p := a + b + c + d + e + rest;
            && |p| == 12 + |rest| && p[0..2] == a && p[2..4] == b && p[4..8] == c && p[8..10] == d && p[10..12] == e
            && forall i :: 0 <= i < |rest| ==> p[12 + i] == rest[i]
  {}

  /** The name, zeros up to four octets, and the end of the options. */
  function NameOption(name: string): seq<Byte>
    requires OneByteChars(name)
  {
    Octets(name) + (Padding(|name|) + Zeros(4))
  }

  lemma InterfaceSplit(name: string)
    requires OneByteChars(name)
    ensures InterfacePayload(name) == Le(1, 2) + Le(0, 2) + Le(65535, 4) + Le(2, 2) + Le(|name|, 2) + NameOption(name)
  {
    hide Le, Padding;
    LeOfZero();
  }

  lemma NameOptionIs(name: string)
    requires OneByteChars(name)
    ensures var r := NameOption(name);
            && |name| + 4 <= |r| < |name| + 8 && |r| % 4 == 0
            && (forall i :: 0 <= i < |name| ==> r[i] == name[i] as int) && (forall i :: |name| <= i < |r| ==> r[i] == 0)
  {
    var r := NameOption(name);
    forall i | 0 <= i < |name| ensures r[i] == name[i] as int { assert r[i] == Octets(name)[i]; }
  }

  lemma InterfaceParts(name: string)
    requires OneByteChars(name)
    ensures var p := InterfacePayload(name);
            && |p| >= 16 + |name| && |p| % 4 == 0 && |p| < 20 + |name|
            && p[0..2] == Le(1, 2) && p[2..4] == Le(0, 2) && p[4..8] == Le(65535, 4) && p[8..10] == Le(2, 2)
            && p[10..12] == Le(|name|, 2)
            && (forall i :: 0 <= i < |name| ==> p[12 + i] == name[i] as int)
            && (forall i :: 12 + |name| <= i < |p| ==> p[i] == 0)
  {
    hide Le, InterfacePayload, NameOption;
    var p, rest := InterfacePayload(name), NameOption(name);
    InterfaceSplit(name);
    NameOptionIs(name);
    FrontParts(Le(1, 2), Le(0, 2), Le(65535, 4), Le(2, 2), Le(|name|, 2), rest);
    forall i | 0 <= i < |name| ensures p[12 + i] == name[i] as int { assert p[12 + i] == rest[i]; }
    forall i | 12 + |name| <= i < |p| ensures p[i] == 0 { assert p[12 + (i - 12)] == rest[i - 12]; }
  }

  /** Whole microseconds as two's complement of 64 bits, cut towards zero. */
  predicate IsMicros(ns: int, u: int) {
    if ns >= 0 then u * 1000 <= ns < (u + 1) * 1000
    else
      var m := if u == 0 then 0 else u - TWO64;
      (m - 1) * 1000 < ns <= m * 1000
  }

  /** An enhanced packet: its interface, its time in two halves, the captured and the original length,
      both that of the data, the data, and zeros up to four octets. */
  ghost predicate DescribesPacket(b: seq<Byte>, id: nat, ns: int, data: seq<Byte>) {
    && IsBlock(b, 6) && 32 + |data| <= |b| < 36 + |data|
    && NumberAt(b, 8, 4) == id && IsMicros(ns, NumberAt(b, 12, 4) * TWO32 + NumberAt(b, 16, 4))
    && NumberAt(b, 20, 4) == |data| && NumberAt(b, 24, 4) == |data|
    && b[28..28 + |data|] == data && (forall i :: 28 + |data| <= i < |b| - 4 ==> b[i] == 0)
  }

  lemma MicrosAre(ns: int)
    requires Int64(ns)
    ensures Int64(Micros(ns))
    ensures var u := ToUint64(Micros(ns)); IsMicros(ns, u) && u < TWO64 && u / TWO32 < TWO32 && u % TWO32 < TWO32
    ensures var u := ToUint64(Micros(ns)); u / TWO32 * TWO32 + u % TWO32 == u
  {}

  lemma PacketParts(id: nat, ns: int, data: seq<Byte>)
    requires Int64(ns) && Int64(Micros(ns))
    ensures var p := PacketPayload(id, ns, data); var u := ToUint64(Micros(ns));
            && 20 + |data| <= |p| < 24 + |data| && |p| % 4 == 0
            && p[0..4] == Le(id, 4) && p[4..8] == Le(u / TWO32, 4) && p[8..12] == Le(u % TWO32, 4)
            && p[12..16] == Le(|data|, 4) && p[16..20] == Le(|data|, 4) && p[20..20 + |data|] == data
            && (forall i :: 20 + |data| <= i < |p| ==> p[i] == 0)
  {
    hide Le, Micros, ToUint64;
  }

  lemma PacketSays(id: nat, ns: int, data: seq<Byte>)
    requires Int64(ns) && id < TWO32 && |data| + 36 < TWO32
    ensures DescribesPacket(Block(PACKET, PacketPayload(id, ns, data)), id, ns, data)
  {
    hide Le, Least, NumberAt, IsBlock, Block, PacketPayload, Micros, ToUint64, IsMicros;
    var p := PacketPayload(id, ns, data);
    var b := Block(PACKET, p);
    MicrosAre(ns);
    var u := ToUint64(Micros(ns));
    PacketParts(id, ns, data);
    BlockIs(PACKET, p);
    Stands(p, 0, id, 4);
    Stands(p, 4, u / TWO32, 4);
    Stands(p, 8, u % TWO32, 4);
    Stands(p, 12, |data|, 4);
    Stands(p, 16, |data|, 4);
    NumberInside(b, p, 0, 4);
    NumberInside(b, p, 4, 4);
    NumberInside(b, p, 8, 4);
    NumberInside(b, p, 12, 4);
    NumberInside(b, p, 16, 4);
    forall i | 0 <= i < |p| ensures b[8 + i] == p[i] { assert b[8..|b| - 4][i] == b[8 + i]; }
    assert b[28..28 + |data|] == p[20..20 + |data|];
    forall i | 28 + |data| <= i < |b| - 4 ensures b[i] == 0 { assert b[8 + (i - 8)] == p[i - 8]; }
  }
}
