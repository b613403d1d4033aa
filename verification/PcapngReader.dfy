/** The replay reader of PCAPNG files and the validity check of a segment. */
module PcapngReader {
  import opened Bytes
  import opened Endian
  import opened Text
  import opened PcapngFormat

  // ---- Blocks ---------------------------------------------------------------------------------

  function Num(big: bool, b: seq<Byte>): nat {
    if big then FromBe(b) else FromLe(b)
  }

  datatype Error = BadLength | ShortBody | BadTrailer | ShortSection | BadByteOrder

  const MAX_BLOCK := 0x400_0000

  /** The block at the front of the remaining octets; fewer than eight of them end the file. */
  datatype Front = NoBlock | Broken(error: Error) | Whole(kind: nat, payload: seq<Byte>, size: nat)

  function FrontBlock(big: bool, b: seq<Byte>): (f: Front)
    ensures f.Whole? ==> 12 <= f.size <= |b| && f.size == |f.payload| + 12
  {
    if |b| < 8 then NoBlock
    else
      var n := Num(big, b[4..8]);
      if n < 12 || n > MAX_BLOCK then Broken(BadLength)
      else if |b| < n then Broken(ShortBody)
      else if Num(big, b[n - 4..n]) != n then Broken(BadTrailer)
      else Whole(Num(big, b[..4]), b[8..n - 4], n)
  }

  // ---- The interface table -----------------------------------------------------------------------

  /** Byte order, interface names by number, and the number the next interface gets. */
  datatype Table = Table(big: bool, names: map<nat, string>, next: nat)

  const NO_TABLE := Table(false, map[], 0)

  function DecimalDigits(n: nat): string {
    if n < 10 then [('0' as int + n) as char]
    else DecimalDigits(n / 10) + [('0' as int + n % 10) as char]
  }

  function Placeholder(id: nat): string { "replay" + DecimalDigits(id) }

  /** The options of an interface block from a position on: the last name among them. */
  function OptionName(big: bool, p: seq<Byte>, pos: nat, name: string): string
    decreases |p| - pos
  {
    if pos + 4 > |p| then name
    else
      var code := Num(big, p[pos..pos + 2]);
      var l := Num(big, p[pos + 2..pos + 4]);
      if code == 0 || pos + 4 + l > |p| then name
      else OptionName(big, p, pos + 4 + l + |Padding(l)|,
                      if code == 2 then Trim(Chars(p[pos + 4..pos + 4 + l])) else name)
  }

  function Next32(n: nat): nat { if n + 1 == TWO32 then 0 else n + 1 }

  function AddInterface(t: Table, p: seq<Byte>): Table {
    var name := if |p| >= 12 then OptionName(t.big, p, 8, Placeholder(t.next)) else Placeholder(t.next);
    t.(names := t.names[t.next := name], next := Next32(t.next))
  }

  // ---- Packets ---------------------------------------------------------------------------------

  datatype Frame = Frame(iface: string, ns: int, data: seq<Byte>)

  /** The low 64 bits as a signed number. */
  function ToInt64(x: int): (y: int)
    ensures Int64(y)
  {
    var u := x % TWO64;
    if u >= TWO64 / 2 then u - TWO64 else u
  }

  function Shown(name: string, id: nat): string {
    if name == "" then Placeholder(id) else name
  }

  /** The frame of a packet block, if its capture length fits. */
  function PacketFrame(t: Table, p: seq<Byte>): seq<Frame> {
    if |p| < 20 then []
    else
      var id := Num(t.big, p[..4]);
      var u := Num(t.big, p[4..8]) * TWO32 + Num(t.big, p[8..12]);
      var caplen := Num(t.big, p[12..16]);
      if 20 + caplen > |p| then []
      else
        var name := if id in t.names then t.names[id] else "";
        [Frame(Shown(name, id), ToInt64(ToInt64(u) * 1000), p[20..20 + caplen])]
  }

  datatype Applied = Refused(error: Error) | Accepted(table: Table, frames: seq<Frame>)

  function Apply(t: Table, kind: nat, p: seq<Byte>): Applied {
    if kind == SECTION then
      if |p| < 16 then Refused(ShortSection)
      else if FromLe(p[..4]) == BYTE_ORDER then Accepted(NO_TABLE, [])
      else if FromBe(p[..4]) == BYTE_ORDER then Accepted(NO_TABLE.(big := true), [])
      else Refused(BadByteOrder)
    else if kind == INTERFACE then Accepted(AddInterface(t, p), [])
    else if kind == PACKET then Accepted(t, PacketFrame(t, p))
    else Accepted(t, [])
  }

  // ---- Whole files -------------------------------------------------------------------------------

  /** The frames handed on, how the file ended (with how many octets left over, or with an error),
      and the table at that point. */
  datatype End = Clean(left: nat) | Failed(error: Error)
  datatype Reading = Reading(frames: seq<Frame>, end: End, table: Table)

  function After(frames: seq<Frame>, r: Reading): Reading {
    r.(frames := frames + r.frames)
  }

  function Read(t: Table, b: seq<Byte>): Reading
    decreases |b|
  {
    match FrontBlock(t.big, b)
    case NoBlock => Reading([], Clean(|b|), t)
    case Broken(e) => Reading([], Failed(e), t)
    case Whole(kind, p, size) =>
      match Apply(t, kind, p)
      case Refused(e) => Reading([], Failed(e), t)
      case Accepted(t', frames) => After(frames, Read(t', b[size..]))
  }

  lemma FrontBlockStable(big: bool, b: seq<Byte>, more: seq<Byte>)
    requires FrontBlock(big, b).Whole?
    ensures FrontBlock(big, b + more) == FrontBlock(big, b)
  {
    hide FromBe, FromLe;
    var n := FrontBlock(big, b).size;
    assert (b + more)[..4] == b[..4] && (b + more)[4..8] == b[4..8];
    assert (b + more)[n - 4..n] == b[n - 4..n] && (b + more)[8..n - 4] == b[8..n - 4];
  }

  /** Files that end at a block boundary may be read one after the other or as one. */
  lemma {:induction false} ReadConcat(t: Table, b: seq<Byte>, more: seq<Byte>)
    requires Read(t, b).end == Clean(0)
    ensures Read(t, b + more) == After(Read(t, b).frames, Read(Read(t, b).table, more))
    decreases |b|
  {
    hide FrontBlock, Apply;
    var f := FrontBlock(t.big, b);
    if f.NoBlock? {
      assert b == [] && b + more == more;
      var r := Read(t, more);
      assert [] + r.frames == r.frames;
    } else {
      FrontBlockStable(t.big, b, more);
      assert (b + more)[f.size..] == b[f.size..] + more;
      var a := Apply(t, f.kind, f.payload);
      ReadConcat(a.table, b[f.size..], more);
      var r := Read(a.table, b[f.size..]);
      var q := Read(r.table, more);
      assert a.frames + (r.frames + q.frames) == a.frames + r.frames + q.frames;
    }
  }

  // ---- Validate ----------------------------------------------------------------------------------

  /** Whether little-endian blocks, with matching lengths, fill the octets exactly. */
  predicate Tiled(b: seq<Byte>)
    decreases |b|
  {
    if |b| < 12 then b == []
    else
      var n := FromLe(b[4..8]);
      12 <= n <= |b| && FromLe(b[n - 4..n]) == n && Tiled(b[n..])
  }

  predicate Valid(b: seq<Byte>) {
    |b| >= 28 && FromLe(b[..4]) == SECTION && Tiled(b)
  }

  lemma {:induction false} TiledConcat(b: seq<Byte>, more: seq<Byte>)
    requires Tiled(b)
    ensures Tiled(b + more) == Tiled(more)
    decreases |b|
  {
    hide FromLe;
    if b == [] {
      assert b + more == more;
    } else {
      var n := FromLe(b[4..8]);
      assert (b + more)[4..8] == b[4..8] && (b + more)[n - 4..n] == b[n - 4..n];
      assert (b + more)[n..] == b[n..] + more;
      TiledConcat(b[n..], more);
    }
  }

  method Validate(b: seq<Byte>) returns (ok: bool)
    ensures ok == Valid(b)
  {
    hide FromLe;
    if |b| < 28 {
      return false;
    }
    if FromLe(b[..4]) != SECTION {
      return false;
    }
    var pos := 0;
    assert b[0..] == b;
    while pos + 12 <= |b|
      invariant 0 <= pos <= |b| && Tiled(b[pos..]) == Tiled(b)
    {
      assert b[pos..][4..8] == b[pos + 4..pos + 8];
      var n := FromLe(b[pos + 4..pos + 8]);
      if n < 12 || pos + n > |b| {
        return false;
      }
      assert b[pos..][n - 4..n] == b[pos + n - 4..pos + n];
      if FromLe(b[pos + n - 4..pos + n]) != n {
        return false;
      }
      assert b[pos..][n..] == b[pos + n..];
      pos := pos + n;
    }
    return pos == |b|;
  }
}
