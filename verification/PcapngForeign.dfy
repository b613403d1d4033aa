/** Files of other writers: any options, any further blocks, either byte order, cut short or damaged. */
module PcapngForeign {
  import opened Bytes
  import opened Endian
  import opened Text
  import opened Numerals
  import opened PcapngFormat
  import opened PcapngReader

  // ---- Blocks in either byte order -----------------------------------------------------------------

  function Enc(big: bool, n: nat, k: nat): (b: seq<Byte>)
    ensures |b| == k
  {
    if big then Be(n, k) else Le(n, k)
  }

  lemma NumBack(big: bool, n: nat, k: nat)
    requires (k == 2 && n < TWO16) || (k == 4 && n < TWO32)
    ensures Num(big, Enc(big, n, k)) == n
  {
    hide Be, Le, FromBe, FromLe;
    Powers();
    BeInverse(n, k);
    LeInverse(n, k);
  }

  function BlockIn(big: bool, kind: nat, payload: seq<Byte>): (b: seq<Byte>)
    ensures |b| == |payload| + 12
  {
    Enc(big, kind, 4) + Enc(big, |payload| + 12, 4) + payload + Enc(big, |payload| + 12, 4)
  }

  lemma FrontIn(big: bool, kind: nat, payload: seq<Byte>, more: seq<Byte>)
    requires kind < TWO32 && |payload| + 12 <= 64 * 1024 * 1024
    ensures FrontBlock(big, BlockIn(big, kind, payload) + more) == Whole(kind, payload, |payload| + 12)
    ensures (BlockIn(big, kind, payload) + more)[|payload| + 12..] == more
  {
    hide Num, Enc;
    var n := |payload| + 12;
    var b := BlockIn(big, kind, payload) + more;
    NumBack(big, kind, 4);
    NumBack(big, n, 4);
    assert b[..4] == Enc(big, kind, 4) && b[4..8] == Enc(big, n, 4) && b[n - 4..n] == Enc(big, n, 4);
    assert b[8..n - 4] == payload;
  }

  /** A whole block is taken off and applied; what it hands on comes before the rest. */
  lemma ReadNext(t: Table, kind: nat, payload: seq<Byte>, more: seq<Byte>)
    requires kind < TWO32 && |payload| + 12 <= 64 * 1024 * 1024 && Apply(t, kind, payload).Accepted?
    ensures var a := Apply(t, kind, payload);
            Read(t, BlockIn(t.big, kind, payload) + more) == After(a.frames, Read(a.table, more))
  {
    hide FrontBlock, Apply, BlockIn;
    FrontIn(t.big, kind, payload, more);
  }

  // ---- Interfaces ----------------------------------------------------------------------------------------

  datatype Opt = Opt(code: nat, value: seq<Byte>)

  predicate ValidOpt(o: Opt) { 0 < o.code < TWO16 && |o.value| < TWO16 }

  function OptBytes(big: bool, o: Opt): seq<Byte> {
    Enc(big, o.code, 2) + Enc(big, |o.value|, 2) + o.value + Padding(|o.value|)
  }

  function OptsBytes(big: bool, opts: seq<Opt>): seq<Byte> {
    if opts == [] then [] else OptBytes(big, opts[0]) + OptsBytes(big, opts[1..])
  }

  /** What may follow the options: an end mark and anything, or too little for another option. */
  predicate EndsOptions(big: bool, tail: seq<Byte>) {
    |tail| < 4 || tail[..2] == Enc(big, 0, 2)
  }

  /** The trimmed value of the last name option, or else the name there was. */
  function LastName(opts: seq<Opt>, name: string): string {
    if opts == [] then name
    else LastName(opts[1..], if opts[0].code == 2 then Trim(Chars(opts[0].value)) else name)
  }

  lemma NextOption(big: bool, p: seq<Byte>, pos: nat, name: string)
    ensures pos + 4 > |p| ==> OptionName(big, p, pos, name) == name
    ensures pos + 4 <= |p| ==>
              var code := Num(big, p[pos..pos + 2]); var l := Num(big, p[pos + 2..pos + 4]);
              OptionName(big, p, pos, name) ==
              if code == 0 || pos + 4 + l > |p| then name
              else OptionName(big, p, pos + 4 + l + |Padding(l)|, if code == 2 then Trim(Chars(p[pos + 4..pos + 4 + l])) else name)
  {
    hide Num, Trim, Chars, Padding;
  }

  lemma OptionParts(big: bool, pre: seq<Byte>, o: Opt, rest: seq<Byte>)
    requires ValidOpt(o)
    ensures var p := pre + (OptBytes(big, o) + rest); var pos := |pre|; var l := |o.value|;
            && pos + 4 + l <= |p| && Num(big, p[pos..pos + 2]) == o.code && Num(big, p[pos + 2..pos + 4]) == l
            && p[pos + 4..pos + 4 + l] == o.value && |pre + OptBytes(big, o)| == pos + 4 + l + |Padding(l)|
  {
    hide Num, Enc, Padding;
    var p := pre + (OptBytes(big, o) + rest);
    var pos := |pre|;
    NumBack(big, o.code, 2);
    NumBack(big, |o.value|, 2);
    assert p[pos..pos + 2] == Enc(big, o.code, 2) && p[pos + 2..pos + 4] == Enc(big, |o.value|, 2);
    assert p[pos + 4..pos + 4 + |o.value|] == o.value;
  }

  /** All options are passed, in any order and number, and the last name among them is taken. */
  lemma {:induction false} OptionsAreRead(big: bool, pre: seq<Byte>, opts: seq<Opt>, tail: seq<Byte>, name: string)
    requires (forall o <- opts :: ValidOpt(o)) && EndsOptions(big, tail)
    ensures OptionName(big, pre + (OptsBytes(big, opts) + tail), |pre|, name) == LastName(opts, name)
    decreases |opts|
  {
    hide Num, Enc, OptBytes, OptionName, Trim, Chars, ValidOpt, EndsOptions;
    var p := pre + (OptsBytes(big, opts) + tail);
    NextOption(big, p, |pre|, name);
    if opts == [] {
      assert p == pre + tail;
      EndIsSeen(big, pre, tail);
    } else {
      var rest := OptsBytes(big, opts[1..]) + tail;
      assert OptsBytes(big, opts) + tail == OptBytes(big, opts[0]) + rest;
      OptionParts(big, pre, opts[0], rest);
      assert p == (pre + OptBytes(big, opts[0])) + rest;
      OptionsAreRead(big, pre + OptBytes(big, opts[0]), opts[1..], tail, if opts[0].code == 2 then Trim(Chars(opts[0].value)) else name);
      assert opts[0].code != 0 by { assert ValidOpt(opts[0]); CodeIsNot0(opts[0]); }
    }
  }

  lemma CodeIsNot0(o: Opt)
    requires ValidOpt(o)
    ensures o.code != 0
  {}

  lemma EndIsSeen(big: bool, pre: seq<Byte>, tail: seq<Byte>)
    requires EndsOptions(big, tail)
    ensures |pre| + 4 > |pre + tail| || Num(big, (pre + tail)[|pre|..|pre| + 2]) == 0
  {
    hide Num, Enc;
    NumBack(big, 0, 2);
    if |tail| >= 4 { assert (pre + tail)[|pre|..|pre| + 2] == tail[..2]; }
  }

  // ---- Whole files -----------------------------------------------------------------------------------------

  /** The blocks behind a section header. A packet has a time in microseconds, an original length that is
      not looked at, and anything behind its data; a block of another kind has any payload. */
  datatype Item =
    | Iface(front: seq<Byte>, opts: seq<Opt>, tail: seq<Byte>)
    | Packet(id: nat, micros: nat, original: nat, data: seq<Byte>, tail: seq<Byte>)
    | Unknown(kind: nat, payload: seq<Byte>)

  function PayloadOf(big: bool, x: Item): seq<Byte> {
    match x
    case Iface(front, opts, tail) => front + (OptsBytes(big, opts) + tail)
    case Packet(id, micros, original, data, tail) =>
      Enc(big, id, 4) + Enc(big, micros / TWO32, 4) + Enc(big, micros % TWO32, 4) + Enc(big, |data|, 4) + Enc(big, original, 4)
      + data + tail
    case Unknown(_, payload) => payload
  }

  function KindOf(x: Item): nat {
    match x
    case Iface(_, _, _) => 1
    case Packet(_, _, _, _, _) => 6
    case Unknown(kind, _) => kind
  }

  predicate ValidItem(big: bool, x: Item) {
    && |PayloadOf(big, x)| + 12 <= 64 * 1024 * 1024
    && match x
       case Iface(front, opts, tail) => |front| == 8 && (forall o <- opts :: ValidOpt(o)) && EndsOptions(big, tail)
       case Packet(id, micros, original, _, _) => id < TWO32 && micros * 1000 < 0x8000_0000_0000_0000 && original < TWO32
       case Unknown(kind, _) => kind < TWO32 && kind != 0x0A0D0D0A && kind != 1 && kind != 6
  }

  function ItemsBytes(big: bool, items: seq<Item>): seq<Byte> {
    if items == [] then [] else BlockIn(big, KindOf(items[0]), PayloadOf(big, items[0])) + ItemsBytes(big, items[1..])
  }

  function Numbered(id: nat): string { "replay" + Spelled(id, 10) }

  /** The frames of the packets, each under the name of its interface: interfaces are numbered from zero as
      they come, and one that has no name, or a number nobody has, is shown by its number. */
  function FramesOf(names: seq<string>, items: seq<Item>): seq<Frame>
    decreases |items|
  {
    if items == [] then []
    else
      match items[0]
      case Iface(_, opts, _) => FramesOf(names + [LastName(opts, Numbered(|names|))], items[1..])
      case Packet(id, micros, _, data, _) =>
        var name := if id < |names| && names[id] != "" then names[id] else Numbered(id);
        [Frame(name, micros * 1000, data)] + FramesOf(names, items[1..])
      case Unknown(_, _) => FramesOf(names, items[1..])
  }

  lemma {:induction false} DigitsSpelled(n: nat)
    ensures DecimalDigits(n) == Spelled(n, 10)
    decreases n
  {
    hide Spelled;
    SpelledStep(n, 10);
    TenDigits(n % 10);
    if n >= 10 { DigitsSpelled(n / 10); }
  }

  lemma TenDigits(d: nat)
    requires d < 10
    ensures ('0' as int + d) as char == DIGITS[d]
  {}

  lemma PlaceholderIs(id: nat)
    ensures Placeholder(id) == Numbered(id)
  {
    hide DecimalDigits, Spelled;
    DigitsSpelled(id);
  }

  /** The table holds these names under their numbers, and no others. */
  ghost predicate Tabled(t: Table, names: seq<string>) {
    && t.next == |names| < TWO32
    && forall id: nat :: (id in t.names <==> id < |names|) && (id < |names| ==> t.names[id] == names[id])
  }

  lemma IfaceIsApplied(t: Table, names: seq<string>, x: Item)
    requires Tabled(t, names) && |names| + 1 < TWO32 && x.Iface? && ValidItem(t.big, x)
    ensures var a := Apply(t, 1, PayloadOf(t.big, x));
            a.Accepted? && a.frames == [] && a.table.big == t.big && Tabled(a.table, names + [LastName(x.opts, Numbered(|names|))])
  {
    hide Num, Enc, OptionName, LastName, Placeholder, Numbered, OptsBytes;
    var p := PayloadOf(t.big, x);
    PlaceholderIs(|names|);
    OptionsAreRead(t.big, x.front, x.opts, x.tail, Numbered(|names|));
    if |p| < 12 { NoOptions(t.big, p, Numbered(|names|)); }
  }

  lemma NoOptions(big: bool, p: seq<Byte>, name: string)
    requires |p| < 12
    ensures OptionName(big, p, 8, name) == name
  {
    hide Num;
  }

  lemma PacketParts(big: bool, x: Item)
    requires x.Packet? && ValidItem(big, x)
    ensures var p := PayloadOf(big, x);
            && |p| >= 20 + |x.data| && Num(big, p[..4]) == x.id && Num(big, p[12..16]) == |x.data|
            && Num(big, p[4..8]) * TWO32 + Num(big, p[8..12]) == x.micros && p[20..20 + |x.data|] == x.data
  {
    hide Num, Enc;
    var p := PayloadOf(big, x);
    var hi, lo := x.micros / TWO32, x.micros % TWO32;
    NumBack(big, x.id, 4);
    NumBack(big, hi, 4);
    NumBack(big, lo, 4);
    NumBack(big, |x.data|, 4);
    assert p[..4] == Enc(big, x.id, 4) && p[4..8] == Enc(big, hi, 4) && p[8..12] == Enc(big, lo, 4);
    assert p[12..16] == Enc(big, |x.data|, 4) && p[20..20 + |x.data|] == x.data;
  }

  lemma TimeIs(u: nat)
    requires u * 1000 < 0x8000_0000_0000_0000
    ensures ToInt64(ToInt64(u) * 1000) == u * 1000
  {
    assert u % TWO64 == u && (u * 1000) % TWO64 == u * 1000;
  }

  lemma PacketIsApplied(t: Table, names: seq<string>, x: Item)
    requires Tabled(t, names) && x.Packet? && ValidItem(t.big, x)
    ensures var name := if x.id < |names| && names[x.id] != "" then names[x.id] else Numbered(x.id);
            Apply(t, 6, PayloadOf(t.big, x)) == Accepted(t, [Frame(name, x.micros * 1000, x.data)])
  {
    hide Num, Enc, Placeholder, Numbered, PayloadOf, ToInt64;
    PacketParts(t.big, x);
    TimeIs(x.micros);
    PlaceholderIs(x.id);
  }

  /** Any run of blocks in the byte order of the table, whoever wrote them: all packets are handed on, in order,
      and the file ends cleanly. */
  lemma {:induction false} ItemsAreRead(t: Table, names: seq<string>, items: seq<Item>)
    requires Tabled(t, names) && |names| + |items| < TWO32 && forall x <- items :: ValidItem(t.big, x)
    ensures var r := Read(t, ItemsBytes(t.big, items)); r.frames == FramesOf(names, items) && r.end == Clean(0)
    decreases |items|
  {
    hide Read, BlockIn, PayloadOf, Tabled, ValidItem, Apply, LastName, Numbered;
    if items == [] {
      NothingIsRead(t);
    } else {
      var x := items[0];
      ItemSize(t.big, x);
      if x.Iface? {
        IfaceIsApplied(t, names, x);
        ReadNext(t, 1, PayloadOf(t.big, x), ItemsBytes(t.big, items[1..]));
        var a := Apply(t, 1, PayloadOf(t.big, x));
        ItemsAreRead(a.table, names + [LastName(x.opts, Numbered(|names|))], items[1..]);
        AfterNone(Read(a.table, ItemsBytes(t.big, items[1..])));
      } else if x.Packet? {
        PacketIsApplied(t, names, x);
        ReadNext(t, 6, PayloadOf(t.big, x), ItemsBytes(t.big, items[1..]));
        ItemsAreRead(t, names, items[1..]);
      } else {
        OtherIsSkipped(t, x);
        ReadNext(t, x.kind, PayloadOf(t.big, x), ItemsBytes(t.big, items[1..]));
        ItemsAreRead(t, names, items[1..]);
        AfterNone(Read(t, ItemsBytes(t.big, items[1..])));
      }
    }
  }

  lemma ItemSize(big: bool, x: Item)
    requires ValidItem(big, x)
    ensures |PayloadOf(big, x)| + 12 <= 64 * 1024 * 1024 && KindOf(x) < TWO32
  {
    hide PayloadOf;
  }

  lemma OtherIsSkipped(t: Table, x: Item)
    requires x.Unknown? && ValidItem(t.big, x)
    ensures Apply(t, x.kind, PayloadOf(t.big, x)) == Accepted(t, [])
  {}

  /** A packet block that is too short, or claims more data than it has, is passed over. */
  lemma LyingPacketIsSkipped(t: Table, p: seq<Byte>)
    requires |p| < 20 || 20 + Num(t.big, p[12..16]) > |p|
    ensures Apply(t, 6, p) == Accepted(t, [])
  {
    hide Num;
  }

  lemma NothingIsRead(t: Table)
    ensures Read(t, []) == Reading([], Clean(0), t)
  {}

  lemma AfterNone(r: Reading)
    ensures After([], r) == r
  {
    assert [] + r.frames == r.frames;
  }

  /** A section header with the given byte-order mark, its lengths in another byte order perhaps. */
  function SectionIn(lengths: bool, mark: bool, rest: seq<Byte>): seq<Byte> {
    BlockIn(lengths, 0x0A0D0D0A, Enc(mark, 0x1A2B3C4D, 4) + rest)
  }

  /** A little-endian file of any writer: its section header may say more, and every packet behind it is
      handed on. */
  lemma FileIsRead(rest: seq<Byte>, items: seq<Item>)
    requires 12 <= |rest| && |rest| + 16 <= 64 * 1024 * 1024 && |items| < TWO32 && forall x <- items :: ValidItem(false, x)
    ensures var r := Read(NO_TABLE, SectionIn(false, false, rest) + ItemsBytes(false, items));
            r.frames == FramesOf([], items) && r.end == Clean(0)
  {
    hide Read, BlockIn, ItemsBytes, ValidItem, FramesOf;
    var p := Enc(false, 0x1A2B3C4D, 4) + rest;
    MarkIsSeen(NO_TABLE, false, rest);
    ReadNext(NO_TABLE, 0x0A0D0D0A, p, ItemsBytes(false, items));
    ItemsAreRead(NO_TABLE, [], items);
    AfterNone(Read(NO_TABLE, ItemsBytes(false, items)));
  }

  lemma MarkIsSeen(t: Table, mark: bool, rest: seq<Byte>)
    requires 12 <= |rest|
    ensures Apply(t, 0x0A0D0D0A, Enc(mark, 0x1A2B3C4D, 4) + rest) == Accepted(Table(mark, map[], 0), [])
  {
    var p := Enc(mark, 0x1A2B3C4D, 4) + rest;
    assert p[..4] == Enc(mark, 0x1A2B3C4D, 4);
    NumBack(mark, 0x1A2B3C4D, 4);
    if mark { MarkReversed(); }
  }

  /** Read in the wrong order, the mark is not the mark. */
  lemma MarkReversed()
    ensures FromLe(Be(0x1A2B3C4D, 4)) != 0x1A2B3C4D
  {
    HighOctet(0x1A2B3C4D);
  }

  /** A big-endian file is not read at all: the length of its first block is taken for little-endian before
      its byte-order mark is looked at, and comes out too long unless its last octet is below five - and the
      last octet of an ordinary section header, of 28 octets, is 28. */
  lemma BigEndianIsRefused(rest: seq<Byte>, more: seq<Byte>)
    requires |rest| + 16 < TWO32 && (|rest| + 16) % 256 > 4
    ensures Read(NO_TABLE, SectionIn(true, true, rest) + more) == Reading([], Failed(BadLength), NO_TABLE)
  {
    hide FromLe, Be, Read;
    var n := |rest| + 16;
    var b := SectionIn(true, true, rest) + more;
    assert b[4..8] == Be(n, 4);
    HighOctet(n);
    BrokenAtOnce(b);
  }

  lemma BrokenAtOnce(b: seq<Byte>)
    requires FrontBlock(false, b) == Broken(BadLength)
    ensures Read(NO_TABLE, b) == Reading([], Failed(BadLength), NO_TABLE)
  {
    hide FrontBlock;
  }

  lemma HighOctet(n: nat)
    ensures FromLe(Be(n, 4)) >= 16 * 1024 * 1024 * (n % 256)
  {
    hide FromLe;
    var b := Be(n, 4);
    assert b[3] == n % 256;
    FourOctets(b);
  }

  lemma FourOctets(b: seq<Byte>)
    requires |b| == 4
    ensures FromLe(b) == b[0] as int + 256 * (b[1] as int + 256 * (b[2] as int + 256 * (b[3] as int)))
  {
    var x, y, z := b[1..], b[2..], b[3..];
    assert x[1..] == y && y[1..] == z && z[1..] == [];
    assert FromLe(z) == b[3] as int;
    assert FromLe(y) == b[2] as int + 256 * FromLe(z);
    assert FromLe(x) == b[1] as int + 256 * FromLe(y);
  }

  // ---- Cut and damaged files ---------------------------------------------------------------------------

  /** A block cut short: nothing of it is handed on; with less than its type and length left the file ends
      there, otherwise it is an error. */
  lemma CutBlock(t: Table, kind: nat, payload: seq<Byte>, n: nat)
    requires kind < TWO32 && |payload| + 12 <= 64 * 1024 * 1024 && n < |payload| + 12
    ensures Read(t, BlockIn(t.big, kind, payload)[..n]) == Reading([], if n < 8 then Clean(n) else Failed(ShortBody), t)
  {
    hide Num, Enc, Apply;
    var b := BlockIn(t.big, kind, payload);
    NumBack(t.big, |payload| + 12, 4);
    if n >= 8 { assert b[..n][4..8] == b[4..8] == Enc(t.big, |payload| + 12, 4); }
  }

  /** A file cut inside a block yields what stands before that block. */
  lemma CutFile(t: Table, b: seq<Byte>, kind: nat, payload: seq<Byte>, n: nat)
    requires Read(t, b).end == Clean(0) && kind < TWO32 && |payload| + 12 <= 64 * 1024 * 1024 && n < |payload| + 12
    ensures var before := Read(t, b); var r := Read(t, b + BlockIn(before.table.big, kind, payload)[..n]);
            r.frames == before.frames && r.end == if n < 8 then Clean(n) else Failed(ShortBody)
  {
    hide Read, BlockIn;
    var before := Read(t, b);
    ReadConcat(t, b, BlockIn(before.table.big, kind, payload)[..n]);
    CutBlock(before.table, kind, payload, n);
    assert before.frames + [] == before.frames;
  }

  /** A block whose two lengths differ, or whose length is none, is an error. */
  lemma DamagedBlock(t: Table, b: seq<Byte>)
    requires |b| >= 8
    ensures var n := Num(t.big, b[4..8]);
            && (n < 12 || n > 64 * 1024 * 1024 ==> Read(t, b) == Reading([], Failed(BadLength), t))
            && (12 <= n <= 64 * 1024 * 1024 && n <= |b| && Num(t.big, b[n - 4..n]) != n ==>
                 Read(t, b) == Reading([], Failed(BadTrailer), t))
  {
    hide Num, Apply;
  }

  /** A section header without a byte-order mark, or too short for one with a version and a length, is an
      error. */
  lemma BadSection(t: Table, payload: seq<Byte>, more: seq<Byte>)
    requires |payload| + 12 <= 64 * 1024 * 1024
    requires |payload| < 16 || (payload[..4] != Le(0x1A2B3C4D, 4) && payload[..4] != Be(0x1A2B3C4D, 4))
    ensures var r := Read(t, BlockIn(t.big, 0x0A0D0D0A, payload) + more);
            r.frames == [] && r.end == Failed(if |payload| < 16 then ShortSection else BadByteOrder)
  {
    hide BlockIn, Le, Be, FromLe, FromBe, FrontBlock;
    FrontIn(t.big, 0x0A0D0D0A, payload, more);
    if |payload| >= 16 {
      Back(payload[..4]);
      assert FromLe(payload[..4]) != 0x1A2B3C4D && FromBe(payload[..4]) != 0x1A2B3C4D;
    }
  }

  lemma {:induction false} LeBack(b: seq<Byte>)
    ensures Le(FromLe(b), |b|) == b
    decreases |b|
  {
    if b != [] {
      LeBack(b[1..]);
      var low: int := b[0];
      assert FromLe(b) % 256 == low && FromLe(b) / 256 == FromLe(b[1..]);
      assert b == [b[0]] + b[1..];
    }
  }

  lemma {:induction false} BeBack(b: seq<Byte>)
    ensures Be(FromBe(b), |b|) == b
    decreases |b|
  {
    if b != [] {
      var n := |b| - 1;
      BeBack(b[..n]);
      var low: int := b[n];
      assert FromBe(b) % 256 == low && FromBe(b) / 256 == FromBe(b[..n]);
      assert b == b[..n] + [b[n]];
    }
  }

  lemma Back(b: seq<Byte>)
    ensures Le(FromLe(b), |b|) == b && Be(FromBe(b), |b|) == b
  {
    LeBack(b);
    BeBack(b);
  }

  // ---- Valid segments --------------------------------------------------------------------------------------

  datatype Raw = Raw(kind: seq<Byte>, payload: seq<Byte>)

  /** A block of any kind, with both lengths. */
  function RawBytes(x: Raw): seq<Byte> {
    x.kind + Le(|x.payload| + 12, 4) + x.payload + Le(|x.payload| + 12, 4)
  }

  function RawsBytes(xs: seq<Raw>): seq<Byte> {
    if xs == [] then [] else RawBytes(xs[0]) + RawsBytes(xs[1..])
  }

  predicate ValidRaw(x: Raw) { |x.kind| == 4 && |x.payload| + 12 < TWO32 }

  lemma RawTiles(x: Raw, more: seq<Byte>)
    requires ValidRaw(x)
    ensures Tiled(RawBytes(x) + more) == Tiled(more)
  {
    hide Le, FromLe;
    var n := |x.payload| + 12;
    var b := RawBytes(x) + more;
    NumBack(false, n, 4);
    assert b[4..8] == Le(n, 4) && b[n - 4..n] == Le(n, 4) && b[n..] == more;
  }

  lemma {:induction false} RawsTile(xs: seq<Raw>)
    requires forall x <- xs :: ValidRaw(x)
    ensures Tiled(RawsBytes(xs))
    decreases |xs|
  {
    hide RawBytes, ValidRaw, Tiled;
    if xs == [] {
      NothingTiles();
    } else {
      RawTiles(xs[0], RawsBytes(xs[1..]));
      RawsTile(xs[1..]);
    }
  }

  lemma NothingTiles()
    ensures Tiled([])
  {}

  lemma FirstRaw(b: seq<Byte>) returns (x: Raw)
    requires Tiled(b) && b != [] && |b| < TWO32
    ensures ValidRaw(x) && RawBytes(x) <= b && |RawBytes(x)| >= 12 && Tiled(b[|RawBytes(x)|..])
  {
    hide Le, FromLe;
    var n := FromLe(b[4..8]);
    x := Raw(b[..4], b[8..n - 4]);
    LeBack(b[4..8]);
    LeBack(b[n - 4..n]);
    assert b[..n] == b[..4] + b[4..8] + b[8..n - 4] + b[n - 4..n];
  }

  lemma {:induction false} TiledIsRaws(b: seq<Byte>) returns (xs: seq<Raw>)
    requires Tiled(b) && |b| < TWO32
    ensures (forall x <- xs :: ValidRaw(x)) && b == RawsBytes(xs)
    decreases |b|
  {
    hide RawBytes, ValidRaw, Tiled;
    if b == [] {
      xs := [];
    } else {
      var x := FirstRaw(b);
      var rest := TiledIsRaws(b[|RawBytes(x)|..]);
      xs := [x] + rest;
      assert xs[1..] == rest;
      assert b == RawBytes(x) + b[|RawBytes(x)|..];
    }
  }

  ghost predicate AreBlocks(b: seq<Byte>, xs: seq<Raw>) {
    (forall x <- xs :: ValidRaw(x)) && b == RawsBytes(xs)
  }

  /** A file of less than 4 GiB is valid if and only if it has 28 octets or more, begins with a section header's
      type, and is blocks with matching lengths, one behind the other, and nothing else. */
  lemma ValidIff(b: seq<Byte>)
    requires |b| < TWO32
    ensures Valid(b) <==> |b| >= 28 && b[..4] == [0x0A, 0x0D, 0x0D, 0x0A] && exists xs :: AreBlocks(b, xs)
  {
    hide Tiled, RawsBytes, ValidRaw, FromLe, Le;
    if |b| >= 4 { SectionType(b[..4]); }
    if Tiled(b) {
      var xs := TiledIsRaws(b);
      assert AreBlocks(b, xs);
    }
    if xs :| AreBlocks(b, xs) { RawsTile(xs); }
  }

  lemma SectionType(b: seq<Byte>)
    requires |b| == 4
    ensures FromLe(b) == SECTION <==> b == [0x0A, 0x0D, 0x0D, 0x0A]
  {
    var s: seq<Byte> := [0x0A, 0x0D, 0x0D, 0x0A];
    assert FromLe(s) == SECTION by { assert s[1..][1..][1..] == [0x0A]; }
    LeBack(b);
    LeBack(s);
  }
}
