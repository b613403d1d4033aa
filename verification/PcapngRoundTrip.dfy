/** What the recorder writes, the replay reader reads back. */
module PcapngRoundTrip {
  import opened Bytes
  import opened Endian
  import opened Text
  import opened PcapngFormat
  import opened PcapngReader

  // ---- One block there and back ---------------------------------------------------------------

  lemma Le4Inverse(n: nat)
    requires n < TWO32
    ensures FromLe(Le(n, 4)) == n
  {
    Powers();
    LeInverse(n, 4);
  }

  lemma Le2Inverse(n: nat)
    requires n < TWO16
    ensures FromLe(Le(n, 2)) == n
  {
    Powers();
    LeInverse(n, 2);
  }

  lemma FrontOfBlock(kind: nat, payload: seq<Byte>, more: seq<Byte>)
    requires kind < TWO32 && |payload| + 12 <= MAX_BLOCK
    ensures FrontBlock(false, Block(kind, payload) + more) == Whole(kind, payload, |payload| + 12)
    ensures (Block(kind, payload) + more)[|payload| + 12..] == more
  {
    hide Le, FromLe, FromBe;
    var n := |payload| + 12;
    var b := Block(kind, payload) + more;
    Le4Inverse(kind);
    Le4Inverse(n);
    assert b[..4] == Le(kind, 4);
    assert b[4..8] == Le(n, 4);
    assert b[n - 4..n] == Le(n, 4);
    assert b[8..n - 4] == payload;
  }

  lemma TiledBlock(kind: nat, payload: seq<Byte>)
    requires |payload| + 12 < TWO32
    ensures Tiled(Block(kind, payload))
  {
    hide Le, FromLe;
    var n := |payload| + 12;
    var b := Block(kind, payload);
    Le4Inverse(n);
    assert b[4..8] == Le(n, 4);
    assert b[n - 4..n] == Le(n, 4);
    assert b[n..] == [];
  }

  /** A single accepted block reads cleanly, and so does what follows it. */
  lemma ReadBlock(t: Table, kind: nat, payload: seq<Byte>)
    requires !t.big && kind < TWO32 && |payload| + 12 <= MAX_BLOCK
    requires Apply(t, kind, payload).Accepted?
    ensures var a := Apply(t, kind, payload);
            Read(t, Block(kind, payload)) == Reading(a.frames, Clean(0), a.table)
  {
    hide FrontBlock, Apply, Block;
    var b := Block(kind, payload);
    assert b + [] == b;
    FrontOfBlock(kind, payload, []);
    var a := Apply(t, kind, payload);
    assert FrontBlock(a.table.big, []) == NoBlock by { NothingLeft(a.table.big); }
    assert a.frames + [] == a.frames;
  }

  lemma NothingLeft(big: bool)
    ensures FrontBlock(big, []) == NoBlock
  {}

  lemma ApplySection(t: Table)
    ensures Apply(t, SECTION, SectionPayload()) == Accepted(NO_TABLE, [])
  {
    hide Le, FromLe, FromBe;
    Le4Inverse(BYTE_ORDER);
    assert SectionPayload()[..4] == Le(BYTE_ORDER, 4);
  }

  /** An interface block enters the trimmed name under the next number. */
  lemma ApplyInterface(t: Table, name: string)
    requires !t.big && OneByteChars(name) && |name| < TWO16
    ensures Apply(t, INTERFACE, InterfacePayload(name)) ==
            Accepted(t.(names := t.names[t.next := Trim(name)], next := Next32(t.next)), [])
  {
    hide Le, FromLe, FromBe, Trim, Octets, Chars, DecimalDigits, Next32, OptionName;
    var p := InterfacePayload(name);
    var end := 12 + |name| + |Padding(|name|)|;
    Le2Inverse(2);
    Le2Inverse(|name|);
    CharsOfOctets(name);
    assert p[8..10] == Le(2, 2);
    assert p[10..12] == Le(|name|, 2);
    assert p[12..12 + |name|] == Octets(name);
    OptionStep(false, p, 8, Placeholder(t.next));
    assert p[end..end + 2] == Le(0, 4)[..2];
    ZeroCode();
    OptionStep(false, p, end, Trim(name));
  }

  lemma ZeroCode()
    ensures FromLe(Le(0, 4)[..2]) == 0
  {
    LeOfZero();
    assert Le(0, 4)[..2] == Le(0, 2);
    Le2Inverse(0);
  }

  lemma OptionStep(big: bool, p: seq<Byte>, pos: nat, name: string)
    requires pos + 4 <= |p|
    ensures var code := Num(big, p[pos..pos + 2]); var l := Num(big, p[pos + 2..pos + 4]);
            OptionName(big, p, pos, name) ==
            if code == 0 || pos + 4 + l > |p| then name
            else OptionName(big, p, pos + 4 + l + |Padding(l)|,
                            if code == 2 then Trim(Chars(p[pos + 4..pos + 4 + l])) else name)
  {
    hide Num, Trim, Chars;
  }

  /** The reader's time: the writer's, cut to whole microseconds towards zero. */
  function Cut(ns: int): (t: int)
    ensures t % 1000 == 0 && (if ns >= 0 then ns - 1000 < t <= ns else ns <= t < ns + 1000)
  {
    Micros(ns) * 1000
  }

  lemma Int64Same(x: int)
    requires Int64(x)
    ensures ToInt64(x) == x && ToInt64(ToUint64(x)) == x
  {
    assert (x + TWO64) % TWO64 == if x < 0 then x + TWO64 else x;
  }

  lemma ApplyPacket(t: Table, id: nat, ns: int, data: seq<Byte>)
    requires !t.big && id < TWO32 && Int64(ns) && |data| + 32 <= MAX_BLOCK
    ensures var name := if id in t.names then t.names[id] else "";
            Apply(t, PACKET, PacketPayload(id, ns, data)) == Accepted(t, [Frame(Shown(name, id), Cut(ns), data)])
  {
    hide Le, FromLe, FromBe, Shown, ToInt64, ToUint64, Micros;
    var p := PacketPayload(id, ns, data);
    var usec := Micros(ns);
    assert Int64(usec) && Int64(usec * 1000) by { MicrosInRange(ns); }
    var u := ToUint64(usec);
    var hi, lo := u / TWO32, u % TWO32;
    assert u < TWO64 by { Uint64Range(usec); }
    Le4Inverse(id);
    Le4Inverse(hi);
    Le4Inverse(lo);
    Le4Inverse(|data|);
    assert p[..4] == Le(id, 4);
    assert p[4..8] == Le(hi, 4);
    assert p[8..12] == Le(lo, 4);
    assert p[12..16] == Le(|data|, 4);
    assert p[20..20 + |data|] == data;
    Int64Same(usec);
    Int64Same(usec * 1000);
  }

  /** The size bound is exact: a longer frame is still recorded, but stops the reader. */
  lemma PacketIsReadIff(id: nat, ns: int, data: seq<Byte>, more: seq<Byte>)
    requires id < TWO32 && Int64(ns) && |data| + 36 <= TWO32
    ensures var f := FrontBlock(false, Block(PACKET, PacketPayload(id, ns, data)) + more);
            (|data| + 32 <= MAX_BLOCK <==> f.Whole?) && (!f.Whole? ==> f == Broken(BadLength))
  {
    hide Le, FromLe, FromBe, PacketPayload;
    var p := PacketPayload(id, ns, data);
    PaddedSize(|data|);
    if |data| + 32 <= MAX_BLOCK {
      FrontOfBlock(PACKET, p, more);
    } else {
      Le4Inverse(|p| + 12);
      assert (Block(PACKET, p) + more)[4..8] == Le(|p| + 12, 4);
    }
  }

  lemma PaddedSize(n: nat)
    ensures n + 32 <= MAX_BLOCK <==> 32 + n + |Padding(n)| <= MAX_BLOCK
    ensures n + 36 <= TWO32 ==> 32 + n + |Padding(n)| < TWO32
  {}

  lemma MicrosInRange(ns: int)
    requires Int64(ns)
    ensures Int64(Micros(ns)) && Int64(Micros(ns) * 1000)
  {}

  lemma Uint64Range(x: int)
    requires Int64(x)
    ensures ToUint64(x) < TWO64
  {}

  // ---- The recorder ------------------------------------------------------------------------------

  /** Closed segments, the current one, its byte count and its interface numbers. */
  datatype Recorder = Recorder(closed: seq<seq<Byte>>, cur: seq<Byte>, written: nat, ifaces: map<string, nat>)

  function Rotate(closed: seq<seq<Byte>>): Recorder {
    Recorder(closed, Block(SECTION, SectionPayload()), 28, map[])
  }

  function Opened(r: Recorder, limit: nat): Recorder {
    if r.written >= limit then Rotate(r.closed + [r.cur]) else r
  }

  predicate Writable(f: Frame) {
    OneByteChars(f.iface) && Int64(f.ns)
  }

  predicate AllWritable(frames: seq<Frame>) {
    forall i :: 0 <= i < |frames| ==> Writable(frames[i])
  }

  /** The interface block, when the name is new in this segment. */
  function Introduced(r: Recorder, name: string): Recorder
    requires OneByteChars(name)
  {
    if name in r.ifaces then r
    else
      var b := Block(INTERFACE, InterfacePayload(name));
      r.(cur := r.cur + b, written := r.written + InterfaceSize(name), ifaces := r.ifaces[name := |r.ifaces|])
  }

  function Appended(r: Recorder, f: Frame): Recorder
    requires Writable(f) && f.iface in r.ifaces
  {
    var b := Block(PACKET, PacketPayload(r.ifaces[f.iface], f.ns, f.data));
    r.(cur := r.cur + b, written := r.written + |b|)
  }

  function Write(r: Recorder, f: Frame, limit: nat): Recorder
    requires Writable(f)
  {
    Appended(Introduced(Opened(r, limit), f.iface), f)
  }

  function WriteAll(r: Recorder, frames: seq<Frame>, limit: nat): Recorder
    requires AllWritable(frames)
    decreases |frames|
  {
    if frames == [] then r else WriteAll(Write(r, frames[0], limit), frames[1..], limit)
  }

  // ---- What a segment should yield -------------------------------------------------------------------

  /** Lengths fit the fields they are written to. */
  predicate Recordable(f: Frame) {
    Writable(f) && |f.iface| < TWO16 && |f.data| + 36 <= TWO32
  }

  predicate AllRecordable(frames: seq<Frame>)
    ensures AllRecordable(frames) ==> AllWritable(frames)
  {
    forall i :: 0 <= i < |frames| ==> Recordable(frames[i])
  }

  /** The reader accepts a block of this size. */
  predicate Fits(f: Frame) { |f.data| + 32 <= MAX_BLOCK }

  /** A frame as it should come back, and whether its block fits the reader. */
  datatype Entry = Entry(frame: Frame, fits: bool)

  predicate AllFit(es: seq<Entry>) { forall i :: 0 <= i < |es| ==> es[i].fits }

  /** The frames before the first one that does not fit. */
  function Readable(es: seq<Entry>): seq<Frame> {
    if es == [] || !es[0].fits then [] else [es[0].frame] + Readable(es[1..])
  }

  function EndOf(es: seq<Entry>): End { if AllFit(es) then Clean(0) else Failed(BadLength) }

  lemma {:induction false} ReadableConcat(a: seq<Entry>, b: seq<Entry>)
    ensures Readable(a + b) == if AllFit(a) then Readable(a) + Readable(b) else Readable(a)
    ensures AllFit(a + b) <==> AllFit(a) && AllFit(b)
    decreases |a|
  {
    hide *;
    FitConcat(a, b);
    if a == [] {
      NothingReadable();
      assert a + b == b && [] + Readable(b) == Readable(b);
    } else {
      assert (a + b)[1..] == a[1..] + b && (a + b)[0] == a[0];
      ReadableStep(a);
      ReadableStep(a + b);
      ReadableConcat(a[1..], b);
      ConsConcat(a[0].frame, Readable(a[1..]), Readable(b));
    }
  }

  lemma ConsConcat(x: Frame, p: seq<Frame>, q: seq<Frame>)
    ensures [x] + (p + q) == [x] + p + q
  {}

  lemma NothingReadable()
    ensures Readable([]) == [] && AllFit([])
  {}

  lemma ReadableStep(es: seq<Entry>)
    requires es != []
    ensures Readable(es) == if es[0].fits then [es[0].frame] + Readable(es[1..]) else []
    ensures AllFit(es) <==> es[0].fits && AllFit(es[1..])
  {
    hide Readable;
    NextReadable(es);
    forall i | 1 <= i < |es| ensures es[i] == es[1..][i - 1] {}
  }

  lemma NextReadable(es: seq<Entry>)
    requires es != []
    ensures Readable(es) == if es[0].fits then [es[0].frame] + Readable(es[1..]) else []
  {}

  lemma FitConcat(a: seq<Entry>, b: seq<Entry>)
    ensures AllFit(a + b) <==> AllFit(a) && AllFit(b)
  {
    forall i | 0 <= i < |b| ensures b[i] == (a + b)[|a| + i] {}
    forall i | 0 <= i < |a| ensures a[i] == (a + b)[i] {}
  }

  lemma {:induction false} ReadableSize(es: seq<Entry>)
    ensures |Readable(es)| <= |es| && (|Readable(es)| == |es| <==> AllFit(es))
    decreases |es|
  {
    if es != [] {
      ReadableSize(es[1..]);
      FitConcat([es[0]], es[1..]);
      assert es == [es[0]] + es[1..];
    }
  }

  // ---- The invariant --------------------------------------------------------------------------------

  /** The reader's table holds each interface under the number the recorder gave it. */
  ghost predicate InStep(ifaces: map<string, nat>, t: Table) {
    && !t.big && t.next == |ifaces|
    && forall name <- ifaces :: ifaces[name] < |ifaces| && ifaces[name] in t.names && t.names[ifaces[name]] == Trim(name)
  }

  /** Reading the segment yields the entries before the first that does not fit, and stops there. */
  ghost predicate Yields(b: seq<Byte>, es: seq<Entry>) {
    var r := Read(NO_TABLE, b);
    r.frames == Readable(es) && r.end == EndOf(es)
  }

  /** The current segment is valid, yields its entries, and its bytes are counted. */
  ghost predicate Holds(r: Recorder, es: seq<Entry>) {
    && r.written == |r.cur| >= 28 && FromLe(r.cur[..4]) == SECTION && Tiled(r.cur)
    && Yields(r.cur, es)
    && (AllFit(es) ==> InStep(r.ifaces, Read(NO_TABLE, r.cur).table))
  }

  lemma RotateHolds(closed: seq<seq<Byte>>)
    ensures Holds(Rotate(closed), [])
  {
    hide Le, FromLe, Read, Tiled, SectionPayload;
    ApplySection(NO_TABLE);
    ReadBlock(NO_TABLE, SECTION, SectionPayload());
    TiledBlock(SECTION, SectionPayload());
    Le4Inverse(SECTION);
    assert Block(SECTION, SectionPayload())[..4] == Le(SECTION, 4);
  }

  /** Adding one block to a segment: it stays valid. */
  lemma BlockTiles(cur: seq<Byte>, kind: nat, payload: seq<Byte>)
    requires |cur| >= 4 && Tiled(cur) && |payload| + 12 < TWO32
    ensures var b := Block(kind, payload); (cur + b)[..4] == cur[..4] && Tiled(cur + b)
  {
    hide Tiled, Block, FromLe;
    TiledBlock(kind, payload);
    TiledConcat(cur, Block(kind, payload));
  }

  /** It is read behind what is there, */
  lemma BlockReads(cur: seq<Byte>, kind: nat, payload: seq<Byte>)
    requires Read(NO_TABLE, cur).end == Clean(0) && !Read(NO_TABLE, cur).table.big
    requires kind < TWO32 && |payload| + 12 <= MAX_BLOCK && Apply(Read(NO_TABLE, cur).table, kind, payload).Accepted?
    ensures var r := Read(NO_TABLE, cur); var a := Apply(r.table, kind, payload);
            Read(NO_TABLE, cur + Block(kind, payload)) == Reading(r.frames + a.frames, Clean(0), a.table)
  {
    hide Read, Block, Apply;
    ReadBlock(Read(NO_TABLE, cur).table, kind, payload);
    ReadConcat(NO_TABLE, cur, Block(kind, payload));
  }

  /** or stops the reader when it is too long, */
  lemma BlockStops(cur: seq<Byte>, kind: nat, payload: seq<Byte>)
    requires Read(NO_TABLE, cur).end == Clean(0) && !Read(NO_TABLE, cur).table.big
    requires MAX_BLOCK < |payload| + 12 < TWO32
    ensures var r := Read(NO_TABLE, cur);
            Read(NO_TABLE, cur + Block(kind, payload)) == Reading(r.frames, Failed(BadLength), r.table)
  {
    hide Read, Block, FrontBlock;
    var r := Read(NO_TABLE, cur);
    LongBlock(kind, payload);
    ReadStops(r.table, Block(kind, payload));
    ReadConcat(NO_TABLE, cur, Block(kind, payload));
    assert r.frames + [] == r.frames;
  }

  lemma LongBlock(kind: nat, payload: seq<Byte>)
    requires MAX_BLOCK < |payload| + 12 < TWO32
    ensures FrontBlock(false, Block(kind, payload)) == Broken(BadLength)
  {
    hide Le, FromLe, FromBe;
    Le4Inverse(|payload| + 12);
    assert Block(kind, payload)[4..8] == Le(|payload| + 12, 4);
  }

  lemma ReadStops(t: Table, b: seq<Byte>)
    requires FrontBlock(t.big, b) == Broken(BadLength)
    ensures Read(t, b) == Reading([], Failed(BadLength), t)
  {
    hide FrontBlock;
  }

  lemma BadLengthStays(big: bool, b: seq<Byte>, more: seq<Byte>)
    requires FrontBlock(big, b) == Broken(BadLength)
    ensures FrontBlock(big, b + more) == Broken(BadLength)
  {
    hide FromBe, FromLe;
    assert (b + more)[4..8] == b[4..8];
  }

  /** and behind such a block nothing more is read. */
  lemma {:induction false} StoppedStays(t: Table, b: seq<Byte>, more: seq<Byte>)
    requires Read(t, b).end == Failed(BadLength)
    ensures Read(t, b + more) == Read(t, b)
    decreases |b|
  {
    hide FrontBlock, Apply;
    var f := FrontBlock(t.big, b);
    if f.Broken? {
      BadLengthStays(t.big, b, more);
    } else {
      FrontBlockStable(t.big, b, more);
      assert (b + more)[f.size..] == b[f.size..] + more;
      var a := Apply(t, f.kind, f.payload);
      if a.Accepted? {
        StoppedStays(a.table, b[f.size..], more);
      }
    }
  }

  lemma IntroducedHolds(r: Recorder, es: seq<Entry>, name: string)
    requires Holds(r, es) && OneByteChars(name) && |name| < TWO16 && |r.ifaces| + 1 < TWO32
    ensures Holds(Introduced(r, name), es) && name in Introduced(r, name).ifaces
    ensures |Introduced(r, name).ifaces| <= |r.ifaces| + 1
  {
    hide Read, Tiled, Apply, FromLe, Le, Trim, InterfacePayload, Block, OneByteChars, Readable, AllFit;
    if name !in r.ifaces {
      BlockTiles(r.cur, INTERFACE, InterfacePayload(name));
      assert |r.ifaces[name := |r.ifaces|]| == |r.ifaces| + 1;
      if AllFit(es) {
        ApplyInterface(Read(NO_TABLE, r.cur).table, name);
        BlockReads(r.cur, INTERFACE, InterfacePayload(name));
        assert Readable(es) + [] == Readable(es);
      } else {
        StoppedStays(NO_TABLE, r.cur, Block(INTERFACE, InterfacePayload(name)));
      }
    }
  }

  /** The frame of a packet block in this segment, as it should come back. */
  function Shows(f: Frame, id: nat): Frame { Frame(Shown(Trim(f.iface), id), Cut(f.ns), f.data) }

  lemma PacketBlockSize(id: nat, f: Frame)
    requires Recordable(f)
    ensures |PacketPayload(id, f.ns, f.data)| + 12 < TWO32
    ensures Fits(f) <==> |PacketPayload(id, f.ns, f.data)| + 12 <= MAX_BLOCK
  {
    PaddedSize(|f.data|);
  }

  lemma AppendedHolds(r: Recorder, es: seq<Entry>, f: Frame)
    requires Holds(r, es) && Recordable(f) && f.iface in r.ifaces && |r.ifaces| < TWO32
    ensures Holds(Appended(r, f), es + [Entry(Shows(f, r.ifaces[f.iface]), Fits(f))])
  {
    hide Read, Tiled, Apply, FromLe, Le, Trim, PacketPayload, Block, OneByteChars, Shown, Cut, Readable, AllFit, Shows;
    var id := r.ifaces[f.iface];
    var e := Entry(Shows(f, id), Fits(f));
    var payload := PacketPayload(id, f.ns, f.data);
    PacketBlockSize(id, f);
    BlockTiles(r.cur, PACKET, payload);
    ReadableConcat(es, [e]);
    OneReadable(e);
    if !AllFit(es) {
      StoppedStays(NO_TABLE, r.cur, Block(PACKET, payload));
    } else if Fits(f) {
      PacketShows(Read(NO_TABLE, r.cur).table, r.ifaces, f);
      BlockReads(r.cur, PACKET, payload);
    } else {
      BlockStops(r.cur, PACKET, payload);
      assert Readable(es) + [] == Readable(es);
    }
  }

  lemma OneReadable(e: Entry)
    ensures Readable([e]) == (if e.fits then [e.frame] else []) && (AllFit([e]) <==> e.fits)
  {
    var one := [e];
    assert one[1..] == [] && one[0] == e;
  }

  lemma PacketShows(t: Table, ifaces: map<string, nat>, f: Frame)
    requires InStep(ifaces, t) && f.iface in ifaces && |ifaces| < TWO32 && Recordable(f) && Fits(f)
    ensures Apply(t, PACKET, PacketPayload(ifaces[f.iface], f.ns, f.data)) == Accepted(t, [Shows(f, ifaces[f.iface])])
  {
    hide Apply, Trim, PacketPayload, OneByteChars, Shown, Cut;
    ApplyPacket(t, ifaces[f.iface], f.ns, f.data);
  }

  // ---- Runs -----------------------------------------------------------------------------------------

  /** The frames of all segments, read one by one. */
  function ReadSegments(segments: seq<seq<Byte>>): seq<Frame> {
    if segments == [] then []
    else ReadSegments(segments[..|segments| - 1]) + Read(NO_TABLE, segments[|segments| - 1]).frames
  }

  function Segments(r: Recorder): seq<seq<Byte>> { r.closed + [r.cur] }

  /** A segment passes the validity check and yields its entries. */
  ghost predicate Written(b: seq<Byte>, es: seq<Entry>) {
    Valid(b) && Yields(b, es) && (AllFit(es) ==> !Read(NO_TABLE, b).table.big)
  }

  ghost predicate AllWritten(segments: seq<seq<Byte>>, groups: seq<seq<Entry>>) {
    |segments| == |groups| && forall i :: 0 <= i < |segments| ==> Written(segments[i], groups[i])
  }

  /** Every segment so far yields its group of entries, and the byte count is that of the current. */
  ghost predicate Sound(r: Recorder, groups: seq<seq<Entry>>) {
    && |groups| == |r.closed| + 1
    && AllWritten(r.closed, groups[..|r.closed|]) && Holds(r, groups[|r.closed|])
  }

  /** The number the interface of a frame has, once that frame is written. */
  function IdOf(r: Recorder, f: Frame, limit: nat): nat
    requires Writable(f)
  {
    Introduced(Opened(r, limit), f.iface).ifaces[f.iface]
  }

  function EntryOf(r: Recorder, f: Frame, limit: nat): Entry
    requires Writable(f)
  {
    Entry(Shows(f, IdOf(r, f, limit)), Fits(f))
  }

  /** The groups with one more entry: in a group of its own when the frame starts a segment. */
  function Filed(groups: seq<seq<Entry>>, e: Entry, rotated: bool): seq<seq<Entry>>
    requires groups != []
  {
    var n := |groups| - 1;
    if rotated then groups + [[e]] else groups[..n] + [groups[n] + [e]]
  }

  lemma HoldsIsWritten(r: Recorder, es: seq<Entry>)
    requires Holds(r, es)
    ensures Written(r.cur, es)
  {
    hide Read, Tiled, FromLe, AllFit, Readable;
  }

  lemma OpenedKeeps(r: Recorder, groups: seq<seq<Entry>>, limit: nat)
    requires Sound(r, groups)
    ensures Sound(Opened(r, limit), if r.written >= limit then groups + [[]] else groups)
    ensures |Opened(r, limit).ifaces| <= |r.ifaces|
  {
    hide Holds, Written;
    if r.written >= limit {
      var closed, more := r.closed + [r.cur], groups + [[]];
      RotateHolds(closed);
      HoldsIsWritten(r, groups[|r.closed|]);
      assert more[..|closed|] == groups;
      forall i | 0 <= i < |closed| ensures Written(closed[i], groups[i]) {
        if i < |r.closed| { assert groups[..|r.closed|][i] == groups[i]; }
      }
    }
  }

  /** One write, with or without rotation and whatever its size: all segments yield their entries. */
  lemma WriteKeeps(r: Recorder, groups: seq<seq<Entry>>, f: Frame, limit: nat)
    requires Sound(r, groups) && Recordable(f) && |r.ifaces| + 1 < TWO32
    ensures Sound(Write(r, f, limit), Filed(groups, EntryOf(r, f, limit), r.written >= limit))
    ensures |Write(r, f, limit).ifaces| <= |r.ifaces| + 1
  {
    hide Holds, Opened, Introduced, Appended, AllWritten, Shows, Fits, OneByteChars;
    OpenedKeeps(r, groups, limit);
    var o := Opened(r, limit);
    var gs := if r.written >= limit then groups + [[]] else groups;
    var n := |o.closed|;
    IntroducedHolds(o, gs[n], f.iface);
    IntroducedSame(o, f.iface);
    var i := Introduced(o, f.iface);
    AppendedHolds(i, gs[n], f);
    AppendedSame(i, f);
    var e := EntryOf(r, f, limit);
    FiledIs(groups, e, r.written >= limit, n);
  }

  lemma FiledIs(groups: seq<seq<Entry>>, e: Entry, rotated: bool, n: nat)
    requires groups != [] && n == if rotated then |groups| else |groups| - 1
    ensures var gs := if rotated then groups + [[]] else groups; var out := Filed(groups, e, rotated);
            |out| == n + 1 && out[..n] == gs[..n] && out[n] == gs[n] + [e]
  {
    if rotated { assert (groups + [[]])[n] + [e] == [e]; }
  }

  lemma IntroducedSame(r: Recorder, name: string)
    requires OneByteChars(name)
    ensures Introduced(r, name).closed == r.closed
  {}

  lemma AppendedSame(r: Recorder, f: Frame)
    requires Writable(f) && f.iface in r.ifaces
    ensures Appended(r, f).closed == r.closed && Appended(r, f).ifaces == r.ifaces
  {
    hide Block, PacketPayload;
  }

  /** The entries of a run, segment by segment. */
  function Groups(r: Recorder, groups: seq<seq<Entry>>, frames: seq<Frame>, limit: nat): seq<seq<Entry>>
    requires AllWritable(frames) && groups != []
    decreases |frames|
  {
    if frames == [] then groups
    else
      Groups(Write(r, frames[0], limit), Filed(groups, EntryOf(r, frames[0], limit), r.written >= limit), frames[1..], limit)
  }

  /** The entries of a run in order. */
  function Entries(r: Recorder, frames: seq<Frame>, limit: nat): seq<Entry>
    requires AllWritable(frames)
    decreases |frames|
  {
    if frames == [] then [] else [EntryOf(r, frames[0], limit)] + Entries(Write(r, frames[0], limit), frames[1..], limit)
  }

  function Flat(groups: seq<seq<Entry>>): seq<Entry> {
    if groups == [] then [] else Flat(groups[..|groups| - 1]) + groups[|groups| - 1]
  }

  lemma FlatFiled(groups: seq<seq<Entry>>, e: Entry, rotated: bool)
    requires groups != []
    ensures Flat(Filed(groups, e, rotated)) == Flat(groups) + [e]
  {
    var n := |groups| - 1;
    var out := Filed(groups, e, rotated);
    if rotated {
      assert out[..n + 1] == groups;
    } else {
      assert out[..n] == groups[..n];
      assert Flat(groups[..n]) + (groups[n] + [e]) == Flat(groups[..n]) + groups[n] + [e];
    }
  }

  lemma {:induction false} RunKeeps(r: Recorder, groups: seq<seq<Entry>>, frames: seq<Frame>, limit: nat)
    requires Sound(r, groups) && groups != [] && |r.ifaces| + |frames| < TWO32 && AllRecordable(frames)
    ensures var all := Groups(r, groups, frames, limit);
            Sound(WriteAll(r, frames, limit), all) && Flat(all) == Flat(groups) + Entries(r, frames, limit)
    decreases |frames|
  {
    hide Sound, Write, EntryOf, Filed, Flat;
    if frames == [] {
      assert Flat(groups) + [] == Flat(groups);
    } else {
      var f := frames[0];
      var e, rotated := EntryOf(r, f, limit), r.written >= limit;
      WriteKeeps(r, groups, f, limit);
      FlatFiled(groups, e, rotated);
      FiledIs(groups, e, rotated, if rotated then |groups| else |groups| - 1);
      var w := Write(r, f, limit);
      RunKeeps(w, Filed(groups, e, rotated), frames[1..], limit);
      assert Flat(groups) + [e] + Entries(w, frames[1..], limit) == Flat(groups) + ([e] + Entries(w, frames[1..], limit));
    }
  }

  /** A name comes back as it was exactly when it has no outer spaces and is not empty. */
  lemma NameComesBackIff(name: string, id: nat)
    ensures Shown(Trim(name), id) == name <==> Trim(name) == name && name != ""
  {
    hide Trim;
    TrimIsTrimmed(name);
    if Trim(name) == "" {
      assert Trimmed(Placeholder(id));
    }
  }

  lemma StartSound()
    ensures Sound(Rotate([]), [[]])
  {
    hide Holds, Block, SectionPayload;
    RotateHolds([]);
  }

  /** One frame came back: with its time cut, its data, and its interface exactly when the name is
      trimmed and not empty. */
  predicate Same(out: Frame, f: Frame) {
    && out.ns == Cut(f.ns) && out.data == f.data
    && (out.iface == f.iface <==> Trim(f.iface) == f.iface && f.iface != "")
  }

  predicate SameFrames(out: seq<Frame>, frames: seq<Frame>) {
    |out| == |frames| && forall i :: 0 <= i < |frames| ==> Same(out[i], frames[i])
  }

  /** The entries are the frames recorded, in order. */
  predicate Describe(es: seq<Entry>, frames: seq<Frame>) {
    |es| == |frames| && forall i :: 0 <= i < |frames| ==> Same(es[i].frame, frames[i]) && es[i].fits == Fits(frames[i])
  }

  lemma {:induction false} EntriesDescribe(r: Recorder, frames: seq<Frame>, limit: nat)
    requires AllWritable(frames)
    ensures Describe(Entries(r, frames, limit), frames)
    decreases |frames|
  {
    hide Write, Same, Fits, EntryOf;
    if frames != [] {
      var es := Entries(Write(r, frames[0], limit), frames[1..], limit);
      EntriesDescribe(Write(r, frames[0], limit), frames[1..], limit);
      EntryIsSame(r, frames[0], limit);
      assert Entries(r, frames, limit)[1..] == es;
      forall i | 1 <= i < |frames| ensures Entries(r, frames, limit)[i] == es[i - 1] && frames[i] == frames[1..][i - 1] {}
    }
  }

  lemma EntryIsSame(r: Recorder, f: Frame, limit: nat)
    requires Writable(f)
    ensures Same(EntryOf(r, f, limit).frame, f) && EntryOf(r, f, limit).fits == Fits(f)
  {
    hide Cut, Trim, Shown, IdOf;
    NameComesBackIff(f.iface, IdOf(r, f, limit));
  }

  predicate AllFramesFit(frames: seq<Frame>) { forall i :: 0 <= i < |frames| ==> Fits(frames[i]) }

  lemma {:induction false} AllReadable(es: seq<Entry>)
    requires AllFit(es)
    ensures |Readable(es)| == |es| && forall i :: 0 <= i < |es| ==> Readable(es)[i] == es[i].frame
    decreases |es|
  {
    if es != [] { AllReadable(es[1..]); }
  }

  /** One file made of the segments: each section header empties the reader's table, so nothing of
      one segment is seen in the next. */
  lemma SectionResets(t: Table, b: seq<Byte>)
    requires !t.big && Valid(b)
    ensures Read(t, b).frames == Read(NO_TABLE, b).frames && Read(t, b).end == Read(NO_TABLE, b).end
    ensures Read(t, b).end == Clean(0) ==> Read(t, b) == Read(NO_TABLE, b)
  {
    hide FromLe, FromBe, Tiled;
  }

  function Joined(segments: seq<seq<Byte>>): seq<Byte> {
    if segments == [] then [] else Joined(segments[..|segments| - 1]) + segments[|segments| - 1]
  }

  /** Joined, they yield all entries before the first that does not fit. */
  lemma {:induction false} JoinedReads(segments: seq<seq<Byte>>, groups: seq<seq<Entry>>)
    requires AllWritten(segments, groups)
    ensures Yields(Joined(segments), Flat(groups))
    ensures AllFit(Flat(groups)) ==> !Read(NO_TABLE, Joined(segments)).table.big
    decreases |segments|
  {
    hide Read, Valid, Readable, AllFit;
    if segments == [] {
      NothingRead();
    } else {
      var n := |segments| - 1;
      var front, last := segments[..n], segments[n];
      JoinedReads(front, groups[..n]);
      ReadableConcat(Flat(groups[..n]), groups[n]);
      if AllFit(Flat(groups[..n])) {
        ReadConcat(NO_TABLE, Joined(front), last);
        SectionResets(Read(NO_TABLE, Joined(front)).table, last);
      } else {
        StoppedStays(NO_TABLE, Joined(front), last);
      }
    }
  }

  lemma NothingRead()
    ensures Read(NO_TABLE, []) == Reading([], Clean(0), NO_TABLE) && Readable([]) == [] && AllFit([])
  {}

  lemma AllSegmentsWritten(r: Recorder, groups: seq<seq<Entry>>)
    requires Sound(r, groups)
    ensures AllWritten(Segments(r), groups) && r.written == |r.cur|
  {
    hide Written, Yields, Tiled, FromLe, Read;
    var n := |r.closed|;
    HoldsIsWritten(r, groups[n]);
    forall i | 0 <= i < n ensures Written(r.closed[i], groups[i]) {
      assert groups[..n][i] == groups[i];
    }
  }

  /** Segment by segment: as many frames come back as there are entries exactly when all fit. */
  lemma {:induction false} SegmentsRead(segments: seq<seq<Byte>>, groups: seq<seq<Entry>>)
    requires AllWritten(segments, groups)
    ensures |ReadSegments(segments)| <= |Flat(groups)|
    ensures |ReadSegments(segments)| == |Flat(groups)| <==> AllFit(Flat(groups))
    ensures AllFit(Flat(groups)) ==> ReadSegments(segments) == Readable(Flat(groups))
    ensures AllFit(Flat(groups)) <==> forall i :: 0 <= i < |segments| ==> Read(NO_TABLE, segments[i]).end == Clean(0)
    decreases |segments|
  {
    hide Read, Valid, Readable, AllFit;
    if segments == [] {
      NothingRead();
    } else {
      var n := |segments| - 1;
      SegmentsRead(segments[..n], groups[..n]);
      ReadableConcat(Flat(groups[..n]), groups[n]);
      ReadableSize(groups[n]);
      assert Yields(segments[n], groups[n]);
      forall i | 0 <= i < n ensures segments[..n][i] == segments[i] {}
    }
  }

  /** The groups of a run that starts with a new recorder. */
  function GroupsOf(frames: seq<Frame>, limit: nat): seq<seq<Entry>>
    requires AllWritable(frames)
  {
    Groups(Rotate([]), [[]], frames, limit)
  }

  /** Over any frames and rotations: every segment is valid and yields exactly its frames before the
      first whose block does not fit the reader, where it stops; joined into one file, the segments
      yield all frames before the first such one. The groups hold the frames recorded, in order,
      and the byte count of the current segment is exact. */
  lemma RunIsRead(frames: seq<Frame>, limit: nat)
    requires |frames| < TWO32 && AllRecordable(frames)
    ensures var r := WriteAll(Rotate([]), frames, limit); var groups := GroupsOf(frames, limit);
            && r.written == |r.cur| && AllWritten(Segments(r), groups)
            && Describe(Flat(groups), frames)
            && Yields(Joined(Segments(r)), Flat(groups))
  {
    hide *;
    StartSound();
    GroupsAre(frames, limit);
    RunKeeps(Rotate([]), [[]], frames, limit);
    NothingFlat();
    var es := Entries(Rotate([]), frames, limit);
    assert [] + es == es;
    EntriesDescribe(Rotate([]), frames, limit);
    var r := WriteAll(Rotate([]), frames, limit);
    AllSegmentsWritten(r, GroupsOf(frames, limit));
    JoinedReads(Segments(r), GroupsOf(frames, limit));
  }

  lemma GroupsAre(frames: seq<Frame>, limit: nat)
    requires AllRecordable(frames)
    ensures AllWritable(frames) && GroupsOf(frames, limit) == Groups(Rotate([]), [[]], frames, limit)
    ensures |Rotate([]).ifaces| == 0 && |Rotate([]).ifaces| + |frames| == |frames|
  {
    hide Groups, Block, SectionPayload, Recordable, Writable;
  }

  lemma NothingFlat()
    ensures Flat([[]]) == []
  {
    var one: seq<seq<Entry>> := [[]];
    assert one[..0] == [];
  }

  /** The round trip is exact: read segment by segment, all frames come back in order - times cut to
      microseconds, data unchanged, names as NameComesBackIff says - if and only if every block fits
      the reader's limit; if and only if every segment is read to its end; if and only if one file
      of all segments is, and then it yields the same frames. */
  lemma RoundTrip(frames: seq<Frame>, limit: nat)
    requires |frames| < TWO32 && AllRecordable(frames)
    ensures var segments := Segments(WriteAll(Rotate([]), frames, limit)); var file := Read(NO_TABLE, Joined(segments));
            && (SameFrames(ReadSegments(segments), frames) <==> AllFramesFit(frames))
            && ((forall i :: 0 <= i < |segments| ==> Read(NO_TABLE, segments[i]).end == Clean(0)) <==> AllFramesFit(frames))
            && (file.end == Clean(0) <==> AllFramesFit(frames))
            && (AllFramesFit(frames) ==> file.frames == ReadSegments(segments))
            && (forall i :: 0 <= i < |segments| ==> Valid(segments[i]))
  {
    hide WriteAll, Read, Valid, Joined, Segments, ReadSegments, GroupsOf, Flat, Readable, Fits, Same, Rotate, Recordable;
    RunIsRead(frames, limit);
    var segments, groups := Segments(WriteAll(Rotate([]), frames, limit)), GroupsOf(frames, limit);
    SegmentsRead(segments, groups);
    var es := Flat(groups);
    if AllFit(es) { AllReadable(es); }
    assert AllFit(es) <==> AllFramesFit(frames) by { DescribeFit(es, frames); }
  }

  lemma DescribeFit(es: seq<Entry>, frames: seq<Frame>)
    requires Describe(es, frames)
    ensures AllFit(es) <==> AllFramesFit(frames)
  {
    hide Fits, Same;
    forall i | 0 <= i < |frames| ensures es[i].fits == Fits(frames[i]) {}
  }

  lemma IntroducedExtends(r: Recorder, name: string) returns (more: seq<Byte>)
    requires OneByteChars(name)
    ensures Introduced(r, name).cur == r.cur + more && name in Introduced(r, name).ifaces
  {
    hide Block, InterfacePayload, OneByteChars;
    more := if name in r.ifaces then [] else Block(INTERFACE, InterfacePayload(name));
  }

  lemma WriteExtends(r: Recorder, g: Frame, limit: nat) returns (more: seq<Byte>)
    requires Writable(g) && r.written < limit
    ensures Write(r, g, limit).cur == r.cur + more
  {
    hide Block, InterfacePayload, PacketPayload, OneByteChars, Introduced;
    var front := IntroducedExtends(r, g.iface);
    var i := Introduced(r, g.iface);
    var packet := Block(PACKET, PacketPayload(i.ifaces[g.iface], g.ns, g.data));
    more := front + packet;
    assert r.cur + front + packet == r.cur + (front + packet);
  }

  /** A frame recorded in the same segment behind one that does not fit is not read, whatever its own
      size: at any point of a run the reader stops where it stopped before. */
  lemma LostBehindLong(r: Recorder, groups: seq<seq<Entry>>, f: Frame, g: Frame, limit: nat)
    requires Sound(r, groups) && Recordable(f) && Writable(g) && |r.ifaces| + 1 < TWO32
    requires !Fits(f) && Write(r, f, limit).written < limit
    ensures var w := Write(r, f, limit);
            && Read(NO_TABLE, w.cur).end == Failed(BadLength)
            && Read(NO_TABLE, Write(w, g, limit).cur) == Read(NO_TABLE, w.cur)
  {
    hide Read, Write, Readable, Fits, Tiled, FromLe, EntryOf, AllWritten, Written, Recordable, InStep;
    RecordableIsWritable(f);
    WriteKeeps(r, groups, f, limit);
    var w := Write(r, f, limit);
    var rotated := r.written >= limit;
    var e := EntryOf(r, f, limit);
    EntryIsSame(r, f, limit);
    var n := if rotated then |groups| else |groups| - 1;
    FiledIs(groups, e, rotated, n);
    var last := Filed(groups, e, rotated)[n];
    assert last[|last| - 1] == e;
    var more := WriteExtends(w, g, limit);
    StoppedStays(NO_TABLE, w.cur, more);
  }

  lemma RecordableIsWritable(f: Frame)
    requires Recordable(f)
    ensures Writable(f)
  {}

  // ---- Rotation ------------------------------------------------------------------------------------

  /** The octets a frame can add to a segment. */
  function SizeOf(f: Frame): nat { 28 + |f.iface| + |Padding(|f.iface|)| + 32 + |f.data| + |Padding(|f.data|)| }

  /** A segment that was closed has reached the limit, by no more than one frame. */
  predicate FullBy(segment: seq<Byte>, limit: nat, most: nat) {
    limit <= |segment| < (if limit > 28 then limit else 29) + most
  }

  ghost predicate Rotated(r: Recorder, limit: nat, most: nat) {
    && r.written == |r.cur| < (if limit > 28 then limit else 29) + most
    && forall i :: 0 <= i < |r.closed| ==> FullBy(r.closed[i], limit, most)
  }

  lemma WriteRotates(r: Recorder, f: Frame, limit: nat, most: nat)
    requires Rotated(r, limit, most) && Writable(f) && SizeOf(f) <= most
    ensures Rotated(Write(r, f, limit), limit, most)
    ensures Write(r, f, limit).closed == if r.written >= limit then r.closed + [r.cur] else r.closed
  {
    hide Block, InterfacePayload, PacketPayload;
  }

  /** Over every run segments are closed as soon as they have reached the limit and not before: each closed one
      holds at least as many octets as the limit says, and at most those of one more frame. */
  lemma {:induction false} SegmentsAreFull(r: Recorder, frames: seq<Frame>, limit: nat, most: nat)
    requires Rotated(r, limit, most) && AllWritable(frames)
    requires forall i :: 0 <= i < |frames| ==> SizeOf(frames[i]) <= most
    ensures Rotated(WriteAll(r, frames, limit), limit, most)
    decreases |frames|
  {
    hide Write, Rotated, SizeOf;
    if frames != [] {
      WriteRotates(r, frames[0], limit, most);
      SegmentsAreFull(Write(r, frames[0], limit), frames[1..], limit, most);
    }
  }

  lemma FreshIsRotated(limit: nat, most: nat)
    ensures Rotated(Rotate([]), limit, most)
  {
    hide Block, SectionPayload;
  }

  /** A recorder that starts anew closes only full segments. */
  lemma RecorderRotates(frames: seq<Frame>, limit: nat, most: nat)
    requires AllWritable(frames) && forall i :: 0 <= i < |frames| ==> SizeOf(frames[i]) <= most
    ensures var r := WriteAll(Rotate([]), frames, limit); forall i :: 0 <= i < |r.closed| ==> FullBy(r.closed[i], limit, most)
  {
    hide WriteAll, SizeOf, FullBy;
    FreshIsRotated(limit, most);
    SegmentsAreFull(Rotate([]), frames, limit, most);
  }
}
