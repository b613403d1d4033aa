/** The recorder and the reader as the program runs them: objects and loops over their fields. */
module PcapngFiles {
  import opened Bytes
  import opened Text
  import opened PcapngFormat
  import opened PcapngReader
  import opened PcapngRoundTrip

  class SegmentWriter {
    const limit: nat
    var closed: seq<seq<Byte>>
    var cur: seq<Byte>
    var written: nat
    var ifaces: map<string, nat>

    ghost function Abs(): Recorder
      reads this
    {
      Recorder(closed, cur, written, ifaces)
    }

    constructor (limit: nat)
      ensures this.limit == limit && Abs() == Rotate([])
    {
      this.limit := limit;
      closed := [];
      new;
      StartSegment();
    }

    /** Writes the section header of a new segment and forgets the interfaces. */
    method StartSegment()
      modifies this
      ensures Abs() == Rotate(old(closed))
    {
      written := 0;
      ifaces := map[];
      cur := WriteSection();
      written := 28;
    }

    method WriteFrame(f: Frame)
      requires Writable(f)
      modifies this
      ensures Abs() == Write(old(Abs()), f, limit)
    {
      hide Block, InterfacePayload, PacketPayload;
      if written >= limit {
        closed := closed + [cur];
        StartSegment();
      }
      if f.iface !in ifaces {
        ifaces := ifaces[f.iface := |ifaces|];
        var b := WriteInterface(f.iface);
        cur := cur + b;
        written := written + InterfaceSize(f.iface);
      }
      var b := WritePacket(ifaces[f.iface], f.ns, f.data);
      cur := cur + b;
      written := written + |b|;
    }
  }

  // ---- Reading ----------------------------------------------------------------------------------

  /** What the reader counts about the frames it hands on. */
  datatype Stats = Stats(frames: nat, bytes: nat, first: Option<int>, last: Option<int>)

  function Note(st: Stats, f: Frame): Stats {
    Stats(st.frames + 1, st.bytes + |f.data|,
          Some(if st.first.None? || f.ns < st.first.value then f.ns else st.first.value),
          Some(if st.last.None? || f.ns > st.last.value then f.ns else st.last.value))
  }

  function NoteAll(frames: seq<Frame>): Stats {
    if frames == [] then Stats(0, 0, None, None)
    else Note(NoteAll(frames[..|frames| - 1]), frames[|frames| - 1])
  }

  function DataSize(frames: seq<Frame>): nat {
    if frames == [] then 0 else DataSize(frames[..|frames| - 1]) + |frames[|frames| - 1].data|
  }

  /** Counts are exact, and the two times are the earliest and the latest, both reached. */
  lemma {:induction false} StatsAreExact(frames: seq<Frame>)
    ensures var st := NoteAll(frames);
            && st.frames == |frames| && st.bytes == DataSize(frames)
            && (frames == [] ==> st.first == None && st.last == None)
            && (frames != [] ==> st.first.Some? && st.last.Some?)
            && (forall f <- frames :: st.first.value <= f.ns <= st.last.value)
            && (frames != [] ==> (exists f <- frames :: f.ns == st.first.value) && exists f <- frames :: f.ns == st.last.value)
    decreases |frames|
  {
    if frames != [] {
      var front, last := frames[..|frames| - 1], frames[|frames| - 1];
      StatsAreExact(front);
      var st, st' := NoteAll(front), NoteAll(frames);
      assert frames == front + [last];
      assert last in frames;
      assert st'.first.value == last.ns || (st.first.Some? && st'.first == st.first);
      assert st'.last.value == last.ns || (st.last.Some? && st'.last == st.last);
    }
  }

  method StreamPcapng(b: seq<Byte>) returns (r: Reading, st: Stats)
    ensures r == Read(NO_TABLE, b) && st == NoteAll(r.frames)
  {
    hide FrontBlock, Apply, NoteAll, Read;
    var t := NO_TABLE;
    var frames: seq<Frame> := [];
    var pos := 0;
    st := Stats(0, 0, None, None);
    assert b[0..] == b && NoteAll([]) == st by { NoteNothing(); }
    AfterNothing(Read(NO_TABLE, b));
    while true
      invariant 0 <= pos <= |b| && st == NoteAll(frames)
      invariant Read(NO_TABLE, b) == After(frames, Read(t, b[pos..]))
      decreases |b| - pos
    {
      var rest := b[pos..];
      ReadStep(t, rest, frames);
      var f := FrontBlock(t.big, rest);
      match f
      case NoBlock =>
        return Reading(frames, Clean(|rest|), t), st;
      case Broken(e) =>
        return Reading(frames, Failed(e), t), st;
      case Whole(kind, p, size) =>
        var a := Apply(t, kind, p);
        if a.Refused? {
          return Reading(frames, Failed(a.error), t), st;
        }
        st := NoteEach(frames, st, a.frames);
        frames := frames + a.frames;
        t := a.table;
        assert rest[size..] == b[pos + size..];
        pos := pos + size;
    }
  }

  method NoteEach(ghost before: seq<Frame>, st: Stats, frames: seq<Frame>) returns (st': Stats)
    requires st == NoteAll(before)
    ensures st' == NoteAll(before + frames)
  {
    hide Note;
    st' := st;
    assert before + [] == before;
    for i := 0 to |frames|
      invariant st' == NoteAll(before + frames[..i])
    {
      st' := Note(st', frames[i]);
      var all := before + frames[..i + 1];
      assert all[..|all| - 1] == before + frames[..i];
    }
    assert frames[..|frames|] == frames;
  }

  lemma NoteNothing()
    ensures NoteAll([]) == Stats(0, 0, None, None)
  {}

  lemma AfterNothing(r: Reading)
    ensures After([], r) == r
  {
    assert [] + r.frames == r.frames;
  }

  lemma ReadStep(t: Table, b: seq<Byte>, before: seq<Frame>)
    ensures var f := FrontBlock(t.big, b); var r := After(before, Read(t, b));
            && (f.NoBlock? ==> r == Reading(before, Clean(|b|), t))
            && (f.Broken? ==> r == Reading(before, Failed(f.error), t))
            && (f.Whole? ==>
                  var a := Apply(t, f.kind, f.payload);
                  && (a.Refused? ==> r == Reading(before, Failed(a.error), t))
                  && (a.Accepted? ==> r == After(before + a.frames, Read(a.table, b[f.size..]))))
  {
    hide FrontBlock, Apply;
    assert before + [] == before;
    var f := FrontBlock(t.big, b);
    if f.Whole? {
      var a := Apply(t, f.kind, f.payload);
      if a.Accepted? {
        var r := Read(a.table, b[f.size..]);
        assert before + (a.frames + r.frames) == before + a.frames + r.frames;
      }
    }
  }
}
