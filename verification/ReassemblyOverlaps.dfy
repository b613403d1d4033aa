/** What becomes of segments that overlap bytes already there: in runs without gaps nothing is lost,
    behind a gap a parked segment can be overtaken and is stranded. */
module ReassemblyOverlaps {
  import opened Bytes
  import opened Reassembly
  import opened ReassemblySafety

  function Min(a: nat, b: nat): nat { if a < b then a else b }

  function Max(a: nat, b: nat): nat { if a < b then b else a }

  /** The bytes a segment adds: what it has past the next byte, as far as there is room. */
  function Added(s: State, seqNo: SeqNo, data: seq<Byte>, max: nat): seq<Byte>
    requires seqNo <= s.next <= seqNo + |data| && |s.buf| <= max
  {
    Cut(data[s.next - seqNo..], max - |s.buf|)
  }

  lemma ReachingIsAdded(s: State, seqNo: SeqNo, data: seq<Byte>, max: nat)
    requires s.init && |s.buf| < max && seqNo <= s.next < seqNo + |data|
    ensures Receive(s, seqNo, data, max) == Drain(Extend(s, Added(s, seqNo, data, max)), max)
  {
    hide Wrap, Drain, Park, Extend, Cut;
    assert data[0..] == data;
  }

  lemma EndIsInside(s: State, src: Source, from: nat)
    requires s.init && Consistent(s, src, from)
    ensures Pos(src, s.next) == from + |s.buf| <= |src.bytes|
  {
    hide Pos;
  }

  lemma AddedIsFront(s: State, seqNo: SeqNo, data: seq<Byte>, max: nat)
    requires seqNo <= s.next <= seqNo + |data| && |s.buf| <= max
    ensures var d, tail := Added(s, seqNo, data, max), data[s.next - seqNo..]; |d| <= |tail| && d == tail[..|d|]
  {}

  /** What a reaching segment has past the next byte lies where the buffer ends. */
  lemma TailIsSource(s: State, src: Source, from: nat, seqNo: SeqNo, data: seq<Byte>)
    requires Sound(src) && s.init && Consistent(s, src, from) && Fits(src, seqNo, data)
    requires seqNo <= s.next < seqNo + |data|
    ensures Matches(src, from + |s.buf|, data[s.next - seqNo..])
  {
    hide Wrap, Pos, Matches;
    EndIsInside(s, src, from);
    if seqNo < s.next { TrimmedFits(src, s.next, seqNo, data); } else { assert data[0..] == data; }
  }

  lemma AddedIsSource(s: State, src: Source, from: nat, seqNo: SeqNo, data: seq<Byte>, max: nat)
    requires Sound(src) && s.init && Consistent(s, src, from) && Fits(src, seqNo, data)
    requires seqNo <= s.next < seqNo + |data| && |s.buf| <= max
    ensures var d := Added(s, seqNo, data, max);
            Matches(src, from + |s.buf|, d) && Consistent(Extend(s, d), src, from)
  {
    hide *;
    var d := Added(s, seqNo, data, max);
    AddedIsFront(s, seqNo, data, max);
    TailIsSource(s, src, from, seqNo, data);
    MatchesParts(src, from + |s.buf|, data[s.next - seqNo..], |d|);
    ExtendIsSafe(s, src, from, d);
  }

  /** A segment that starts at or before the next byte and reaches past it is kept - everything it
      has beyond that byte, as far as the limit allows - if and only if its number has not wrapped
      past the stream's. */
  lemma ReachingIsKeptIff(s: State, src: Source, from: nat, seqNo: SeqNo, data: seq<Byte>, max: nat)
    requires Sound(src) && s.init && Consistent(s, src, from) && |s.buf| < max && Fits(src, seqNo, data)
    requires Pos(src, seqNo) <= from + |s.buf| < Pos(src, seqNo) + |data|
    ensures var r := Receive(s, seqNo, data, max);
            && (seqNo <= s.next ==> |r.buf| >= Min(max, Pos(src, seqNo) + |data| - from))
            && (seqNo > s.next ==> r.buf == s.buf)
  {
    hide Wrap, Drain, Pos, Matches;
    PosDifference(src, s.next, seqNo);
    if seqNo <= s.next {
      hide Receive;
      ReachingIsAdded(s, seqNo, data, max);
      AddedIsSource(s, src, from, seqNo, data, max);
      DrainIsSafe(Extend(s, Added(s, seqNo, data, max)), src, from, max);
    } else {
      ParkKeepsBuf(s, seqNo, data);
    }
  }

  lemma ParkKeepsBuf(s: State, seqNo: SeqNo, data: seq<Byte>)
    ensures Park(s, seqNo, data).buf == s.buf && Park(s, seqNo, data).next == s.next
  {}

  // ---- Runs without gaps ---------------------------------------------------------------------------

  datatype Part = Part(seqNo: SeqNo, data: seq<Byte>)

  /** How far the parts reach, behind what reaches to `end` already. */
  function Reach(src: Source, end: nat, parts: seq<Part>): (r: nat)
    ensures end <= r
    decreases |parts|
  {
    if parts == [] then end
    else Reach(src, Max(end, Pos(src, parts[0].seqNo) + |parts[0].data|), parts[1..])
  }

  /** Each part starts no later than the ones before it reach; it may start anywhere before that. */
  predicate Gapless(src: Source, end: nat, parts: seq<Part>)
    decreases |parts|
  {
    parts != [] ==>
      && Pos(src, parts[0].seqNo) <= end
      && Gapless(src, Max(end, Pos(src, parts[0].seqNo) + |parts[0].data|), parts[1..])
  }

  function Arrive(s: State, parts: seq<Part>, max: nat): State
    decreases |parts|
  {
    if parts == [] then s else Arrive(Receive(s, parts[0].seqNo, parts[0].data, max), parts[1..], max)
  }

  ghost predicate AllFit(src: Source, parts: seq<Part>) {
    forall i :: 0 <= i < |parts| ==> Fits(src, parts[i].seqNo, parts[i].data)
  }

  /** The numbers of the source do not wrap. */
  predicate OneLap(src: Source) {
    src.base <= src.isn && src.isn - src.base + |src.bytes| < SPACE
  }

  lemma Unwrapped(src: Source, q: SeqNo)
    requires Sound(src) && OneLap(src) && Pos(src, q) <= |src.bytes|
    ensures q == src.isn - src.base + Pos(src, q)
  {
    WrapIsMod(q - src.isn + src.base);
  }

  /** The buffer holds what has arrived up to `end`, as far as it has room, and nothing is parked. */
  ghost predicate FilledTo(s: State, src: Source, end: nat, max: nat) {
    && Consistent(s, src, src.base) && s.init && s.pending == map[]
    && src.base <= end && |s.buf| == Min(max, end - src.base)
  }

  lemma NothingParked(s: State, max: nat)
    requires s.pending == map[]
    ensures Drain(s, max) == s
  {}

  /** One part of a gapless run. */
  lemma PartFills(s: State, src: Source, end: nat, p: Part, max: nat)
    requires Sound(src) && OneLap(src) && FilledTo(s, src, end, max)
    requires Fits(src, p.seqNo, p.data) && Pos(src, p.seqNo) <= end
    ensures FilledTo(Receive(s, p.seqNo, p.data, max), src, Max(end, Pos(src, p.seqNo) + |p.data|), max)
  {
    hide Wrap, Drain, Pos, Park;
    if |p.data| > 0 && |s.buf| < max {
      ReceiveIsSafe(s, src, src.base, p.seqNo, p.data, max);
      Unwrapped(src, p.seqNo);
      Unwrapped(src, s.next);
      var overlap := s.next - p.seqNo;
      if overlap < |p.data| {
        assert p.data[0..] == p.data;
        NothingParked(Extend(s, Cut(p.data[overlap..], max - |s.buf|)), max);
      }
    }
  }

  lemma {:induction false} RunFills(s: State, src: Source, end: nat, parts: seq<Part>, max: nat)
    requires Sound(src) && OneLap(src) && FilledTo(s, src, end, max)
    requires AllFit(src, parts) && Gapless(src, end, parts)
    ensures FilledTo(Arrive(s, parts, max), src, Reach(src, end, parts), max)
    decreases |parts|
  {
    hide Receive, FilledTo, Fits, Pos;
    if parts != [] {
      var p := parts[0];
      PartFills(s, src, end, p, max);
      RunFills(Receive(s, p.seqNo, p.data, max), src, Max(end, Pos(src, p.seqNo) + |p.data|), parts[1..], max);
    }
  }

  lemma {:induction false} ReachIsInside(src: Source, end: nat, parts: seq<Part>)
    requires AllFit(src, parts) && end <= |src.bytes|
    ensures end <= Reach(src, end, parts) <= |src.bytes|
    decreases |parts|
  {
    hide Pos;
    if parts != [] { ReachIsInside(src, Max(end, Pos(src, parts[0].seqNo) + |parts[0].data|), parts[1..]); }
  }

  /** Completeness with overlaps: when the numbers do not wrap and each segment starts no later than
      the ones before it reach - retransmissions cut differently, coalesced, repeated, or reaching
      back before the first number seen - the buffer holds every byte up to where they reach. */
  lemma GaplessRunsComplete(src: Source, parts: seq<Part>, max: nat)
    requires Sound(src) && OneLap(src) && 0 < max && AllFit(src, parts)
    requires parts != [] && parts[0].seqNo == src.isn && |parts[0].data| > 0
    requires Gapless(src, src.base, parts)
    ensures var n := Min(max, Reach(src, src.base, parts) - src.base);
            src.base + n <= |src.bytes| && Arrive(FRESH, parts, max).buf == src.bytes[src.base..src.base + n]
  {
    hide Receive, Fits, Pos, Reach, Gapless, Arrive, Consistent;
    var p := parts[0];
    ReachIsInside(src, src.base, parts);
    OpeningIsFilled(src);
    ReceiveOpens(src, p, max);
    RunFills(Opened(FRESH, src.isn), src, src.base, parts, max);
    ArriveOpens(src, parts, max);
    FilledIsSlice(Arrive(FRESH, parts, max), src, Reach(src, src.base, parts), max);
  }

  lemma OpeningIsFilled(src: Source)
    requires Sound(src)
    ensures forall max: nat :: FilledTo(Opened(FRESH, src.isn), src, src.base, max)
  {
    hide Wrap;
    PosDifference(src, src.isn, src.isn);
  }

  lemma ReceiveOpens(src: Source, p: Part, max: nat)
    requires p.seqNo == src.isn && |p.data| > 0 && 0 < max
    ensures Receive(FRESH, p.seqNo, p.data, max) == Receive(Opened(FRESH, src.isn), p.seqNo, p.data, max)
  {
    hide Place;
  }

  lemma ArriveOpens(src: Source, parts: seq<Part>, max: nat)
    requires parts != [] && parts[0].seqNo == src.isn && |parts[0].data| > 0 && 0 < max
    ensures Arrive(FRESH, parts, max) == Arrive(Opened(FRESH, src.isn), parts, max)
  {
    hide Receive;
    ReceiveOpens(src, parts[0], max);
  }

  lemma FilledIsSlice(s: State, src: Source, end: nat, max: nat)
    requires FilledTo(s, src, end, max) && end <= |src.bytes|
    ensures s.buf == src.bytes[src.base..src.base + Min(max, end - src.base)]
  {
    hide Pos;
  }

  // ---- Overtaken segments --------------------------------------------------------------------------

  /** A parked segment whose number the stream has passed is never looked at again: it keeps its
      place, and what it has past the next byte is not used. */
  lemma OvertakenStays(s: State, src: Source, from: nat, seqNo: SeqNo, data: seq<Byte>, max: nat, q: SeqNo)
    requires Sound(src) && OneLap(src) && s.init && Consistent(s, src, from) && Fits(src, seqNo, data)
    requires q in s.pending && q < s.next
    ensures var r := Receive(s, seqNo, data, max);
            q in r.pending && r.pending[q] == s.pending[q] && q < r.next
  {
    hide Wrap, Drain, Pos, Matches, Cut;
    if |data| > 0 && |s.buf| < max && seqNo <= s.next < seqNo + |data| {
      hide Receive;
      ReachingIsAdded(s, seqNo, data, max);
      AddedIsSource(s, src, from, seqNo, data, max);
      var d := Added(s, seqNo, data, max);
      ExtendAdvances(s, src, from, d);
      DrainKeepsOvertaken(Extend(s, d), src, from, max, q);
    }
  }

  lemma ExtendAdvances(s: State, src: Source, from: nat, d: seq<Byte>)
    requires Sound(src) && OneLap(src) && s.init && Consistent(s, src, from) && Matches(src, from + |s.buf|, d)
    ensures Extend(s, d).next == s.next + |d|
  {
    hide Wrap;
    ExtendIsSafe(s, src, from, d);
    Unwrapped(src, s.next);
    Unwrapped(src, Extend(s, d).next);
  }

  lemma {:induction false} DrainKeepsOvertaken(s: State, src: Source, from: nat, max: nat, q: SeqNo)
    requires Sound(src) && OneLap(src) && s.init && Consistent(s, src, from)
    requires q in s.pending && q < s.next
    ensures var r := Drain(s, max); q in r.pending && r.pending[q] == s.pending[q] && q < r.next
    decreases |s.pending|
  {
    hide Wrap, Pos;
    if s.next in s.pending && |s.buf| < max {
      var d := s.pending[s.next];
      var d' := Cut(d, max - |s.buf|);
      MatchesParts(src, from + |s.buf|, d, |d'|);
      assert Consistent(Unpark(s), src, from);
      ExtendIsSafe(Unpark(s), src, from, d');
      ExtendAdvances(Unpark(s), src, from, d');
      DrainKeepsOvertaken(Extend(Unpark(s), d'), src, from, max, q);
    }
  }

  lemma {:induction false} DrainLeavesNoneDue(s: State, max: nat)
    ensures Drain(s, max).next !in Drain(s, max).pending
    decreases |s.pending|
  {
    hide Wrap;
    if s.next in s.pending && |s.buf| < max {
      DrainLeavesNoneDue(Extend(Unpark(s), Cut(s.pending[s.next], max - |s.buf|)), max);
    }
  }

  /** A segment that is due is never left parked, not even when there is no room for it any more. */
  lemma NoneDueIsParked(s: State, seqNo: SeqNo, data: seq<Byte>, max: nat)
    requires s.next !in s.pending
    ensures var r := Receive(s, seqNo, data, max); r.next !in r.pending
  {
    hide Receive, Drain, Added, Extend;
    if |data| > 0 && |s.buf| < max {
      var o := Opened(s, seqNo);
      OpenedFirst(s, seqNo, data, max);
      if seqNo <= o.next < seqNo + |data| {
        ReachingIsAdded(o, seqNo, data, max);
        DrainLeavesNoneDue(Extend(o, Added(o, seqNo, data, max)), max);
      } else {
        OtherwiseParked(o, seqNo, data, max);
      }
    } else {
      IgnoredStays(s, seqNo, data, max);
    }
  }

  lemma OpenedFirst(s: State, seqNo: SeqNo, data: seq<Byte>, max: nat)
    ensures |data| > 0 && |s.buf| < max ==> Receive(s, seqNo, data, max) == Receive(Opened(s, seqNo), seqNo, data, max)
  {
    hide Place;
  }

  lemma OtherwiseParked(s: State, seqNo: SeqNo, data: seq<Byte>, max: nat)
    requires s.init && |data| > 0 && |s.buf| < max && !(seqNo <= s.next < seqNo + |data|)
    ensures var r := Receive(s, seqNo, data, max); r.next == s.next && (s.next in r.pending <==> s.next in s.pending)
  {
    hide Drain;
  }

  lemma IgnoredStays(s: State, seqNo: SeqNo, data: seq<Byte>, max: nat)
    requires |data| == 0 || |s.buf| >= max
    ensures Receive(s, seqNo, data, max) == s
  {
    hide Place;
  }

  lemma OvertakenFits(src: Source)
    requires src == Source([65, 66, 67, 68], 0, 100)
    ensures AllFit(src, [Part(100, [65]), Part(102, [67, 68]), Part(101, [66, 67])])
  {}

  /** So a run with a gap can end short of what has arrived: a segment is parked, a longer one closes
      the gap and reaches into it, and the parked bytes beyond are not used. */
  lemma OvertakenIsLost(src: Source, max: nat)
    requires src == Source([65, 66, 67, 68], 0, 100) && max >= 4
    ensures var parts := [Part(100, [65]), Part(102, [67, 68]), Part(101, [66, 67])];
            && Sound(src) && OneLap(src) && AllFit(src, parts)
            && Arrive(FRESH, parts, max).buf == [65, 66, 67] && 102 in Arrive(FRESH, parts, max).pending
  {
    hide Fits, Pos;
    OvertakenFits(src);
    var parts := [Part(100, [65]), Part(102, [67, 68]), Part(101, [66, 67])];
    var s1 := Receive(FRESH, 100, [65], max);
    assert s1 == State(true, 101, [65], map[]);
    var s2 := Receive(s1, 102, [67, 68], max);
    assert s2 == State(true, 101, [65], map[102 := [67, 68]]);
    var s3 := Receive(s2, 101, [66, 67], max);
    assert s3 == State(true, 103, [65, 66, 67], map[102 := [67, 68]]);
    assert parts[1..] == [Part(102, [67, 68]), Part(101, [66, 67])];
    assert parts[1..][1..] == [Part(101, [66, 67])];
    assert parts[1..][1..][1..] == [];
  }
}
