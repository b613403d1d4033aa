/** Prefix safety of reassembly under 32-bit sequence numbers. */
module ReassemblySafety {
  import opened Bytes
  import opened Reassembly

  /** What the sender sent: `bytes[base]` carries the sequence number `isn`, the first one seen;
      the bytes before it can only turn up in old retransmissions. */
  datatype Source = Source(bytes: seq<Byte>, base: nat, isn: SeqNo)

  /** Sequence numbers are distinct inside the source. */
  predicate Sound(src: Source) {
    src.base <= |src.bytes| < SPACE
  }

  /** `data` is what the source has from position `k` on. */
  ghost predicate Matches(src: Source, k: nat, data: seq<Byte>) {
    k + |data| <= |src.bytes| && forall i | 0 <= i < |data| :: data[i] == src.bytes[k + i]
  }

  lemma MatchesParts(src: Source, k: nat, a: seq<Byte>, n: nat)
    requires Matches(src, k, a) && n <= |a|
    ensures Matches(src, k, a[..n]) && Matches(src, k + n, a[n..])
  {}

  lemma MatchesConcat(src: Source, k: nat, a: seq<Byte>, b: seq<Byte>)
    requires Matches(src, k, a) && Matches(src, k + |a|, b)
    ensures Matches(src, k, a + b)
  {}

  /** The position a sequence number stands for. */
  function Pos(src: Source, q: SeqNo): nat { Wrap(q - src.isn + src.base) }

  /** The segment agrees with the source, wherever it lies in it. */
  ghost predicate Fits(src: Source, seqNo: SeqNo, data: seq<Byte>) {
    Matches(src, Pos(src, seqNo), data)
  }

  /** The buffer holds the source's bytes from position `from` up to the next one expected, and
      what is parked is from the source. A consumer moves `from` when it takes bytes away. */
  ghost predicate Consistent(s: State, src: Source, from: nat) {
    && src.base <= from
    && Matches(src, from, s.buf)
    && |s.pending| <= MAX_PENDING
    && (!s.init ==> from == src.base && s.buf == [] && s.pending == map[])
    && (s.init ==> Pos(src, s.next) == from + |s.buf|)
    && forall q <- s.pending :: Fits(src, q, s.pending[q])
  }

  lemma {:induction false} WrapAgain(x: int, k: int)
    ensures Wrap(Wrap(x) + k) == Wrap(x + k)
  {
    WrapIsMod(x);
    WrapIsMod(Wrap(x) + k);
    WrapIsMod(x + k);
  }

  lemma AdvanceMovesPos(src: Source, q: SeqNo, k: nat)
    requires Sound(src) && Pos(src, q) + k <= |src.bytes|
    ensures Pos(src, Wrap(q + k)) == Pos(src, q) + k
  {
    WrapAgain(q + k, src.base - src.isn);
    WrapAgain(q - src.isn + src.base, k);
  }

  /** Differences of numbers are differences of positions, or one lap off. */
  lemma PosDifference(src: Source, p: SeqNo, q: SeqNo)
    ensures var d := p - q; var e := Pos(src, p) - Pos(src, q); d == e || d == e + SPACE || d == e - SPACE
    ensures Sound(src) ==> Pos(src, src.isn) == src.base
  {
    WrapIsMod(p - src.isn + src.base);
    WrapIsMod(q - src.isn + src.base);
  }

  lemma ExtendIsSafe(s: State, src: Source, from: nat, d: seq<Byte>)
    requires Sound(src) && s.init && Consistent(s, src, from) && Matches(src, from + |s.buf|, d)
    ensures Consistent(Extend(s, d), src, from)
  {
    AdvanceMovesPos(src, s.next, |d|);
  }

  lemma {:induction false} DrainIsSafe(s: State, src: Source, from: nat, max: nat)
    requires Sound(src) && s.init && Consistent(s, src, from) && |s.buf| <= max
    ensures var r := Drain(s, max);
            r.init && Consistent(r, src, from) && s.buf <= r.buf && |r.buf| <= max
    decreases |s.pending|
  {
    hide Wrap;
    if s.next in s.pending {
      assert Consistent(Unpark(s), src, from);
      if |s.buf| < max {
        var d := s.pending[s.next];
        var d' := Cut(d, max - |s.buf|);
        MatchesParts(src, from + |s.buf|, d, |d'|);
        ExtendIsSafe(Unpark(s), src, from, d');
        DrainIsSafe(Extend(Unpark(s), d'), src, from, max);
      }
    }
  }

  lemma PlaceIsSafe(s: State, src: Source, from: nat, seqNo: SeqNo, data: seq<Byte>, max: nat)
    requires Sound(src) && s.init && Consistent(s, src, from) && |s.buf| < max
    requires s.next <= seqNo && Fits(src, seqNo, data)
    ensures var r := Place(s, seqNo, data, max);
            r.init && Consistent(r, src, from) && s.buf <= r.buf && |r.buf| <= max
  {
    hide Wrap;
    if s.next == seqNo {
      var d := Cut(data, max - |s.buf|);
      MatchesParts(src, from + |s.buf|, data, |d|);
      ExtendIsSafe(s, src, from, d);
      DrainIsSafe(Extend(s, d), src, from, max);
    }
  }

  /** The part of an old segment that reaches past the next byte is the source's next bytes. */
  lemma TrimmedFits(src: Source, next: SeqNo, seqNo: SeqNo, data: seq<Byte>)
    requires Sound(src) && Pos(src, next) <= |src.bytes|
    requires seqNo < next && next - seqNo < |data| && Fits(src, seqNo, data)
    ensures Fits(src, next, data[next - seqNo..])
  {
    PosDifference(src, next, seqNo);
    MatchesParts(src, Pos(src, seqNo), data, next - seqNo);
  }

  /** One step: whatever agrees with the source - overlapping, repeated, early or wrapped around -
      only ever appends the source's next bytes, within the limit, and parks at most 64. */
  lemma ReceiveIsSafe(s: State, src: Source, from: nat, seqNo: SeqNo, data: seq<Byte>, max: nat)
    requires Sound(src) && Consistent(s, src, from) && Fits(src, seqNo, data)
    requires !s.init ==> seqNo == src.isn
    ensures var r := Receive(s, seqNo, data, max);
            && Consistent(r, src, from) && s.buf <= r.buf
            && (|s.buf| <= max ==> |r.buf| <= max)
            && (s.init || (|data| > 0 && 0 < max) ==> r.init)
  {
    hide Wrap;
    if |data| > 0 && |s.buf| < max {
      PosDifference(src, seqNo, seqNo);
      var o := Opened(s, seqNo);
      assert Consistent(o, src, from);
      if o.next <= seqNo {
        PlaceIsSafe(o, src, from, seqNo, data, max);
      } else if o.next - seqNo < |data| {
        TrimmedFits(src, o.next, seqNo, data);
        PlaceIsSafe(o, src, from, o.next, data[o.next - seqNo..], max);
      }
    }
  }

  // ---- Runs -------------------------------------------------------------------------------

  /** A segment arrives, or the consumer above takes bytes off the front of the buffer. */
  datatype Event = Segment(seqNo: SeqNo, data: seq<Byte>) | Consume(n: nat)

  function Step(s: State, e: Event, max: nat): State {
    match e
    case Segment(q, data) => Receive(s, q, data, max)
    case Consume(n) => if n <= |s.buf| then s.(buf := s.buf[n..]) else s
  }

  function Run(s: State, es: seq<Event>, max: nat): State
    decreases |es|
  {
    if es == [] then s else Run(Step(s, es[0], max), es[1..], max)
  }

  function Consumed(s: State, es: seq<Event>, max: nat): nat
    decreases |es|
  {
    if es == [] then 0
    else
      (if es[0].Consume? && es[0].n <= |s.buf| then es[0].n else 0) + Consumed(Step(s, es[0], max), es[1..], max)
  }

  lemma ConsumeIsSafe(s: State, src: Source, from: nat, n: nat)
    requires Consistent(s, src, from) && n <= |s.buf|
    ensures Consistent(s.(buf := s.buf[n..]), src, from + n)
  {
    MatchesParts(src, from, s.buf, n);
  }

  lemma {:induction false} RunIsSafe(s: State, src: Source, from: nat, es: seq<Event>, max: nat)
    requires Sound(src) && Consistent(s, src, from) && |s.buf| <= max
    requires forall e <- es :: e.Segment? ==> Fits(src, e.seqNo, e.data)
    requires s.init || (es != [] && es[0].Segment? && es[0].seqNo == src.isn && |es[0].data| > 0 && 0 < max)
    ensures Consistent(Run(s, es, max), src, from + Consumed(s, es, max)) && |Run(s, es, max).buf| <= max
    decreases |es|
  {
    hide Receive, Consistent, Fits;
    if es != [] {
      var e := es[0];
      var s' := Step(s, e, max);
      if e.Segment? {
        ReceiveIsSafe(s, src, from, e.seqNo, e.data, max);
        RunIsSafe(s', src, from, es[1..], max);
      } else if e.n <= |s.buf| {
        ConsumeIsSafe(s, src, from, e.n);
        RunIsSafe(s', src, from + e.n, es[1..], max);
      } else {
        RunIsSafe(s', src, from, es[1..], max);
      }
    }
  }

  /** Safety of whole runs: if every segment agrees with one source of under 2^32 bytes (a flow
      of under 2^31 bytes leaves as much for old retransmissions), the bytes taken so far and
      the bytes in the buffer are the source's, in order, from the first sequence number on; the
      buffer stays within its limit and at most 64 segments are parked. */
  lemma ReassemblyIsSafe(src: Source, es: seq<Event>, max: nat)
    requires Sound(src) && 0 < max
    requires es != [] && es[0].Segment? && es[0].seqNo == src.isn && |es[0].data| > 0
    requires forall e <- es :: e.Segment? ==> Fits(src, e.seqNo, e.data)
    ensures var r := Run(FRESH, es, max);
            var from := src.base + Consumed(FRESH, es, max);
            && from + |r.buf| <= |src.bytes| && r.buf == src.bytes[from..from + |r.buf|]
            && |r.buf| <= max && |r.pending| <= 64
  {
    hide Receive, Fits, Pos;
    RunIsSafe(FRESH, src, src.base, es, max);
  }

  /** A segment that arrives ahead of the stream is kept if and only if there is a free place
      and its number has not wrapped past the stream's: wrapped ones count as old and are lost. */
  lemma AheadIsKeptIff(s: State, src: Source, from: nat, seqNo: SeqNo, data: seq<Byte>, max: nat)
    requires Sound(src) && s.init && Consistent(s, src, from) && |s.buf| < max && |data| > 0
    requires Fits(src, seqNo, data) && from + |s.buf| < Pos(src, seqNo)
    requires seqNo !in s.pending
    ensures var r := Receive(s, seqNo, data, max);
            && r.buf == s.buf
            && (seqNo in r.pending <==> s.next < seqNo && |s.pending| < 64)
  {
    PosDifference(src, seqNo, s.next);
  }
}
