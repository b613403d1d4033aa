/** DNS over TCP: messages behind two-octet lengths (section 4.2.2 of RFC 1035), cut out of the
    reassembled stream as it grows. */
module DnsFraming {
  import opened Bytes
  import opened Reassembly
  import opened ReassemblySafety

  /** The size of the frame that `b` starts with, length field included. */
  function FrameSize(b: seq<Byte>): (n: nat)
    requires |b| >= 2
    ensures 2 <= n < 2 + 0x1_0000
  {
    2 + Word(b[0], b[1])
  }

  lemma FrameSizeIs(b: seq<Byte>)
    requires |b| >= 2
    ensures FrameSize(b) == 2 + Word(b[0], b[1])
  {}

  /** No complete frame yet. */
  predicate Incomplete(b: seq<Byte>) {
    |b| < 2 || |b| < FrameSize(b)
  }

  /** The message bodies of the complete frames at the front of `b`. */
  function Frames(b: seq<Byte>): seq<seq<Byte>> {
    if Incomplete(b) then [] else [b[2..FrameSize(b)]] + Frames(b[FrameSize(b)..])
  }

  /** What is left behind them. */
  function Rest(b: seq<Byte>): (r: seq<Byte>)
    ensures Incomplete(r) && |r| <= |b|
  {
    if Incomplete(b) then b else Rest(b[FrameSize(b)..])
  }

  lemma {:induction false} RestIsSuffix(b: seq<Byte>)
    ensures Rest(b) == b[|b| - |Rest(b)|..]
    decreases |b|
  {
    hide FrameSize;
    if !Incomplete(b) { RestIsSuffix(b[FrameSize(b)..]); }
  }

  // ---- The frames are the ones a sender wrote -----------------------------------------------

  /** How a sender frames a message. */
  function Encode(body: seq<Byte>): seq<Byte>
    requires |body| < 0x1_0000
  {
    [|body| / 256, |body| % 256] + body
  }

  ghost predicate Encodable(bodies: seq<seq<Byte>>) {
    forall m <- bodies :: |m| < 0x1_0000
  }

  function EncodeAll(bodies: seq<seq<Byte>>): seq<Byte>
    requires Encodable(bodies)
  {
    if bodies == [] then [] else Encode(bodies[0]) + EncodeAll(bodies[1..])
  }

  lemma FrameOfEncode(body: seq<Byte>, more: seq<Byte>)
    requires |body| < 0x1_0000
    ensures var b := Encode(body) + more;
            !Incomplete(b) && b[2..FrameSize(b)] == body && b[FrameSize(b)..] == more
  {
    var b := Encode(body) + more;
    WordParts(|body|);
    assert b[0] == |body| / 256 && b[1] == |body| % 256;
    assert FrameSize(b) == |Encode(body)|;
  }

  lemma {:induction false} FramesOfEncodeAll(bodies: seq<seq<Byte>>, r: seq<Byte>)
    requires Encodable(bodies) && Incomplete(r)
    ensures Frames(EncodeAll(bodies) + r) == bodies && Rest(EncodeAll(bodies) + r) == r
    decreases |bodies|
  {
    hide Encode, FrameSize;
    if bodies == [] {
      assert [] + r == r;
    } else {
      var more := EncodeAll(bodies[1..]) + r;
      assert EncodeAll(bodies) + r == Encode(bodies[0]) + more;
      FrameOfEncode(bodies[0], more);
      FramesOfEncodeAll(bodies[1..], r);
    }
  }

  lemma EncodeOfFrame(b: seq<Byte>)
    requires !Incomplete(b)
    ensures |b[2..FrameSize(b)]| < 0x1_0000 && Encode(b[2..FrameSize(b)]) == b[..FrameSize(b)]
  {
    PartsOfWord(b[0], b[1]);
  }

  lemma FramesStep(b: seq<Byte>)
    ensures Incomplete(b) ==> Frames(b) == [] && Rest(b) == b
    ensures !Incomplete(b) ==> Frames(b) == [b[2..FrameSize(b)]] + Frames(b[FrameSize(b)..])
                               && Rest(b) == Rest(b[FrameSize(b)..])
  {}

  lemma NothingToEncode()
    ensures EncodeAll([]) == []
  {}

  lemma {:induction false} EncodeAllOfFrames(b: seq<Byte>)
    ensures Encodable(Frames(b)) && EncodeAll(Frames(b)) + Rest(b) == b
    decreases |b|
  {
    hide Encode, FrameSize, EncodeAll, Frames, Rest;
    FramesStep(b);
    if Incomplete(b) {
      NothingToEncode();
      assert [] + b == b;
    } else {
      var n := FrameSize(b);
      EncodeAllOfFrames(b[n..]);
      EncodeOfFrame(b);
      EncodeAllCons(b[2..n], Frames(b[n..]));
      var tail := EncodeAll(Frames(b[n..]));
      assert (b[..n] + tail) + Rest(b[n..]) == b[..n] + (tail + Rest(b[n..])) == b;
    }
  }

  lemma EncodeAllCons(m: seq<Byte>, bodies: seq<seq<Byte>>)
    requires |m| < 0x1_0000 && Encodable(bodies)
    ensures Encodable([m] + bodies) && EncodeAll([m] + bodies) == Encode(m) + EncodeAll(bodies)
  {
    hide Encode;
    assert ([m] + bodies)[1..] == bodies;
  }

  /** The frames of a stream are the only messages whose encodings, followed by less than one
      frame, spell that stream. */
  lemma FramesAreExact(b: seq<Byte>, bodies: seq<seq<Byte>>, r: seq<Byte>)
    requires Encodable(bodies) && Incomplete(r)
    ensures EncodeAll(bodies) + r == b <==> bodies == Frames(b) && r == Rest(b)
  {
    if EncodeAll(bodies) + r == b {
      FramesOfEncodeAll(bodies, r);
    }
    EncodeAllOfFrames(b);
  }

  // ---- Cutting as the stream grows ------------------------------------------------------------

  lemma SameFrameSize(a: seq<Byte>, b: seq<Byte>)
    requires |a| >= 2
    ensures FrameSize(a + b) == FrameSize(a)
  {}

  lemma {:induction false} FramesOfConcat(a: seq<Byte>, b: seq<Byte>)
    ensures Frames(a + b) == Frames(a) + Frames(Rest(a) + b)
    ensures Rest(a + b) == Rest(Rest(a) + b)
    decreases |a|
  {
    hide FrameSize;
    if Incomplete(a) {
      assert [] + Frames(a + b) == Frames(a + b);
    } else {
      var n := FrameSize(a);
      SameFrameSize(a, b);
      assert (a + b)[n..] == a[n..] + b && (a + b)[2..n] == a[2..n];
      FramesOfConcat(a[n..], b);
    }
  }

  /** One direction of a DNS connection: its stream, all bytes ever appended to the stream's
      buffer, and all message bodies handed to the DNS parser. */
  datatype Feed = Feed(stream: State, delivered: seq<Byte>, handed: seq<seq<Byte>>)

  const NEW_FEED := Feed(FRESH, [], [])

  /** One segment: reassembly, then every frame that has become complete. */
  function Observe(f: Feed, seqNo: SeqNo, data: seq<Byte>, max: nat): Feed {
    var s := Receive(f.stream, seqNo, data, max);
    Feed(s.(buf := Rest(s.buf)),
         f.delivered + (if |f.stream.buf| <= |s.buf| then s.buf[|f.stream.buf|..] else []),
         f.handed + Frames(s.buf))
  }

  datatype Segment = Segment(seqNo: SeqNo, data: seq<Byte>)

  function Feeding(f: Feed, segs: seq<Segment>, max: nat): Feed
    decreases |segs|
  {
    if segs == [] then f else Feeding(Observe(f, segs[0].seqNo, segs[0].data, max), segs[1..], max)
  }

  lemma {:induction false} DrainExtends(s: State, max: nat)
    ensures s.buf <= Drain(s, max).buf
    decreases |s.pending|
  {
    hide Wrap;
    if s.next in s.pending && |s.buf| < max {
      DrainExtends(Extend(Unpark(s), Cut(s.pending[s.next], max - |s.buf|)), max);
    }
  }

  lemma ReceiveExtends(s: State, seqNo: SeqNo, data: seq<Byte>, max: nat)
    ensures s.buf <= Receive(s, seqNo, data, max).buf
  {
    hide Wrap, Drain;
    if |data| > 0 && |s.buf| < max {
      var o := Opened(s, seqNo);
      var data' := if o.next > seqNo && o.next - seqNo < |data| then data[o.next - seqNo..] else data;
      DrainExtends(Extend(o, Cut(data', max - |o.buf|)), max);
    }
  }

  ghost predicate InStep(f: Feed) {
    f.handed == Frames(f.delivered) && f.stream.buf == Rest(f.delivered)
  }

  lemma ObserveKeepsStep(f: Feed, seqNo: SeqNo, data: seq<Byte>, max: nat)
    requires InStep(f)
    ensures InStep(Observe(f, seqNo, data, max))
  {
    hide Receive, Frames, Rest;
    var s := Receive(f.stream, seqNo, data, max);
    ReceiveExtends(f.stream, seqNo, data, max);
    var more := s.buf[|f.stream.buf|..];
    assert f.stream.buf + more == s.buf;
    FramesOfConcat(f.delivered, more);
  }

  /** Framing a stream as it arrives is framing all of it at once: over any run of segments the
      bodies handed on are exactly the complete frames of the bytes delivered, however these
      were cut, and what stays in the buffer is less than one frame. */
  lemma {:induction false} FramingIsStreaming(f: Feed, segs: seq<Segment>, max: nat)
    requires InStep(f)
    ensures InStep(Feeding(f, segs, max)) && Incomplete(Feeding(f, segs, max).stream.buf)
    decreases |segs|
  {
    hide Observe, Frames;
    if segs != [] {
      ObserveKeepsStep(f, segs[0].seqNo, segs[0].data, max);
      FramingIsStreaming(Observe(f, segs[0].seqNo, segs[0].data, max), segs[1..], max);
    }
  }

  /** The bytes delivered are the source's, up to the next one expected. */
  ghost predicate FromSource(f: Feed, src: Source) {
    && |f.stream.buf| <= |f.delivered|
    && Consistent(f.stream, src, src.base + |f.delivered| - |f.stream.buf|)
    && Matches(src, src.base, f.delivered)
  }

  lemma ObserveKeepsSource(f: Feed, src: Source, seqNo: SeqNo, data: seq<Byte>, max: nat)
    requires Sound(src) && FromSource(f, src) && Fits(src, seqNo, data) && (!f.stream.init ==> seqNo == src.isn)
    requires f.stream.init || (|data| > 0 && 0 < max)
    ensures FromSource(Observe(f, seqNo, data, max), src) && Observe(f, seqNo, data, max).stream.init
  {
    hide Receive, Frames, Wrap, Fits, Pos, Incomplete, FrameSize, Rest, Matches;
    var from := src.base + |f.delivered| - |f.stream.buf|;
    ReceiveIsSafe(f.stream, src, from, seqNo, data, max);
    var s := Receive(f.stream, seqNo, data, max);
    RestIsSuffix(s.buf);
    ConsumeIsSafe(s, src, from, |s.buf| - |Rest(s.buf)|);
    MatchesParts(src, from, s.buf, |f.stream.buf|);
    MatchesConcat(src, src.base, f.delivered, s.buf[|f.stream.buf|..]);
  }

  lemma {:induction false} FeedingFromSource(f: Feed, src: Source, segs: seq<Segment>, max: nat)
    requires Sound(src) && FromSource(f, src)
    requires forall s <- segs :: Fits(src, s.seqNo, s.data)
    requires f.stream.init || (segs != [] && segs[0].seqNo == src.isn && |segs[0].data| > 0 && 0 < max)
    ensures FromSource(Feeding(f, segs, max), src)
    decreases |segs|
  {
    hide Observe, FromSource, Fits;
    if segs != [] {
      ObserveKeepsSource(f, src, segs[0].seqNo, segs[0].data, max);
      FeedingFromSource(Observe(f, segs[0].seqNo, segs[0].data, max), src, segs[1..], max);
    }
  }

  lemma DeliveredIsSlice(f: Feed, src: Source)
    requires FromSource(f, src) && InStep(f)
    ensures f.handed == Frames(f.delivered)
    ensures src.base + |f.delivered| <= |src.bytes|
    ensures f.delivered == src.bytes[src.base..src.base + |f.delivered|]
  {
    hide Consistent, Frames, Rest;
  }

  lemma NewFeedIsConsistent(src: Source)
    requires Sound(src)
    ensures InStep(NEW_FEED) && FromSource(NEW_FEED, src) && !NEW_FEED.stream.init
  {
    hide Fits, Wrap;
  }

  /** Reassembly and framing together: if every segment agrees with one source, the bodies handed
      on are the complete frames of what the sender sent from the first sequence number on. */
  lemma FramesComeFromSource(src: Source, segs: seq<Segment>, max: nat)
    requires Sound(src) && segs != [] && segs[0].seqNo == src.isn && |segs[0].data| > 0 && 0 < max
    requires forall s <- segs :: Fits(src, s.seqNo, s.data)
    ensures var f := Feeding(NEW_FEED, segs, max);
            && src.base + |f.delivered| <= |src.bytes|
            && f.handed == Frames(src.bytes[src.base..src.base + |f.delivered|])
  {
    hide *;
    NewFeedIsConsistent(src);
    FramingIsStreaming(NEW_FEED, segs, max);
    FeedingFromSource(NEW_FEED, src, segs, max);
    DeliveredIsSlice(Feeding(NEW_FEED, segs, max), src);
  }

  // ---- The loop ---------------------------------------------------------------------------------

  /** The observation stream of one direction, as the packet loop drives it. */
  class Observer {
    const stream: Stream
    /** All bytes appended and all bodies handed on so far. */
    ghost var delivered: seq<Byte>
    ghost var handed: seq<seq<Byte>>

    ghost function Abs(): Feed
      reads this, stream
    {
      Feed(stream.Abs(), delivered, handed)
    }

    constructor ()
      ensures Abs() == NEW_FEED && fresh(stream)
    {
      stream := new Stream();
      delivered, handed := [], [];
    }

    /** Returns the bodies given to the DNS parser for this packet. */
    method ObserveDns(seqNo: SeqNo, data: seq<Byte>, max: nat) returns (bodies: seq<seq<Byte>>)
      modifies this, stream
      ensures Abs() == Observe(old(Abs()), seqNo, data, max)
      ensures handed == old(handed) + bodies
    {
      hide Receive, Frames;
      stream.AppendSegment(seqNo, data, max);
      ghost var whole := stream.buf;
      ghost var s := stream.Abs();
      ReceiveExtends(old(stream.Abs()), seqNo, data, max);
      bodies := CutFrames();
      delivered := delivered + whole[|old(stream.buf)|..];
      handed := handed + bodies;
      assert stream.Abs() == s.(buf := Rest(s.buf));
    }

    method CutFrames() returns (bodies: seq<seq<Byte>>)
      modifies stream
      ensures bodies == Frames(old(stream.buf)) && stream.buf == Rest(old(stream.buf))
      ensures stream.Abs() == old(stream.Abs()).(buf := stream.buf)
    {
      hide FrameSize;
      bodies := [];
      while |stream.buf| > 0
        invariant bodies + Frames(stream.buf) == Frames(old(stream.buf))
        invariant Rest(stream.buf) == Rest(old(stream.buf))
        invariant stream.Abs() == old(stream.Abs()).(buf := stream.buf)
        decreases |stream.buf|
      {
        if |stream.buf| < 2 {
          break;
        }
        assert FrameSize(stream.buf) == 2 + Word(stream.buf[0], stream.buf[1]) by { FrameSizeIs(stream.buf); }
        var size := 2 + Word(stream.buf[0], stream.buf[1]);
        if |stream.buf| < size {
          break;
        }
        bodies := bodies + [stream.buf[2..size]];
        stream.buf := stream.buf[size..];
      }
    }
  }
}
