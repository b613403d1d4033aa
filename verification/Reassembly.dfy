/** TCP reassembly: one direction of a stream, fed with segments in any order.

    Sequence numbers are 32 bits wide and compared as plain unsigned numbers, as the code does,
    not modulo 2^32 as section 3.4 of RFC 9293 asks. */
module Reassembly {
  import opened Bytes

  const SPACE: nat := 0x1_0000_0000
  const MAX_PENDING: nat := 64

  type SeqNo = x: nat | x < SPACE

  datatype State = State(init: bool, next: SeqNo, buf: seq<Byte>, pending: map<SeqNo, seq<Byte>>)

  const FRESH := State(false, 0, [], map[])

  /** Reduction modulo 2^32, a lap at a time, which keeps `%` out of the proofs. */
  function Wrap(x: int): SeqNo
    decreases x < 0, if x < 0 then -x else x
  {
    if x < 0 then Wrap(x + SPACE) else if x < SPACE then x else Wrap(x - SPACE)
  }

  lemma {:induction false} WrapIsMod(x: int)
    ensures Wrap(x) == x % SPACE
    decreases x < 0, if x < 0 then -x else x
  {
    if x < 0 { WrapIsMod(x + SPACE); } else if x >= SPACE { WrapIsMod(x - SPACE); }
  }

  function Cut(data: seq<Byte>, room: nat): seq<Byte> {
    if |data| > room then data[..room] else data
  }

  function Extend(s: State, d: seq<Byte>): State {
    s.(buf := s.buf + d, next := Wrap(s.next + |d|))
  }

  function Unpark(s: State): State {
    s.(pending := s.pending - {s.next})
  }

  /** The loop that moves parked segments into the buffer. */
  function Drain(s: State, max: nat): State
    decreases |s.pending|
  {
    if s.next !in s.pending then s
    else if |s.buf| >= max then Unpark(s)
    else Drain(Extend(Unpark(s), Cut(s.pending[s.next], max - |s.buf|)), max)
  }

  lemma DrainStep(s: State, max: nat)
    ensures s.next !in s.pending ==> Drain(s, max) == s
    ensures s.next in s.pending ==>
      var u := Unpark(s);
      Drain(s, max) == if |s.buf| >= max then u else Drain(Extend(u, Cut(s.pending[s.next], max - |s.buf|)), max)
  {
    hide Wrap;
  }

  function Park(s: State, seqNo: SeqNo, data: seq<Byte>): State {
    if |s.pending| < MAX_PENDING then s.(pending := s.pending[seqNo := data]) else s
  }

  /** A segment that starts no earlier than the next byte: appended, or parked for later. */
  function Place(s: State, seqNo: SeqNo, data: seq<Byte>, max: nat): State
    requires s.next <= seqNo && |s.buf| < max
  {
    if s.next < seqNo then Park(s, seqNo, data)
    else Drain(Extend(s, Cut(data, max - |s.buf|)), max)
  }

  function Opened(s: State, seqNo: SeqNo): State {
    if s.init then s else State(true, seqNo, s.buf, map[])
  }

  /** One segment. */
  function Receive(s: State, seqNo: SeqNo, data: seq<Byte>, max: nat): State {
    if |data| == 0 || |s.buf| >= max then s
    else
      var o := Opened(s, seqNo);
      var overlap := o.next - seqNo;
      if overlap <= 0 then Place(o, seqNo, data, max)
      else if overlap >= |data| then o
      else Place(o, o.next, data[overlap..], max)
  }

  /** One direction of a TCP flow, as the code keeps it. */
  class Stream {
    var init: bool
    var next: SeqNo
    var buf: seq<Byte>
    var pending: map<SeqNo, seq<Byte>>

    function Abs(): State
      reads this
    {
      State(init, next, buf, pending)
    }

    constructor ()
      ensures Abs() == FRESH
    {
      init, next, buf, pending := false, 0, [], map[];
    }

    method AppendSegment(seqNo: SeqNo, data: seq<Byte>, max: nat)
      modifies this
      ensures Abs() == Receive(old(Abs()), seqNo, data, max)
    {
      hide Place;
      if |data| == 0 || |buf| >= max {
        return;
      }
      if !init {
        init, next, pending := true, seqNo, map[];
      }
      var data, seqNo := data, seqNo;
      if seqNo < next {
        var overlap := next - seqNo;
        if overlap >= |data| {
          return;
        }
        data := data[overlap..];
        seqNo := next;
      }
      PlaceSegment(seqNo, data, max);
    }

    /** A segment that starts no earlier than the next byte. */
    method PlaceSegment(seqNo: SeqNo, data: seq<Byte>, max: nat)
      requires next <= seqNo && |buf| < max
      modifies this
      ensures Abs() == Place(old(Abs()), seqNo, data, max)
    {
      hide Wrap, Drain;
      if seqNo > next {
        if |pending| < MAX_PENDING {
          pending := pending[seqNo := data];
        }
        return;
      }
      var n := max - |buf|;
      var d := data;
      if |d| > n {
        d := d[..n];
      }
      buf := buf + d;
      next := Wrap(next + |d|);
      MovePending(max);
    }

    /** Parked segments follow as long as the next one is there; one that no longer fits is dropped. */
    method MovePending(max: nat)
      requires |buf| <= max
      modifies this
      ensures Abs() == Drain(old(Abs()), max)
    {
      hide Wrap, Drain;
      while next in pending
        invariant |buf| <= max && Drain(Abs(), max) == Drain(old(Abs()), max)
        decreases |pending|
      {
        DrainStep(Abs(), max);
        var d := pending[next];
        pending := pending - {next};
        var n := max - |buf|;
        if n <= 0 {
          return;
        }
        if |d| > n {
          d := d[..n];
        }
        buf := buf + d;
        next := Wrap(next + |d|);
      }
      DrainStep(Abs(), max);
    }
  }
}
