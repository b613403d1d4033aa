/** Whole runs of an encoder and the collector that receives its messages. */
module FlowExportRuns {
  import opened Bytes
  import opened Endian
  import opened Text
  import opened FlowCodec
  import opened FlowEncode

  lemma ReceiveOne(p: Protocol, known: Templates, msg: seq<Byte>)
    ensures ReceiveAll(p, known, [msg]) == Receive(p, known, msg)
  {
    hide Receive;
    var r := Receive(p, known, msg);
    assert [msg][1..] == [];
    if r.Some? { assert r.value.records + [] == r.value.records; }
  }

  function Both(x: Received, y: Option<Received>): Option<Received> {
    if y.None? then None
    else Some(y.value.(records := x.records + y.value.records, count := x.count + y.value.count))
  }

  lemma BothAssoc(x: Received, y: Received, z: Option<Received>)
    ensures Both(x, Both(y, z)) == Both(Both(x, Some(y)).value, z)
  {
    if z.Some? { assert x.records + (y.records + z.value.records) == x.records + y.records + z.value.records; }
  }

  lemma ReceiveStep(p: Protocol, known: Templates, msgs: seq<seq<Byte>>)
    requires msgs != []
    ensures var r := Receive(p, known, msgs[0]);
            ReceiveAll(p, known, msgs) == if r.None? then None else Both(r.value, ReceiveAll(p, r.value.known, msgs[1..]))
  {
    hide Receive;
  }

  /** Receiving in two parts: the second is read with the templates of the first. */
  lemma {:induction false} ReceiveConcat(p: Protocol, known: Templates, a: seq<seq<Byte>>, b: seq<seq<Byte>>)
    requires ReceiveAll(p, known, a).Some?
    ensures var x := ReceiveAll(p, known, a).value;
            ReceiveAll(p, known, a + b) == Both(x, ReceiveAll(p, x.known, b))
    decreases |a|
  {
    hide Receive, ReceiveAll, Both;
    if a == [] {
      assert a + b == b;
      NoMessages(p, known, b);
    } else {
      var r := Receive(p, known, a[0]);
      assert (a + b)[0] == a[0] && (a + b)[1..] == a[1..] + b;
      ReceiveStep(p, known, a);
      ReceiveStep(p, known, a + b);
      var q := ReceiveAll(p, r.value.known, a[1..]);
      BothParts(r.value, q);
      ReceiveConcat(p, r.value.known, a[1..], b);
      BothAssoc(r.value, q.value, ReceiveAll(p, q.value.known, b));
    }
  }

  lemma NoMessages(p: Protocol, known: Templates, b: seq<seq<Byte>>)
    ensures ReceiveAll(p, known, []) == Some(Received(known, [], 0))
    ensures Both(Received(known, [], 0), ReceiveAll(p, known, b)) == ReceiveAll(p, known, b)
  {
    hide Receive;
    var y := ReceiveAll(p, known, b);
    if y.Some? { assert [] + y.value.records == y.value.records; }
  }

  lemma BothParts(x: Received, y: Option<Received>)
    ensures Both(x, y).Some? == y.Some?
    ensures y.Some? ==> Both(x, y).value.known == y.value.known && Both(x, y).value.records == x.records + y.value.records
  {}

  // ---- Numbering ----------------------------------------------------------------------------------

  predicate IsData(p: Protocol, msg: seq<Byte>) {
    |msg| >= HeaderSize(p) + 2 && FromBe(msg[HeaderSize(p)..HeaderSize(p) + 2]) > 255
  }

  /** NetFlow numbers packets, IPFIX the data records before. */
  predicate Counts(p: Protocol, msg: seq<Byte>) { p == NetFlow9 || IsData(p, msg) }

  function NextNumber(p: Protocol, n: Uint32, msg: seq<Byte>): Uint32 {
    if Counts(p, msg) then Next32(n) else n
  }

  predicate Numbered(p: Protocol, n: Uint32, msgs: seq<seq<Byte>>)
    decreases |msgs|
  {
    msgs == [] ||
    (|msgs[0]| >= HeaderSize(p) && SequenceOf(p, msgs[0]) == n && Numbered(p, NextNumber(p, n, msgs[0]), msgs[1..]))
  }

  function NumberAfter(p: Protocol, n: Uint32, msgs: seq<seq<Byte>>): Uint32
    decreases |msgs|
  {
    if msgs == [] then n else NumberAfter(p, NextNumber(p, n, msgs[0]), msgs[1..])
  }

  lemma NumberedOne(p: Protocol, n: Uint32, msg: seq<Byte>)
    ensures Numbered(p, n, [msg]) <==> |msg| >= HeaderSize(p) && SequenceOf(p, msg) == n
    ensures NumberAfter(p, n, [msg]) == NextNumber(p, n, msg)
  {
    hide NextNumber, SequenceOf;
    var one: seq<seq<Byte>> := [msg];
    assert one[1..] == [];
  }

  lemma {:induction false} NumberedConcat(p: Protocol, n: Uint32, a: seq<seq<Byte>>, b: seq<seq<Byte>>)
    ensures Numbered(p, n, a + b) <==> Numbered(p, n, a) && Numbered(p, NumberAfter(p, n, a), b)
    ensures NumberAfter(p, n, a + b) == NumberAfter(p, NumberAfter(p, n, a), b)
    decreases |a|
  {
    hide NextNumber, SequenceOf;
    if a == [] {
      assert a + b == b;
    } else {
      assert (a + b)[1..] == a[1..] + b;
      NumberedConcat(p, NextNumber(p, n, a[0]), a[1..], b);
    }
  }

  /** How many of the messages count. */
  function Count(p: Protocol, msgs: seq<seq<Byte>>): nat {
    if msgs == [] then 0 else (if Counts(p, msgs[0]) then 1 else 0) + Count(p, msgs[1..])
  }

  lemma Next32IsMod(x: nat)
    ensures Next32(x % TWO32) == (x + 1) % TWO32
  {}

  /** In a numbered run each message carries the start plus the number of those that count before
      it, in 32 bits. */
  lemma {:induction false} NumberIsCount(p: Protocol, n: nat, msgs: seq<seq<Byte>>, i: nat)
    requires Numbered(p, n % TWO32, msgs) && i < |msgs|
    ensures |msgs[i]| >= HeaderSize(p) && SequenceOf(p, msgs[i]) == (n + Count(p, msgs[..i])) % TWO32
    decreases i
  {
    hide SequenceOf, Next32, Counts;
    if i == 0 {
      assert msgs[..0] == [];
    } else {
      var step := if Counts(p, msgs[0]) then 1 else 0;
      Next32IsMod(n);
      NumberIsCount(p, n + step, msgs[1..], i - 1);
      assert msgs[..i][1..] == msgs[1..][..i - 1] && msgs[..i][0] == msgs[0];
    }
  }

  lemma TemplateIsNotData(p: Protocol, e: Encoder, c: Config, v6: bool, now: int)
    ensures !IsData(p, Message(p, e, c, now, TemplateSet(p, v6)))
  {
    hide Be, FromBe, Header, UptimeMs, Seconds, TemplateContent, Fields;
    var msg := Message(p, e, c, now, TemplateSet(p, v6));
    Be2Inverse(TemplateSetId(p));
    assert msg[HeaderSize(p)..HeaderSize(p) + 2] == Be(TemplateSetId(p), 2);
  }

  lemma DataIsData(p: Protocol, e: Encoder, c: Config, f: Flow, now: int)
    requires Encodable(f)
    ensures IsData(p, Message(p, e, c, now, DataSet(p, c, f, e.start)))
  {
    hide Be, FromBe, Header, UptimeMs, Seconds, RecordBytes, Fields, Values, IsV6;
    var msg := Message(p, e, c, now, DataSet(p, c, f, e.start));
    var tid := TemplateId(p, IsV6(f));
    Be2Inverse(tid);
    assert msg[HeaderSize(p)..HeaderSize(p) + 2] == Be(tid, 2);
  }

  // ---- One encode -----------------------------------------------------------------------------------

  datatype Job = Job(c: Config, f: Flow, now: int, force: bool)

  predicate ValidJob(p: Protocol, start: int, j: Job) { Parsed(j.f) && Sized(p, j.c, j.f, start) }

  lemma IdsDiffer(p: Protocol)
    ensures TemplateId(p, true) != TemplateId(p, false)
  {}

  /** What a collector can hold that was only ever sent messages of such encoders. */
  ghost predicate KnownRight(p: Protocol, known: Templates) {
    forall v6: bool :: TemplateId(p, v6) in known ==> known[TemplateId(p, v6)] == Fields(p, v6)
  }

  predicate DueAt(p: Protocol, e: Encoder, j: Job) {
    TemplateDue(e, j.c, TemplateId(p, IsV6(j.f)), j.now, j.force)
  }

  lemma LearntRight(p: Protocol, known: Templates, v6: bool)
    requires KnownRight(p, known)
    ensures KnownRight(p, known[TemplateId(p, v6) := Fields(p, v6)])
  {
    hide Fields;
    IdsDiffer(p);
  }

  /** A data message whose template the collector has not got is not decoded. */
  lemma UnknownTemplate(p: Protocol, e: Encoder, known: Templates, j: Job)
    requires Encodable(j.f) && TemplateId(p, IsV6(j.f)) !in known
    ensures Receive(p, known, Message(p, e, j.c, j.now, DataSet(p, j.c, j.f, e.start))) == None
  {
    hide Be, FromBe, Header, UptimeMs, Seconds, RecordBytes, Fields, Values, IsV6, TakeTemplates, TakeRecords;
    var msg := Message(p, e, j.c, j.now, DataSet(p, j.c, j.f, e.start));
    var tid := TemplateId(p, IsV6(j.f));
    Be2Inverse(tid);
    var b := msg[HeaderSize(p)..];
    assert b == DataSet(p, j.c, j.f, e.start);
    assert b[..2] == Be(tid, 2);
  }

  /** The messages of one encode, spelt out. */
  lemma Messages(p: Protocol, e: Encoder, j: Job)
    requires Encodable(j.f)
    ensures var (e', msgs) := Encode(p, e, j.c, j.f, j.now, j.force);
            var tid := TemplateId(p, IsV6(j.f));
            var e1 := if DueAt(p, e, j) then Templated(p, e, tid, j.now) else e;
            var data := Message(p, e1, j.c, j.now, DataSet(p, j.c, j.f, e1.start));
            && e1.start == e.start && e'.start == e.start && e' == Counted(e1)
            && msgs == Some((if DueAt(p, e, j) then [Message(p, e, j.c, j.now, TemplateSet(p, IsV6(j.f)))] else []) + [data])
  {
    hide Message, DataSet, TemplateSet, IsV6, TemplateDue;
    var tid := TemplateId(p, IsV6(j.f));
    var e1 := if DueAt(p, e, j) then Templated(p, e, tid, j.now) else e;
    var t := Message(p, e, j.c, j.now, TemplateSet(p, IsV6(j.f)));
    var data := Message(p, e1, j.c, j.now, DataSet(p, j.c, j.f, e.start));
    assert [t] + [data] == [t, data] && [] + [data] == [data];
  }

  /** One flow with two addresses, at any encoder and any such collector: it is received exactly
      when its template is due or known already, as one record that means the flow, and the
      collector then knows the template. */
  lemma EncodeIsReceived(p: Protocol, e: Encoder, known: Templates, j: Job)
    requires KnownRight(p, known) && ValidJob(p, e.start, j) && Encodable(j.f)
    ensures var (e', msgs) := Encode(p, e, j.c, j.f, j.now, j.force);
            var tid := TemplateId(p, IsV6(j.f));
            && msgs.Some? && e'.start == e.start
            && var r := ReceiveAll(p, known, msgs.value);
            && (r.Some? <==> DueAt(p, e, j) || tid in known)
            && (r.Some? ==>
                 && KnownRight(p, r.value.known) && r.value.known.Keys == known.Keys + {tid}
                 && r.value.records == [Record(Fields(p, IsV6(j.f)), Values(p, IsV6(j.f), j.c, j.f, e.start))])
  {
    hide *;
    Messages(p, e, j);
    var v6 := IsV6(j.f);
    var tid := TemplateId(p, v6);
    if DueAt(p, e, j) {
      TemplateThenData(p, e, known, j);
    } else {
      var data := Message(p, e, j.c, j.now, DataSet(p, j.c, j.f, e.start));
      assert [] + [data] == [data];
      ReceiveOne(p, known, data);
      if tid in known {
        KnownIs(p, known, v6);
        ValidJobIs(p, e.start, j);
        DataReceived(p, e, j.c, j.f, j.now, known);
        assert known.Keys == known.Keys + {tid};
      } else {
        UnknownTemplate(p, e, known, j);
      }
    }
  }

  lemma KnownIs(p: Protocol, known: Templates, v6: bool)
    requires KnownRight(p, known) && TemplateId(p, v6) in known
    ensures known[TemplateId(p, v6)] == Fields(p, v6)
  {
    hide Fields, TemplateId;
  }

  lemma ValidJobIs(p: Protocol, start: int, j: Job)
    requires ValidJob(p, start, j)
    ensures Parsed(j.f) && Sized(p, j.c, j.f, start)
  {
    hide Parsed, Sized;
  }

  lemma TemplateThenData(p: Protocol, e: Encoder, known: Templates, j: Job)
    requires KnownRight(p, known) && ValidJob(p, e.start, j) && Encodable(j.f)
    ensures var v6 := IsV6(j.f); var tid := TemplateId(p, v6);
            var e1 := Templated(p, e, tid, j.now);
            var data := Message(p, e1, j.c, j.now, DataSet(p, j.c, j.f, e1.start));
            var r := ReceiveAll(p, known, [Message(p, e, j.c, j.now, TemplateSet(p, v6))] + [data]);
            && r.Some? && KnownRight(p, r.value.known) && r.value.known.Keys == known.Keys + {tid}
            && r.value.records == [Record(Fields(p, v6), Values(p, v6, j.c, j.f, e.start))]
  {
    hide *;
    var v6 := IsV6(j.f);
    var tid := TemplateId(p, v6);
    var e1 := Templated(p, e, tid, j.now);
    var t := Message(p, e, j.c, j.now, TemplateSet(p, v6));
    var data := Message(p, e1, j.c, j.now, DataSet(p, j.c, j.f, e1.start));
    var known1 := known[tid := Fields(p, v6)];
    TemplateReceived(p, e, j.c, v6, j.now, known);
    LearntRight(p, known, v6);
    StartIsKept(p, e, tid, j.now);
    ValidJobIs(p, e.start, j);
    DataReceived(p, e1, j.c, j.f, j.now, known1);
    ReceiveOne(p, known, t);
    ReceiveOne(p, known1, data);
    ReceiveConcat(p, known, [t], [data]);
    var r := Record(Fields(p, v6), Values(p, v6, j.c, j.f, e.start));
    BothOf(known1, [], [r], 1, 1);
    assert [] + [r] == [r];
    assert known1.Keys == known.Keys + {tid};
  }

  lemma StartIsKept(p: Protocol, e: Encoder, tid: nat, now: int)
    ensures Templated(p, e, tid, now).start == e.start
  {}

  lemma BothOf(known: Templates, a: seq<Record>, b: seq<Record>, m: nat, n: nat)
    ensures Both(Received(known, a, m), Some(Received(known, b, n))) == Some(Received(known, a + b, m + n))
  {}

  /** The messages of one encode take the numbers from the encoder's on, and their lengths are
      multiples of four, whatever the collector knows. */
  lemma EncodeIsNumbered(p: Protocol, e: Encoder, j: Job)
    requires ValidJob(p, e.start, j) && Encodable(j.f)
    ensures var (e', msgs) := Encode(p, e, j.c, j.f, j.now, j.force);
            && msgs.Some? && e'.start == e.start
            && (forall i :: 0 <= i < |msgs.value| ==> |msgs.value[i]| % 4 == 0)
            && Numbered(p, e.sequence, msgs.value) && NumberAfter(p, e.sequence, msgs.value) == e'.sequence
  {
    hide *;
    Messages(p, e, j);
    var v6 := IsV6(j.f);
    var tid := TemplateId(p, v6);
    if DueAt(p, e, j) {
      var e1 := Templated(p, e, tid, j.now);
      var t := Message(p, e, j.c, j.now, TemplateSet(p, v6));
      var data := Message(p, e1, j.c, j.now, DataSet(p, j.c, j.f, e1.start));
      StartIsKept(p, e, tid, j.now);
      DataNumber(p, e1, j);
      TemplateReceived(p, e, j.c, v6, j.now, map[]);
      TemplateNumber(p, e, j.c, v6, j.now);
      NumberedOne(p, e.sequence, t);
      NumberedConcat(p, e.sequence, [t], [data]);
    } else {
      var data := Message(p, e, j.c, j.now, DataSet(p, j.c, j.f, e.start));
      assert [] + [data] == [data];
      DataNumber(p, e, j);
    }
  }

  lemma TemplateNumber(p: Protocol, e: Encoder, c: Config, v6: bool, now: int)
    ensures NextNumber(p, e.sequence, Message(p, e, c, now, TemplateSet(p, v6))) ==
            Templated(p, e, TemplateId(p, v6), now).sequence
  {
    hide IsData, Message, Next32, TemplateSet;
    TemplateIsNotData(p, e, c, v6, now);
  }

  lemma DataNumber(p: Protocol, e: Encoder, j: Job)
    requires ValidJob(p, e.start, j) && Encodable(j.f)
    ensures var data := Message(p, e, j.c, j.now, DataSet(p, j.c, j.f, e.start));
            && |data| % 4 == 0
            && Numbered(p, e.sequence, [data]) && NumberAfter(p, e.sequence, [data]) == Counted(e).sequence
  {
    hide Message, DataSet, Numbered, NumberAfter, IsData, Next32, SequenceOf, Receive, Fields, Values, IsV6, Parsed,
      Encodable, Sized;
    var data := Message(p, e, j.c, j.now, DataSet(p, j.c, j.f, e.start));
    DataReceived(p, e, j.c, j.f, j.now, map[TemplateId(p, IsV6(j.f)) := Fields(p, IsV6(j.f))]);
    DataIsData(p, e, j.c, j.f, j.now);
    NumberedOne(p, e.sequence, data);
  }

  // ---- Runs -------------------------------------------------------------------------------------------

  /** All jobs in order: the encoder at the end, and the messages that went out. */
  function Run(p: Protocol, e: Encoder, jobs: seq<Job>): (Encoder, seq<seq<Byte>>)
    decreases |jobs|
  {
    if jobs == [] then (e, [])
    else
      var j := jobs[0];
      var (e1, msgs) := Encode(p, e, j.c, j.f, j.now, j.force);
      var (e2, rest) := Run(p, e1, jobs[1..]);
      (e2, (if msgs.Some? then msgs.value else []) + rest)
  }

  /** The jobs whose flows have two addresses. */
  function Encoded(jobs: seq<Job>): seq<Job> {
    if jobs == [] then []
    else (if Encodable(jobs[0].f) then [jobs[0]] else []) + Encoded(jobs[1..])
  }

  ghost predicate AllMean(records: seq<Record>, jobs: seq<Job>, start: int) {
    && |records| == |jobs|
    && forall i :: 0 <= i < |jobs| ==> Encodable(jobs[i].f) && Means(records[i], jobs[i].c, jobs[i].f, start)
  }

  /** Each flow with two addresses has its template due at it, or known to the collector by then:
      from the start, or from an earlier flow with two addresses at which it was due. */
  predicate Served(p: Protocol, e: Encoder, has: set<nat>, jobs: seq<Job>)
    decreases |jobs|
  {
    jobs == [] ||
    var j := jobs[0];
    var tid := TemplateId(p, IsV6(j.f));
    var e1 := Encode(p, e, j.c, j.f, j.now, j.force).0;
    if Encodable(j.f) then (DueAt(p, e, j) || tid in has) && Served(p, e1, has + {tid}, jobs[1..])
    else Served(p, e1, has, jobs[1..])
  }

  lemma BadFlowIsV6(f: Flow)
    requires !Encodable(f)
    ensures IsV6(f)
  {}

  /** The sequence numbers a refused flow uses up: none in IPFIX; in NetFlow one, and one more
      when its template was due. */
  function Wasted(p: Protocol, e: Encoder, j: Job): nat {
    if p == Ipfix then 0 else if DueAt(p, e, j) then 2 else 1
  }

  /** What a flow without an address leaves behind: nothing sent, the template marked if it was
      due, and the numbers used up. */
  lemma BadEncode(p: Protocol, e: Encoder, known: Templates, j: Job)
    requires !Encodable(j.f)
    ensures var (e', msgs) := Encode(p, e, j.c, j.f, j.now, j.force);
            && msgs == None && e'.start == e.start
            && e'.sequence == (e.sequence + Wasted(p, e, j)) % TWO32
            && (Tracked(p, e, known) ==>
                 (Tracked(p, e', known) <==>
                   TemplateId(p, true) in e.templateLast
                   || (TemplateId(p, true) in known && known[TemplateId(p, true)] == Fields(p, true))))
  {
    hide Fields, TemplateDue, UptimeMs, Seconds;
    BadFlowIsV6(j.f);
    IdsDiffer(p);
    DueAtFirst(e, j.c, TemplateId(p, true), j.now, j.force);
  }

  lemma DueAtFirst(e: Encoder, c: Config, tid: nat, now: int, force: bool)
    ensures tid !in e.templateLast ==> TemplateDue(e, c, tid, now, force)
  {}

  lemma AllMeanConcat(a: seq<Record>, js: seq<Job>, b: seq<Record>, ks: seq<Job>, start: int)
    requires AllMean(a, js, start) && AllMean(b, ks, start)
    ensures AllMean(a + b, js + ks, start)
  {
    hide Means, Encodable;
  }

  lemma OneMeans(p: Protocol, j: Job, start: int)
    requires Encodable(j.f)
    ensures AllMean([Record(Fields(p, IsV6(j.f)), Values(p, IsV6(j.f), j.c, j.f, start))], [j], start)
  {
    hide Means, Encodable, Fields, Values, IsV6;
    ValuesMean(p, IsV6(j.f), j.c, j.f, start);
  }

  /** Any run from any encoder: the collector that gets every message decodes them all if and only
      if the run is served; then it holds, in order and for every flow with two addresses, one
      record that means the flow. Every message length is a multiple of four in any case. */
  lemma {:induction false} RunIsReceived(p: Protocol, e: Encoder, known: Templates, jobs: seq<Job>)
    requires KnownRight(p, known)
    requires forall i :: 0 <= i < |jobs| ==> ValidJob(p, e.start, jobs[i])
    ensures var r := ReceiveAll(p, known, Run(p, e, jobs).1);
            && (r.Some? <==> Served(p, e, known.Keys, jobs))
            && (r.Some? ==> KnownRight(p, r.value.known) && AllMean(r.value.records, Encoded(jobs), e.start))
    decreases |jobs|
  {
    hide *;
    if jobs == [] {
      EmptyRun(p, e, known);
      NothingReceived(p, known, e.start);
    } else {
      var j := jobs[0];
      var (e1, sent) := Encode(p, e, j.c, j.f, j.now, j.force);
      var rest := Run(p, e1, jobs[1..]).1;
      RunStep(p, e, known, jobs);
      if Encodable(j.f) {
        EncodeIsReceived(p, e, known, j);
        var r := ReceiveAll(p, known, sent.value);
        if r.None? {
          ReceiveStuck(p, known, sent.value, rest);
        } else {
          RunIsReceived(p, e1, r.value.known, jobs[1..]);
          ReceiveConcat(p, known, sent.value, rest);
          BothParts(r.value, ReceiveAll(p, r.value.known, rest));
          if Served(p, e, known.Keys, jobs) {
            OneMeans(p, j, e.start);
            AllMeanConcat(r.value.records, [j], ReceiveAll(p, r.value.known, rest).value.records, Encoded(jobs[1..]), e.start);
          }
        }
      } else {
        BadEncode(p, e, known, j);
        RunIsReceived(p, e1, known, jobs[1..]);
        assert [] + rest == rest;
      }
    }
  }

  lemma EmptyRun(p: Protocol, e: Encoder, known: Templates)
    ensures Run(p, e, []) == (e, []) && Served(p, e, known.Keys, []) && Encoded([]) == []
  {}

  /** Run, Served and Encoded, one job further. */
  lemma RunStep(p: Protocol, e: Encoder, known: Templates, jobs: seq<Job>)
    requires jobs != []
    ensures var j := jobs[0];
            var (e1, sent) := Encode(p, e, j.c, j.f, j.now, j.force);
            var (e2, rest) := Run(p, e1, jobs[1..]);
            var tid := TemplateId(p, IsV6(j.f));
            && Run(p, e, jobs) == (e2, (if sent.Some? then sent.value else []) + rest)
            && (Encodable(j.f) ==>
                 && Encoded(jobs) == [j] + Encoded(jobs[1..])
                 && (Served(p, e, known.Keys, jobs) <==>
                      (DueAt(p, e, j) || tid in known) && Served(p, e1, known.Keys + {tid}, jobs[1..])))
            && (!Encodable(j.f) ==>
                 && Encoded(jobs) == Encoded(jobs[1..])
                 && (Served(p, e, known.Keys, jobs) <==> Served(p, e1, known.Keys, jobs[1..])))
  {
    hide Encode, Encodable, IsV6, TemplateId, DueAt;
    assert [] + Encoded(jobs[1..]) == Encoded(jobs[1..]);
  }

  /** Messages behind one that cannot be decoded do not help. */
  lemma {:induction false} ReceiveStuck(p: Protocol, known: Templates, a: seq<seq<Byte>>, b: seq<seq<Byte>>)
    requires ReceiveAll(p, known, a).None?
    ensures ReceiveAll(p, known, a + b).None?
    decreases |a|
  {
    hide Receive, ReceiveAll, Both;
    if a == [] {
      NoMessages(p, known, b);
    } else {
      assert (a + b)[0] == a[0] && (a + b)[1..] == a[1..] + b;
      ReceiveStep(p, known, a);
      ReceiveStep(p, known, a + b);
      var r := Receive(p, known, a[0]);
      if r.Some? {
        BothParts(r.value, ReceiveAll(p, r.value.known, a[1..]));
        ReceiveStuck(p, r.value.known, a[1..], b);
        BothParts(r.value, ReceiveAll(p, r.value.known, a[1..] + b));
      }
    }
  }

  lemma NothingReceived(p: Protocol, known: Templates, start: int)
    ensures ReceiveAll(p, known, []) == Some(Received(known, [], 0)) && AllMean([], [], start)
  {}

  /** The numbers that refused flows have used up before the message at index `i` went out. */
  function Lost(p: Protocol, e: Encoder, jobs: seq<Job>, i: nat): nat
    decreases |jobs|
  {
    if jobs == [] then 0
    else
      var j := jobs[0];
      var (e1, sent) := Encode(p, e, j.c, j.f, j.now, j.force);
      if sent.None? then Wasted(p, e, j) + Lost(p, e1, jobs[1..], i)
      else if i < |sent.value| then 0
      else Lost(p, e1, jobs[1..], i - |sent.value|)
  }

  lemma LostStep(p: Protocol, e: Encoder, jobs: seq<Job>, i: nat)
    requires jobs != []
    ensures var j := jobs[0];
            var (e1, sent) := Encode(p, e, j.c, j.f, j.now, j.force);
            && (sent.None? ==> Lost(p, e, jobs, i) == Wasted(p, e, j) + Lost(p, e1, jobs[1..], i))
            && (sent.Some? && i < |sent.value| ==> Lost(p, e, jobs, i) == 0)
            && (sent.Some? && i >= |sent.value| ==> Lost(p, e, jobs, i) == Lost(p, e1, jobs[1..], i - |sent.value|))
  {
    hide Encode, Wasted;
  }

  /** The message carries the number `n`, in 32 bits, and its length is a multiple of four. */
  predicate Carries(p: Protocol, msg: seq<Byte>, n: nat) {
    |msg| >= HeaderSize(p) && |msg| % 4 == 0 && SequenceOf(p, msg) == n % TWO32
  }

  lemma CarriesInRing(p: Protocol, msg: seq<Byte>, e: Uint32, n: nat, m: nat)
    requires Carries(p, msg, e + m) && e == n % TWO32
    ensures Carries(p, msg, n + m)
  {
    hide SequenceOf, HeaderSize;
    assert (n % TWO32 + m) % TWO32 == (n + m) % TWO32;
  }

  lemma NumberedCarries(p: Protocol, n: Uint32, msgs: seq<seq<Byte>>, i: nat)
    requires Numbered(p, n, msgs) && i < |msgs| && |msgs[i]| % 4 == 0
    ensures Carries(p, msgs[i], n + Count(p, msgs[..i]))
  {
    hide Numbered, Count, SequenceOf, HeaderSize;
    NumberIsCount(p, n, msgs, i);
  }

  lemma {:induction false} NumberAfterIsCount(p: Protocol, n: Uint32, msgs: seq<seq<Byte>>)
    ensures NumberAfter(p, n, msgs) == (n + Count(p, msgs)) % TWO32
    decreases |msgs|
  {
    hide Next32, Counts;
    if msgs != [] {
      var next := NextNumber(p, n, msgs[0]);
      NumberAfterIsCount(p, next, msgs[1..]);
      NextIsMod(n, Count(p, msgs[1..]));
    }
  }

  lemma NextIsMod(n: Uint32, m: nat)
    ensures (Next32(n) + m) % TWO32 == (n + 1 + m) % TWO32
  {}

  lemma {:induction false} CountConcat(p: Protocol, a: seq<seq<Byte>>, b: seq<seq<Byte>>)
    ensures Count(p, a + b) == Count(p, a) + Count(p, b)
    decreases |a|
  {
    hide Counts;
    if a == [] {
      assert a + b == b;
    } else {
      assert (a + b)[1..] == a[1..] + b;
      CountConcat(p, a[1..], b);
    }
  }

  /** The number of every message of every run: where the encoder started, plus the messages
      (NetFlow) or data records (IPFIX) before it, plus what refused flows used up. */
  lemma {:induction false} RunIsNumbered(p: Protocol, e: Encoder, jobs: seq<Job>, i: nat)
    requires forall k :: 0 <= k < |jobs| ==> ValidJob(p, e.start, jobs[k])
    requires i < |Run(p, e, jobs).1|
    ensures var msgs := Run(p, e, jobs).1;
            Carries(p, msgs[i], e.sequence + Count(p, msgs[..i]) + Lost(p, e, jobs, i))
    decreases |jobs|
  {
    hide *;
    EmptyRun(p, e, map[]);
    var j := jobs[0];
    var (e1, sent) := Encode(p, e, j.c, j.f, j.now, j.force);
    var rest := Run(p, e1, jobs[1..]).1;
    var msgs := Run(p, e, jobs).1;
    RunStep(p, e, map[], jobs);
    LostStep(p, e, jobs, i);
    if Encodable(j.f) {
      EncodeIsNumbered(p, e, j);
      if i < |sent.value| {
        assert msgs[..i] == sent.value[..i];
        NumberedCarries(p, e.sequence, sent.value, i);
      } else {
        var k := i - |sent.value|;
        RunIsNumbered(p, e1, jobs[1..], k);
        assert msgs[..i] == sent.value + rest[..k];
        CountConcat(p, sent.value, rest[..k]);
        NumberAfterIsCount(p, e.sequence, sent.value);
        CarriesInRing(p, msgs[i], e1.sequence, e.sequence + Count(p, sent.value), Count(p, rest[..k]) + Lost(p, e1, jobs[1..], k));
      }
    } else {
      BadEncode(p, e, map[], j);
      assert msgs == rest;
      RunIsNumbered(p, e1, jobs[1..], i);
      CarriesInRing(p, msgs[i], e1.sequence, e.sequence + Wasted(p, e, j), Count(p, rest[..i]) + Lost(p, e1, jobs[1..], i));
    }
  }

  /** Without refused flows, and in IPFIX always, there are no gaps. */
  lemma {:induction false} NothingLost(p: Protocol, e: Encoder, jobs: seq<Job>, i: nat)
    requires p == Ipfix || forall k :: 0 <= k < |jobs| ==> Encodable(jobs[k].f)
    ensures Lost(p, e, jobs, i) == 0
    decreases |jobs|
  {
    hide Message, DataSet, TemplateSet, Encodable, DueAt, TemplateDue, IsV6;
    if jobs != [] {
      var (e1, sent) := Encode(p, e, jobs[0].c, jobs[0].f, jobs[0].now, jobs[0].force);
      NothingLost(p, e1, jobs[1..], if sent.Some? && i >= |sent.value| then i - |sent.value| else i);
    }
  }

  // ---- The lost template --------------------------------------------------------------------------------

  function NewEncoder(start: int): Encoder { Encoder(start, 0, map[]) }

  /** A first flow without an address marks the IPv6 template as sent although it never was: the
      IPv6 flows encoded before the next refresh cannot be decoded. */
  lemma LostTemplate(p: Protocol, start: int, bad: Job, good: Job)
    requires !Encodable(bad.f) && Encodable(good.f) && IsV6(good.f)
    requires !good.force && good.now - bad.now < RefreshNs(good.c)
    ensures ReceiveAll(p, map[], Run(p, NewEncoder(start), [bad, good]).1) == None
  {
    hide Receive, Message, TemplateSet, DataSet, IsV6, RefreshNs;
    BadFlowIsV6(bad.f);
    var e := NewEncoder(start);
    var (e1, none) := Encode(p, e, bad.c, bad.f, bad.now, bad.force);
    assert none == None && e1.templateLast == map[TemplateId(p, true) := bad.now];
    var (e2, sent) := Encode(p, e1, good.c, good.f, good.now, good.force);
    var data := Message(p, e1, good.c, good.now, DataSet(p, good.c, good.f, start));
    assert sent == Some([data]);
    UnknownTemplate(p, e1, map[], good);
    RunOfTwo(p, e, bad, good);
    assert [] + [data] == [data];
  }

  lemma RunOfTwo(p: Protocol, e: Encoder, a: Job, b: Job)
    ensures var (e1, x) := Encode(p, e, a.c, a.f, a.now, a.force);
            var (e2, y) := Encode(p, e1, b.c, b.f, b.now, b.force);
            Run(p, e, [a, b]).1 == (if x.Some? then x.value else []) + (if y.Some? then y.value else [])
  {
    hide Encode;
    var two := [a, b];
    assert two[1..] == [b] && [b][1..] == [];
    var (e1, x) := Encode(p, e, a.c, a.f, a.now, a.force);
    var (e2, y) := Encode(p, e1, b.c, b.f, b.now, b.force);
    var sent := if y.Some? then y.value else [];
    assert Run(p, e2, []).1 == [];
    assert sent + [] == sent;
    assert Run(p, e1, [b]).1 == sent;
  }

  /** A new exporter and a collector that knows nothing: all messages are decoded exactly when
      each flow with two addresses has its template due at it or emitted before; then each such
      flow has a record that means it. Each message carries the number of messages (NetFlow) or
      data records (IPFIX) before it, plus what refused flows used up. */
  lemma FreshRunIsReceived(p: Protocol, start: int, jobs: seq<Job>)
    requires forall i :: 0 <= i < |jobs| ==> ValidJob(p, start, jobs[i])
    ensures var e := NewEncoder(start); var msgs := Run(p, e, jobs).1; var r := ReceiveAll(p, map[], msgs);
            && (r.Some? <==> Served(p, e, {}, jobs))
            && (r.Some? ==> AllMean(r.value.records, Encoded(jobs), start))
            && forall i :: 0 <= i < |msgs| ==>
                 Carries(p, msgs[i], Count(p, msgs[..i]) + Lost(p, e, jobs, i))
  {
    hide Run, ReceiveAll, ValidJob, AllMean, Encodable, Carries, Count, Encoded, Served, Lost;
    var e := NewEncoder(start);
    var none: Templates := map[];
    assert none.Keys == {};
    RunIsReceived(p, e, none, jobs);
    forall i | 0 <= i < |Run(p, e, jobs).1|
      ensures var msgs := Run(p, e, jobs).1;
              Carries(p, msgs[i], Count(p, msgs[..i]) + Lost(p, e, jobs, i))
    {
      RunIsNumbered(p, e, jobs, i);
    }
  }

  /** A run in which every flow without an address comes after the first IPv6 template is served. */
  predicate AllHarmless(p: Protocol, e: Encoder, jobs: seq<Job>)
    decreases |jobs|
  {
    jobs == [] ||
    ((Encodable(jobs[0].f) || TemplateId(p, true) in e.templateLast) &&
     AllHarmless(p, Encode(p, e, jobs[0].c, jobs[0].f, jobs[0].now, jobs[0].force).0, jobs[1..]))
  }

  lemma {:induction false} HarmlessIsServed(p: Protocol, e: Encoder, has: set<nat>, jobs: seq<Job>)
    requires AllHarmless(p, e, jobs)
    requires forall v6: bool :: TemplateId(p, v6) in e.templateLast ==> TemplateId(p, v6) in has
    ensures Served(p, e, has, jobs)
    decreases |jobs|
  {
    hide Message, DataSet, TemplateSet, RefreshNs, Seconds, UptimeMs, Next32;
    if jobs != [] {
      var j := jobs[0];
      IdsDiffer(p);
      if !Encodable(j.f) { BadFlowIsV6(j.f); }
      var e1 := Encode(p, e, j.c, j.f, j.now, j.force).0;
      HarmlessIsServed(p, e1, if Encodable(j.f) then has + {TemplateId(p, IsV6(j.f))} else has, jobs[1..]);
    }
  }
}
