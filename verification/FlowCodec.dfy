/** Template-driven flow messages: how NetFlow version 9 (RFC 3954, section 5) and IPFIX (RFC 7011,
    section 3) lay out sets, templates and records, and a collector that reads them. */
module FlowCodec {
  import opened Bytes
  import opened Endian
  import opened Text

  datatype Protocol = NetFlow9 | Ipfix

  /** An information element number and its length in octets. */
  datatype Field = Field(element: nat, length: nat)

  const VARIABLE := 65535

  predicate ValidField(f: Field) { f.element < TWO16 && f.length < TWO16 }

  lemma Be2Inverse(n: nat)
    requires n < TWO16
    ensures FromBe(Be(n, 2)) == n
  {
    Powers();
    BeInverse(n, 2);
  }

  lemma Be4Inverse(n: nat)
    requires n < TWO32
    ensures FromBe(Be(n, 4)) == n
  {
    Powers();
    BeInverse(n, 4);
  }

  lemma {:induction false} FromBeBound(b: seq<Byte>)
    ensures FromBe(b) < Pow256(|b|)
    decreases |b|
  {
    if b != [] { FromBeBound(b[..|b| - 1]); }
  }

  /** A two-octet length is exact up to 65535 and not beyond. */
  lemma LengthIsExactIff(n: nat)
    ensures FromBe(Be(n, 2)) == n <==> n < TWO16
  {
    hide Be, FromBe;
    Powers();
    FromBeBound(Be(n, 2));
    if n < TWO16 { Be2Inverse(n); }
  }

  // ---- Values in records ------------------------------------------------------------------------

  /** A value of variable length: one octet of length, or 255 and two more (RFC 7011, section 7). */
  function VarBytes(v: seq<Byte>): seq<Byte> {
    if |v| < 255 then Be(|v|, 1) + v else [255] + Be(|v|, 2) + v
  }

  function ValueBytes(v: seq<Byte>, length: nat): seq<Byte> {
    if length == VARIABLE then VarBytes(v) else v
  }

  function RecordBytes(values: seq<seq<Byte>>, fields: seq<Field>): seq<Byte>
    requires |values| == |fields|
  {
    if values == [] then [] else ValueBytes(values[0], fields[0].length) + RecordBytes(values[1..], fields[1..])
  }

  predicate ValueFits(v: seq<Byte>, length: nat) {
    if length == VARIABLE then |v| < TWO16 else |v| == length
  }

  predicate Fit(values: seq<seq<Byte>>, fields: seq<Field>) {
    |values| == |fields| && forall i :: 0 <= i < |values| ==> ValueFits(values[i], fields[i].length)
  }

  // ---- The collector ------------------------------------------------------------------------------

  /** The value of a field at the front of the octets, and the octets after it. */
  function TakeValue(b: seq<Byte>, length: nat): (r: Option<(seq<Byte>, seq<Byte>)>)
    ensures r.Some? ==> |r.value.0| + |r.value.1| <= |b|
  {
    if length != VARIABLE then
      if |b| < length then None else Some((b[..length], b[length..]))
    else if |b| < 1 then None
    else if b[0] < 255 then
      var n: int := b[0];
      if |b| < 1 + n then None else Some((b[1..1 + n], b[1 + n..]))
    else if |b| < 3 then None
    else
      var n := FromBe(b[1..3]);
      if |b| < 3 + n then None else Some((b[3..3 + n], b[3 + n..]))
  }

  function TakeRecord(b: seq<Byte>, fields: seq<Field>): (r: Option<(seq<seq<Byte>>, seq<Byte>)>)
    ensures r.Some? ==> |r.value.0| == |fields| && |r.value.1| <= |b|
    decreases |fields|
  {
    if fields == [] then Some(([], b))
    else
      match TakeValue(b, fields[0].length)
      case None => None
      case Some((v, rest)) =>
        match TakeRecord(rest, fields[1..])
        case None => None
        case Some((vs, rest')) => Some(([v] + vs, rest'))
  }

  /** A record as a collector sees it: which element has which value. */
  datatype Record = Record(fields: seq<Field>, values: seq<seq<Byte>>)

  /** The records of a data set; what is too short for one more is padding. */
  function TakeRecords(b: seq<Byte>, fields: seq<Field>): seq<Record>
    decreases |b|
  {
    match TakeRecord(b, fields)
    case None => []
    case Some((vs, rest)) =>
      if |rest| < |b| then [Record(fields, vs)] + TakeRecords(rest, fields) else []
  }

  function TakeFields(b: seq<Byte>, n: nat): seq<Field>
    requires |b| == 4 * n
  {
    if n == 0 then [] else [Field(FromBe(b[..2]), FromBe(b[2..4]))] + TakeFields(b[4..], n - 1)
  }

  type Templates = map<nat, seq<Field>>

  /** The templates of a template set, and how many there are. */
  function TakeTemplates(b: seq<Byte>, known: Templates, count: nat): Option<(Templates, nat)>
    decreases |b|
  {
    if |b| < 4 then Some((known, count))
    else
      var n := FromBe(b[2..4]);
      if |b| < 4 + 4 * n then None
      else TakeTemplates(b[4 + 4 * n..], known[FromBe(b[..2]) := TakeFields(b[4..4 + 4 * n], n)], count + 1)
  }

  datatype Received = Received(known: Templates, records: seq<Record>, count: nat)

  function TemplateSetId(p: Protocol): nat { if p == NetFlow9 then 0 else 2 }

  /** The sets of a message; `None` for malformed ones and for data whose template is not known. */
  function TakeSets(p: Protocol, b: seq<Byte>, r: Received): Option<Received>
    decreases |b|
  {
    if b == [] then Some(r)
    else if |b| < 4 then None
    else
      var id, n := FromBe(b[..2]), FromBe(b[2..4]);
      if n < 4 || n > |b| then None
      else if id == TemplateSetId(p) then
        match TakeTemplates(b[4..n], r.known, 0)
        case None => None
        case Some((known, count)) => TakeSets(p, b[n..], r.(known := known, count := r.count + count))
      else if id > 255 && id in r.known then
        var records := TakeRecords(b[4..n], r.known[id]);
        TakeSets(p, b[n..], r.(records := r.records + records, count := r.count + |records|))
      else None
  }

  function HeaderSize(p: Protocol): nat { if p == NetFlow9 then 20 else 16 }
  function Version(p: Protocol): nat { if p == NetFlow9 then 9 else 10 }

  /** A whole message. NetFlow counts its records in the header, IPFIX its octets. */
  function Receive(p: Protocol, known: Templates, msg: seq<Byte>): Option<Received> {
    if |msg| < HeaderSize(p) || FromBe(msg[..2]) != Version(p) then None
    else
      match TakeSets(p, msg[HeaderSize(p)..], Received(known, [], 0))
      case None => None
      case Some(r) => if FromBe(msg[2..4]) == (if p == NetFlow9 then r.count else |msg|) then Some(r) else None
  }

  function SequenceOf(p: Protocol, msg: seq<Byte>): nat
    requires |msg| >= HeaderSize(p)
  {
    if p == NetFlow9 then FromBe(msg[12..16]) else FromBe(msg[8..12])
  }

  /** Several messages, in order. */
  function ReceiveAll(p: Protocol, known: Templates, msgs: seq<seq<Byte>>): Option<Received>
    decreases |msgs|
  {
    if msgs == [] then Some(Received(known, [], 0))
    else
      match Receive(p, known, msgs[0])
      case None => None
      case Some(r) =>
        match ReceiveAll(p, r.known, msgs[1..])
        case None => None
        case Some(q) => Some(q.(records := r.records + q.records, count := r.count + q.count))
  }

  // ---- Layout --------------------------------------------------------------------------------------

  /** A set: its id, its length with the padding, its content. */
  function SetBytes(id: nat, content: seq<Byte>): (b: seq<Byte>)
    ensures |b| % 4 == 0 && |b| == 4 + |content| + |Padding(|content|)|
  {
    Be(id, 2) + Be(4 + |content| + |Padding(|content|)|, 2) + content + Padding(|content|)
  }

  function FieldsBytes(fields: seq<Field>): (b: seq<Byte>)
    ensures |b| == 4 * |fields|
  {
    if fields == [] then []
    else FieldsBytes(fields[..|fields| - 1]) + Be(fields[|fields| - 1].element, 2) + Be(fields[|fields| - 1].length, 2)
  }

  function TemplateContent(tid: nat, fields: seq<Field>): (b: seq<Byte>)
    ensures |b| == 4 + 4 * |fields|
  {
    Be(tid, 2) + Be(|fields|, 2) + FieldsBytes(fields)
  }

  function Header(p: Protocol, size: nat, uptime: nat, secs: nat, sequence: nat, domain: nat): (b: seq<Byte>)
    ensures |b| == HeaderSize(p)
  {
    match p
    case NetFlow9 => Be(9, 2) + Be(1, 2) + Be(uptime, 4) + Be(secs, 4) + Be(sequence, 4) + Be(domain, 4)
    case Ipfix => Be(10, 2) + Be(size, 2) + Be(secs, 4) + Be(sequence, 4) + Be(domain, 4)
  }

  // ---- Reading back ----------------------------------------------------------------------------------

  lemma TakeValueBack(v: seq<Byte>, length: nat, rest: seq<Byte>)
    requires ValueFits(v, length)
    ensures TakeValue(ValueBytes(v, length) + rest, length) == Some((v, rest))
  {
    hide FromBe;
    var b := ValueBytes(v, length) + rest;
    if length == VARIABLE {
      if |v| < 255 {
        assert Be(|v|, 1) == [|v|] by { assert Be(|v| / 256, 0) == []; }
        assert b == [|v|] + v + rest;
        assert b[1..1 + |v|] == v && b[1 + |v|..] == rest;
      } else {
        Be2Inverse(|v|);
        assert b == [255] + Be(|v|, 2) + v + rest;
        assert b[1..3] == Be(|v|, 2);
        assert b[3..3 + |v|] == v && b[3 + |v|..] == rest;
      }
    } else {
      assert b[..length] == v && b[length..] == rest;
    }
  }

  /** A record splits at its template's lengths into the values that were written. */
  lemma {:induction false} TakeRecordBack(values: seq<seq<Byte>>, fields: seq<Field>, rest: seq<Byte>)
    requires Fit(values, fields)
    ensures TakeRecord(RecordBytes(values, fields) + rest, fields) == Some((values, rest))
    decreases |values|
  {
    hide TakeValue, ValueBytes, ValueFits;
    if values == [] {
      assert [] + rest == rest;
    } else {
      var later := RecordBytes(values[1..], fields[1..]) + rest;
      assert RecordBytes(values, fields) + rest == ValueBytes(values[0], fields[0].length) + later;
      TakeValueBack(values[0], fields[0].length, later);
      TakeRecordBack(values[1..], fields[1..], rest);
      assert [values[0]] + values[1..] == values;
    }
  }

  /** A data set with one record and its padding holds just that record. */
  lemma TakeRecordsBack(values: seq<seq<Byte>>, fields: seq<Field>, pad: seq<Byte>)
    requires Fit(values, fields) && fields != [] && 4 <= fields[0].length < VARIABLE && |pad| < 4
    ensures TakeRecords(RecordBytes(values, fields) + pad, fields) == [Record(fields, values)]
  {
    hide TakeRecord;
    TakeRecordBack(values, fields, pad);
    assert |RecordBytes(values, fields)| >= |values[0]| == fields[0].length;
    assert TakeRecord(pad, fields) == None by { TooShort(pad, fields); }
  }

  lemma TooShort(b: seq<Byte>, fields: seq<Field>)
    requires fields != [] && |b| < fields[0].length < VARIABLE
    ensures TakeRecord(b, fields) == None
  {}

  lemma {:induction false} TakeFieldsSnoc(b: seq<Byte>, n: nat, f: Field)
    requires |b| == 4 * n && ValidField(f)
    ensures TakeFields(b + Be(f.element, 2) + Be(f.length, 2), n + 1) == TakeFields(b, n) + [f]
    decreases n
  {
    hide Be, FromBe;
    var tail := Be(f.element, 2) + Be(f.length, 2);
    var whole := b + Be(f.element, 2) + Be(f.length, 2);
    assert whole == b + tail;
    Be2Inverse(f.element);
    Be2Inverse(f.length);
    if n == 0 {
      assert b == [];
      assert whole[..2] == Be(f.element, 2) && whole[2..4] == Be(f.length, 2);
      assert TakeFields(whole[4..], 0) == [];
    } else {
      TakeFieldsSnoc(b[4..], n - 1, f);
      assert whole[..2] == b[..2] && whole[2..4] == b[2..4];
      assert whole[4..] == b[4..] + Be(f.element, 2) + Be(f.length, 2);
    }
  }

  lemma {:induction false} TakeFieldsBack(fields: seq<Field>)
    requires forall i :: 0 <= i < |fields| ==> ValidField(fields[i])
    ensures TakeFields(FieldsBytes(fields), |fields|) == fields
    decreases |fields|
  {
    hide Be, FromBe, TakeFields;
    if fields == [] {
      assert TakeFields([], 0) == [] by { NoFields(); }
    } else {
      var front, last := fields[..|fields| - 1], fields[|fields| - 1];
      TakeFieldsBack(front);
      TakeFieldsSnoc(FieldsBytes(front), |front|, last);
    }
  }

  lemma NoFields()
    ensures TakeFields([], 0) == []
  {}

  lemma TakeTemplatesBack(tid: nat, fields: seq<Field>, known: Templates)
    requires tid < TWO16 && |fields| < TWO16 && forall i :: 0 <= i < |fields| ==> ValidField(fields[i])
    ensures TakeTemplates(TemplateContent(tid, fields), known, 0) == Some((known[tid := fields], 1))
  {
    hide Be, FromBe, FieldsBytes, TakeFields;
    var b := TemplateContent(tid, fields);
    var n := |fields|;
    Be2Inverse(tid);
    Be2Inverse(n);
    TakeFieldsBack(fields);
    assert b[..2] == Be(tid, 2) && b[2..4] == Be(n, 2);
    assert b[4..4 + 4 * n] == FieldsBytes(fields);
    assert b[4 + 4 * n..] == [];
  }

  /** The only set of a message is cut out at its length. */
  lemma OneSet(p: Protocol, id: nat, content: seq<Byte>, r: Received)
    requires id < TWO16 && 4 + |content| + |Padding(|content|)| < TWO16
    ensures var b := SetBytes(id, content); var n := |b|;
            && b != [] && n >= 4 && FromBe(b[..2]) == id && FromBe(b[2..4]) == n
            && b[4..n] == content + Padding(|content|) && b[n..] == []
  {
    hide Be, FromBe;
    Be2Inverse(id);
    var b := SetBytes(id, content);
    Be2Inverse(|b|);
    assert b[..2] == Be(id, 2) && b[2..4] == Be(|b|, 2);
    assert b[4..|b|] == content + Padding(|content|);
  }

  lemma TakeDataSet(p: Protocol, tid: nat, values: seq<seq<Byte>>, fields: seq<Field>, known: Templates)
    requires 255 < tid < TWO16 && tid in known && known[tid] == fields
    requires Fit(values, fields) && fields != [] && 4 <= fields[0].length < VARIABLE
    requires |SetBytes(tid, RecordBytes(values, fields))| < TWO16
    ensures TakeSets(p, SetBytes(tid, RecordBytes(values, fields)), Received(known, [], 0)) ==
            Some(Received(known, [Record(fields, values)], 1))
  {
    hide FromBe, TakeRecords, SetBytes, RecordBytes, ValueFits;
    var content := RecordBytes(values, fields);
    OneSet(p, tid, content, Received(known, [], 0));
    TakeRecordsBack(values, fields, Padding(|content|));
    assert [] + [Record(fields, values)] == [Record(fields, values)];
  }

  lemma TakeTemplateSet(p: Protocol, tid: nat, fields: seq<Field>, known: Templates)
    requires tid < TWO16 && |fields| < 1000 && forall i :: 0 <= i < |fields| ==> ValidField(fields[i])
    ensures TakeSets(p, SetBytes(TemplateSetId(p), TemplateContent(tid, fields)), Received(known, [], 0)) ==
            Some(Received(known[tid := fields], [], 1))
  {
    hide FromBe, TakeTemplates, SetBytes, TemplateContent;
    var content := TemplateContent(tid, fields);
    OneSet(p, TemplateSetId(p), content, Received(known, [], 0));
    TakeTemplatesBack(tid, fields, known);
    assert content + Padding(|content|) == content;
  }

  lemma NetFlowParts(size: nat, uptime: nat, secs: nat, sequence: nat, domain: nat, set_: seq<Byte>)
    ensures var msg := Header(NetFlow9, size, uptime, secs, sequence, domain) + set_;
            |msg| == 20 + |set_| && msg[..2] == Be(9, 2) && msg[2..4] == Be(1, 2) && msg[12..16] == Be(sequence, 4) && msg[20..] == set_
  {
    hide Be;
  }

  lemma IpfixParts(size: nat, uptime: nat, secs: nat, sequence: nat, domain: nat, set_: seq<Byte>)
    ensures var msg := Header(Ipfix, size, uptime, secs, sequence, domain) + set_;
            |msg| == 16 + |set_| && msg[..2] == Be(10, 2) && msg[2..4] == Be(size, 2) && msg[8..12] == Be(sequence, 4) && msg[16..] == set_
  {
    hide Be;
  }

  /** A message of one set is received when the set is, and carries its sequence number. */
  lemma OneSetMessage(p: Protocol, set_: seq<Byte>, known: Templates, uptime: nat, secs: nat, sequence: nat, domain: nat)
    requires sequence < TWO32 && HeaderSize(p) + |set_| < TWO16
    ensures var size := HeaderSize(p) + |set_|;
            var msg := Header(p, size, uptime, secs, sequence, domain) + set_;
            var r := TakeSets(p, set_, Received(known, [], 0));
            && SequenceOf(p, msg) == sequence
            && (p == Ipfix ==> FromBe(msg[2..4]) == |msg|)
            && (r.Some? && r.value.count == 1 ==> Receive(p, known, msg) == r)
  {
    hide Be, FromBe, TakeSets, Header;
    var size := HeaderSize(p) + |set_|;
    NetFlowParts(size, uptime, secs, sequence, domain, set_);
    IpfixParts(size, uptime, secs, sequence, domain, set_);
    Be2Inverse(Version(p));
    Be2Inverse(1);
    Be2Inverse(size);
    Be4Inverse(sequence);
  }
}
