/** Completeness of reassembly: the buffer after any order of arrival. */
module ReassemblyCompleteness {
  import opened Bytes
  import opened Reassembly
  import opened ReassemblySafety

  /** A byte stream cut into segments, the first of which carries `isn`. */
  datatype Cutting = Cutting(isn: SeqNo, pieces: seq<seq<Byte>>)

  function Join(pieces: seq<seq<Byte>>): seq<Byte> {
    if pieces == [] then [] else Join(pieces[..|pieces| - 1]) + pieces[|pieces| - 1]
  }

  /** Where piece `k` begins in the stream. */
  function Off(c: Cutting, k: nat): nat
    requires k <= |c.pieces|
  {
    |Join(c.pieces[..k])|
  }

  function Whole(c: Cutting): seq<Byte> { Join(c.pieces) }

  function SeqOf(c: Cutting, k: nat): SeqNo
    requires k <= |c.pieces|
  {
    Wrap(c.isn + Off(c, k))
  }

  ghost predicate ValidCut(c: Cutting, max: nat) {
    && |c.pieces| > 0 && (forall p <- c.pieces :: |p| > 0)
    && |Whole(c)| < SPACE && |Whole(c)| <= max
  }

  /** Between the start of the second piece and the start of the last one the sequence numbers
      do not wrap around. */
  predicate SameLap(c: Cutting) {
    |c.pieces| > 1 ==> SeqOf(c, 1) + (Off(c, |c.pieces| - 1) - Off(c, 1)) < SPACE
  }

  lemma {:induction false} JoinPrefix(c: Cutting, i: nat, j: nat)
    requires i <= j <= |c.pieces|
    ensures Join(c.pieces[..i]) <= Join(c.pieces[..j])
    ensures Off(c, i) <= Off(c, j) && (i < j && (forall p <- c.pieces :: |p| > 0) ==> Off(c, i) < Off(c, j))
    decreases j
  {
    if i < j {
      assert c.pieces[..j][..j - 1] == c.pieces[..j - 1];
      JoinPrefix(c, i, j - 1);
      assert c.pieces[j - 1] in c.pieces;
    }
  }

  lemma PieceOf(c: Cutting, k: nat)
    requires k < |c.pieces|
    ensures Off(c, k + 1) == Off(c, k) + |c.pieces[k]| && Off(c, k + 1) <= |Whole(c)|
    ensures Whole(c)[..Off(c, k)] + c.pieces[k] == Whole(c)[..Off(c, k + 1)]
  {
    assert c.pieces[..k + 1][..k] == c.pieces[..k];
    assert c.pieces[..|c.pieces|] == c.pieces;
    JoinPrefix(c, k, |c.pieces|);
    JoinPrefix(c, k + 1, |c.pieces|);
  }

  lemma OffEnds(c: Cutting)
    ensures Off(c, 0) == 0 && Off(c, |c.pieces|) == |Whole(c)|
  {
    assert c.pieces[..|c.pieces|] == c.pieces;
  }

  lemma WrapSmall(x: int)
    requires 0 <= x < SPACE
    ensures Wrap(x) == x
  {}

  /** On one lap, sequence numbers of later pieces are later, by the bytes in between. */
  lemma SeqDistance(c: Cutting, max: nat, i: nat, j: nat)
    requires ValidCut(c, max) && SameLap(c) && 1 <= i <= j < |c.pieces|
    ensures SeqOf(c, j) - SeqOf(c, i) == Off(c, j) - Off(c, i)
    ensures i < j ==> SeqOf(c, i) < SeqOf(c, j)
  {
    hide Join, Wrap;
    JoinPrefix(c, 1, i);
    JoinPrefix(c, i, j);
    JoinPrefix(c, j, |c.pieces| - 1);
    WrapAgain(c.isn + Off(c, 1), Off(c, i) - Off(c, 1));
    WrapAgain(c.isn + Off(c, 1), Off(c, j) - Off(c, 1));
    WrapSmall(SeqOf(c, 1) + (Off(c, i) - Off(c, 1)));
    WrapSmall(SeqOf(c, 1) + (Off(c, j) - Off(c, 1)));
  }

  // ---- Fronts and waiting pieces -----------------------------------------------------------

  /** The first piece at or after `k` that has not arrived. */
  function FrontFrom(arrived: set<nat>, k: nat, m: nat): nat
    decreases m - k
  {
    if k < m && k in arrived then FrontFrom(arrived, k + 1, m) else k
  }

  function Front(arrived: set<nat>, m: nat): nat { FrontFrom(arrived, 0, m) }

  /** Pieces that have arrived before one they follow. */
  function Ahead(arrived: set<nat>, m: nat): set<nat> {
    WaitingFrom(arrived, Front(arrived, m) + 1)
  }

  function WaitingFrom(arrived: set<nat>, k: nat): set<nat> {
    set j | j in arrived && j >= k
  }

  lemma {:induction false} FrontFacts(arrived: set<nat>, k: nat, m: nat)
    requires k <= m
    ensures k <= FrontFrom(arrived, k, m) <= m
    ensures forall j | k <= j < FrontFrom(arrived, k, m) :: j in arrived
    ensures FrontFrom(arrived, k, m) < m ==> FrontFrom(arrived, k, m) !in arrived
    decreases m - k
  {
    if k < m && k in arrived { FrontFacts(arrived, k + 1, m); }
  }

  lemma {:induction false} FrontSkips(arrived: set<nat>, k: nat, n: nat, m: nat)
    requires k <= n <= m && forall j | k <= j < n :: j in arrived
    ensures FrontFrom(arrived, k, m) == FrontFrom(arrived, n, m)
    decreases n - k
  {
    if k < n { FrontSkips(arrived, k + 1, n, m); }
  }

  /** The pieces parked, keyed by their sequence numbers. */
  ghost predicate Parks(c: Cutting, pending: map<SeqNo, seq<Byte>>, waiting: set<nat>) {
    && (forall j <- waiting :: j < |c.pieces|)
    && (forall j <- waiting :: SeqOf(c, j) in pending && pending[SeqOf(c, j)] == c.pieces[j])
    && (forall q <- pending :: exists j :: j in waiting && SeqOf(c, j) == q)
  }

  /** The state the buffer and the parking lot are in once exactly `arrived` has arrived. */
  ghost predicate Assembled(s: State, c: Cutting, arrived: set<nat>, k: nat) {
    && s.init && k <= |c.pieces| && Off(c, k) <= |Whole(c)|
    && s.buf == Whole(c)[..Off(c, k)]
    && (k < |c.pieces| ==> s.next == SeqOf(c, k) && Parks(c, s.pending, WaitingFrom(arrived, k + 1)))
  }

  lemma SeqDistinct(c: Cutting, max: nat, i: nat, j: nat)
    requires ValidCut(c, max) && SameLap(c) && 1 <= i < |c.pieces| && 1 <= j < |c.pieces| && i != j
    ensures SeqOf(c, i) != SeqOf(c, j)
  {
    if i < j { SeqDistance(c, max, i, j); } else { SeqDistance(c, max, j, i); }
  }

  lemma ParksWithout(c: Cutting, max: nat, pending: map<SeqNo, seq<Byte>>, waiting: set<nat>, j: nat)
    requires ValidCut(c, max) && SameLap(c) && Parks(c, pending, waiting) && 0 !in waiting && j in waiting
    ensures Parks(c, pending - {SeqOf(c, j)}, waiting - {j})
  {
    hide SeqOf, Join, Whole, SameLap, ValidCut;
    forall i | i in waiting - {j} ensures SeqOf(c, i) != SeqOf(c, j) { SeqDistinct(c, max, i, j); }
  }

  /** Numbers are distinct, so as many entries are parked as pieces wait. */
  lemma {:induction false} ParkedCount(c: Cutting, max: nat, pending: map<SeqNo, seq<Byte>>, waiting: set<nat>)
    requires ValidCut(c, max) && SameLap(c) && Parks(c, pending, waiting) && 0 !in waiting
    ensures |pending| == |waiting|
    decreases waiting
  {
    hide SeqOf, SameLap, ValidCut, Parks;
    if waiting == {} {
      NothingParked(c, pending);
    } else {
      var j :| j in waiting;
      IsParked(c, pending, waiting, j);
      ParksWithout(c, max, pending, waiting, j);
      ParkedCount(c, max, pending - {SeqOf(c, j)}, waiting - {j});
      OneLess(pending, SeqOf(c, j));
    }
  }

  lemma NothingParked(c: Cutting, pending: map<SeqNo, seq<Byte>>)
    requires Parks(c, pending, {})
    ensures pending == map[]
  {
    hide SeqOf;
  }

  lemma IsParked(c: Cutting, pending: map<SeqNo, seq<Byte>>, waiting: set<nat>, j: nat)
    requires Parks(c, pending, waiting) && j in waiting
    ensures j < |c.pieces| && SeqOf(c, j) in pending
  {
    hide SeqOf;
  }

  lemma OneLess(pending: map<SeqNo, seq<Byte>>, q: SeqNo)
    requires q in pending
    ensures |pending| == |pending - {q}| + 1
  {
    assert pending.Keys == (pending - {q}).Keys + {q};
    assert |pending.Keys| == |(pending - {q}).Keys| + 1;
  }

  /** Taking piece `k` next leads from the state before it to the state after it. */
  lemma ExtendByPiece(s: State, c: Cutting, max: nat, k: nat)
    requires ValidCut(c, max) && k < |c.pieces| && Off(c, k) <= |Whole(c)|
    requires s.buf == Whole(c)[..Off(c, k)] && s.next == SeqOf(c, k)
    ensures |s.buf| < max && Cut(c.pieces[k], max - |s.buf|) == c.pieces[k]
    ensures Off(c, k + 1) <= |Whole(c)|
    ensures var r := Extend(s, c.pieces[k]);
            r.buf == Whole(c)[..Off(c, k + 1)] && r.next == SeqOf(c, k + 1)
  {
    hide Wrap, Join;
    PieceOf(c, k);
    assert c.pieces[k] in c.pieces;
    WrapAgain(c.isn + Off(c, k), |c.pieces[k]|);
  }

  lemma {:induction false} DrainAssembles(s: State, c: Cutting, max: nat, arrived: set<nat>, k: nat)
    requires ValidCut(c, max) && SameLap(c) && 1 <= k <= |c.pieces| && Off(c, k) <= |Whole(c)|
    requires forall j <- arrived :: j < |c.pieces|
    requires s.init && s.buf == Whole(c)[..Off(c, k)] && s.next == SeqOf(c, k)
    requires Parks(c, s.pending, WaitingFrom(arrived, k))
    ensures Assembled(Drain(s, max), c, arrived, FrontFrom(arrived, k, |c.pieces|))
    decreases |c.pieces| - k
  {
    hide SeqOf, Join, Whole, SameLap, Wrap, ValidCut;
    if k < |c.pieces| && k in arrived {
      assert SeqOf(c, k) in s.pending && s.pending[SeqOf(c, k)] == c.pieces[k];
      ExtendByPiece(Unpark(s), c, max, k);
      ParksWithout(c, max, s.pending, WaitingFrom(arrived, k), k);
      assert WaitingFrom(arrived, k) - {k} == WaitingFrom(arrived, k + 1);
      DrainAssembles(Extend(Unpark(s), c.pieces[k]), c, max, arrived, k + 1);
    } else {
      forall j | j in WaitingFrom(arrived, k) ensures SeqOf(c, j) != SeqOf(c, k) { SeqDistinct(c, max, j, k); }
      assert s.next !in s.pending;
      assert k < |c.pieces| ==> WaitingFrom(arrived, k) == WaitingFrom(arrived, k + 1);
    }
  }

  lemma FirstAssembles(c: Cutting, max: nat)
    requires ValidCut(c, max) && SameLap(c)
    ensures Assembled(Receive(FRESH, SeqOf(c, 0), c.pieces[0], max), c, {0}, Front({0}, |c.pieces|))
  {
    hide Join, Wrap, Drain, SameLap;
    OffEnds(c);
    assert c.pieces[0] in c.pieces;
    var s := Opened(FRESH, SeqOf(c, 0));
    assert s.buf == Whole(c)[..0];
    ExtendByPiece(s, c, max, 0);
    DrainAssembles(Extend(s, c.pieces[0]), c, max, {0}, 1);
  }

  /** The stream the pieces come from, as the source of the safety theorem. */
  function SourceOf(c: Cutting): Source { Source(Whole(c), 0, c.isn) }

  lemma PieceFits(c: Cutting, max: nat, j: nat)
    requires ValidCut(c, max) && j < |c.pieces|
    ensures Sound(SourceOf(c)) && Fits(SourceOf(c), SeqOf(c, j), c.pieces[j])
  {
    hide Join, Wrap;
    PieceOf(c, j);
    var isn: int := c.isn;
    WrapAgain(c.isn + Off(c, j), -isn);
    WrapSmall(Off(c, j));
    assert c.pieces[j] == Whole(c)[..Off(c, j + 1)][Off(c, j)..];
  }

  lemma FrontAfter(arrived: set<nat>, j: nat, m: nat)
    requires j < m
    ensures var k := Front(arrived, m); var arrived' := arrived + {j};
            && (j < k ==> arrived' == arrived)
            && (j > k ==> Front(arrived', m) == k && Ahead(arrived', m) == Ahead(arrived, m) + {j})
            && (j == k ==> Front(arrived', m) == FrontFrom(arrived', k + 1, m))
  {
    var k := Front(arrived, m);
    FrontFacts(arrived, 0, m);
    FrontFacts(arrived + {j}, 0, m);
    if j == k {
      FrontSkips(arrived + {j}, 0, k + 1, m);
    } else if j > k {
      FrontSkips(arrived + {j}, 0, k, m);
      FrontFacts(arrived + {j}, k, m);
    }
  }

  lemma ParksMore(c: Cutting, max: nat, pending: map<SeqNo, seq<Byte>>, waiting: set<nat>, j: nat)
    requires ValidCut(c, max) && SameLap(c) && Parks(c, pending, waiting) && 0 !in waiting && 1 <= j < |c.pieces|
    ensures Parks(c, pending[SeqOf(c, j) := c.pieces[j]], waiting + {j})
    ensures j in waiting ==> pending[SeqOf(c, j) := c.pieces[j]] == pending && waiting + {j} == waiting
  {
    hide SeqOf, Join, Whole, SameLap, ValidCut;
    forall i | i in waiting && i != j ensures SeqOf(c, i) != SeqOf(c, j) { SeqDistinct(c, max, i, j); }
  }

  /** The three ways in which an opened stream takes a segment that it does not overlap halfway. */
  lemma ReceiveCases(s: State, seqNo: SeqNo, data: seq<Byte>, max: nat)
    requires s.init && |data| > 0 && |s.buf| < max
    ensures seqNo < s.next && s.next - seqNo >= |data| ==> Receive(s, seqNo, data, max) == s
    ensures seqNo == s.next ==> Receive(s, seqNo, data, max) == Drain(Extend(s, Cut(data, max - |s.buf|)), max)
    ensures seqNo > s.next ==> Receive(s, seqNo, data, max) == Park(s, seqNo, data)
  {
    hide Drain, Wrap;
  }

  lemma ReceiveOld(s: State, c: Cutting, max: nat, k: nat, j: nat)
    requires ValidCut(c, max) && SameLap(c) && j < k < |c.pieces| && s.init && s.next == SeqOf(c, k)
    requires j == 0 ==> c.isn + |c.pieces[0]| < SPACE
    requires Off(c, k) <= |Whole(c)| && s.buf == Whole(c)[..Off(c, k)]
    ensures Receive(s, SeqOf(c, j), c.pieces[j], max) == s
  {
    hide Join, Wrap, Drain, SameLap, Receive, SeqOf;
    assert c.pieces[j] in c.pieces;
    ExtendByPiece(s, c, max, k);
    ReceiveCases(s, SeqOf(c, j), c.pieces[j], max);
    PieceOf(c, j);
    JoinPrefix(c, j + 1, k);
    if j == 0 { OffEnds(c); FirstIsOld(c, max, k); } else { SeqDistance(c, max, j, k); }
  }

  lemma ReceiveNext(s: State, c: Cutting, max: nat, arrived: set<nat>, k: nat)
    requires ValidCut(c, max) && SameLap(c) && forall i <- arrived :: i < |c.pieces|
    requires 1 <= k < |c.pieces| && Assembled(s, c, arrived, k)
    ensures Assembled(Receive(s, SeqOf(c, k), c.pieces[k], max), c, arrived + {k},
                      FrontFrom(arrived + {k}, k + 1, |c.pieces|))
  {
    hide Join, Wrap, Drain, SameLap, Receive, SeqOf, FrontFrom, Parks;
    assert c.pieces[k] in c.pieces;
    ExtendByPiece(s, c, max, k);
    ReceiveCases(s, SeqOf(c, k), c.pieces[k], max);
    assert WaitingFrom(arrived + {k}, k + 1) == WaitingFrom(arrived, k + 1);
    DrainAssembles(Extend(s, c.pieces[k]), c, max, arrived + {k}, k + 1);
  }

  lemma ReceiveDone(s: State, c: Cutting, max: nat, arrived: set<nat>, j: nat)
    requires ValidCut(c, max) && Assembled(s, c, arrived, |c.pieces|) && Consistent(s, SourceOf(c), 0)
    requires j < |c.pieces|
    ensures Assembled(Receive(s, SeqOf(c, j), c.pieces[j], max), c, arrived, |c.pieces|)
  {
    hide Join, Wrap, Receive, SeqOf, Parks;
    PieceFits(c, max, j);
    ReceiveIsSafe(s, SourceOf(c), 0, SeqOf(c, j), c.pieces[j], max);
    OffEnds(c);
  }

  /** The order in which the arrived pieces came does not matter: from any state that holds the
      first run of contiguous pieces and parks the rest, one more arrival leads to another. */
  lemma ReceiveAssembles(s: State, c: Cutting, max: nat, arrived: set<nat>, j: nat)
    requires ValidCut(c, max) && SameLap(c) && 0 in arrived && forall i <- arrived :: i < |c.pieces|
    requires Assembled(s, c, arrived, Front(arrived, |c.pieces|)) && Consistent(s, SourceOf(c), 0)
    requires j < |c.pieces| && (j == 0 ==> c.isn + |c.pieces[0]| < SPACE)
    requires |Ahead(arrived + {j}, |c.pieces|)| <= MAX_PENDING
    ensures var r := Receive(s, SeqOf(c, j), c.pieces[j], max);
            && Assembled(r, c, arrived + {j}, Front(arrived + {j}, |c.pieces|))
            && Consistent(r, SourceOf(c), 0)
  {
    hide *;
    var m := |c.pieces|;
    var k := Front(arrived, m);
    FrontRange(arrived, j, m);
    FrontAfter(arrived, j, m);
    AssembledFacts(s, c, arrived, k);
    PieceFits(c, max, j);
    ReceiveIsSafe(s, SourceOf(c), 0, SeqOf(c, j), c.pieces[j], max);
    if k == m {
      ReceiveDone(s, c, max, arrived, j);
    } else if j < k {
      ReceiveOld(s, c, max, k, j);
    } else if j == k {
      ReceiveNext(s, c, max, arrived, k);
    } else {
      ReceiveAhead(s, c, max, arrived, j);
    }
  }

  lemma FrontRange(arrived: set<nat>, j: nat, m: nat)
    requires 0 in arrived && j < m && forall i <- arrived :: i < m
    ensures 1 <= Front(arrived, m) <= m && (Front(arrived, m) == m ==> j in arrived && arrived + {j} == arrived)
  {
    hide FrontFrom;
    FrontFacts(arrived, 0, m);
    FrontSkips(arrived, 0, 1, m);
    FrontFacts(arrived, 1, m);
  }

  lemma AssembledFacts(s: State, c: Cutting, arrived: set<nat>, k: nat)
    requires Assembled(s, c, arrived, k) && k <= |c.pieces|
    ensures s.init && Off(c, k) <= |Whole(c)| && s.buf == Whole(c)[..Off(c, k)]
    ensures k < |c.pieces| ==> s.next == SeqOf(c, k)
  {
    hide SeqOf, Parks, Whole, Off;
  }

  lemma FirstIsOld(c: Cutting, max: nat, k: nat)
    requires ValidCut(c, max) && SameLap(c) && 1 <= k < |c.pieces| && c.isn + |c.pieces[0]| < SPACE
    ensures SeqOf(c, k) - SeqOf(c, 0) == Off(c, k)
  {
    hide Join, Wrap;
    OffEnds(c);
    PieceOf(c, 0);
    WrapSmall(c.isn);
    WrapSmall(c.isn + Off(c, 1));
    SeqDistance(c, max, 1, k);
  }

  lemma WaitingFacts(arrived: set<nat>, j: nat, m: nat)
    requires var k := Front(arrived, m); 1 <= k < j && Ahead(arrived + {j}, m) == Ahead(arrived, m) + {j}
    ensures var k := Front(arrived, m); var waiting := Ahead(arrived, m);
            && 0 !in waiting && waiting == WaitingFrom(arrived, k + 1)
            && WaitingFrom(arrived + {j}, k + 1) == waiting + {j}
  {
    hide FrontFrom;
  }

  /** A new piece finds room, and one that waits already changes nothing. */
  lemma RoomToPark(c: Cutting, max: nat, pending: map<SeqNo, seq<Byte>>, waiting: set<nat>, j: nat)
    requires ValidCut(c, max) && SameLap(c) && Parks(c, pending, waiting) && 0 !in waiting
    requires 1 <= j < |c.pieces| && |waiting + {j}| <= MAX_PENDING
    ensures j !in waiting ==> |pending| < MAX_PENDING
    ensures j in waiting ==> pending[SeqOf(c, j) := c.pieces[j]] == pending && waiting + {j} == waiting
  {
    hide SeqOf, SameLap, ValidCut, Parks;
    ParkedCount(c, max, pending, waiting);
    ParksMore(c, max, pending, waiting, j);
    if j !in waiting { assert |waiting + {j}| == |waiting| + 1; }
  }

  lemma ParkedIsAssembled(s: State, c: Cutting, max: nat, arrived: set<nat>, k: nat, j: nat)
    requires ValidCut(c, max) && SameLap(c) && k < j < |c.pieces| && Assembled(s, c, arrived, k)
    requires var waiting := WaitingFrom(arrived, k + 1);
             0 !in waiting && |waiting + {j}| <= MAX_PENDING && WaitingFrom(arrived + {j}, k + 1) == waiting + {j}
    ensures Assembled(Park(s, SeqOf(c, j), c.pieces[j]), c, arrived + {j}, k)
  {
    hide SeqOf, SameLap, ValidCut, Parks, WaitingFrom, Whole, Off;
    var waiting := WaitingFrom(arrived, k + 1);
    RoomToPark(c, max, s.pending, waiting, j);
    ParksMore(c, max, s.pending, waiting, j);
  }

  /** A piece ahead of the next one has a greater number, and there is room in the buffer. */
  lemma AheadIsParked(s: State, c: Cutting, max: nat, arrived: set<nat>, k: nat, j: nat)
    requires ValidCut(c, max) && SameLap(c) && 1 <= k < j < |c.pieces| && Assembled(s, c, arrived, k)
    ensures Receive(s, SeqOf(c, j), c.pieces[j], max) == Park(s, SeqOf(c, j), c.pieces[j])
  {
    hide Wrap, Drain, Receive, SeqOf, SameLap, ValidCut, Parks, WaitingFrom, Whole, Off;
    SeqDistance(c, max, k, j);
    ExtendByPiece(s, c, max, k);
    PieceNonEmpty(c, max, k, j);
    ReceiveCases(s, SeqOf(c, j), c.pieces[j], max);
  }

  lemma ReceiveAhead(s: State, c: Cutting, max: nat, arrived: set<nat>, j: nat)
    requires ValidCut(c, max) && SameLap(c) && forall i <- arrived :: i < |c.pieces|
    requires var k := Front(arrived, |c.pieces|); 1 <= k < j < |c.pieces| && Assembled(s, c, arrived, k)
    requires Ahead(arrived + {j}, |c.pieces|) == Ahead(arrived, |c.pieces|) + {j}
    requires |Ahead(arrived + {j}, |c.pieces|)| <= MAX_PENDING
    ensures var r := Receive(s, SeqOf(c, j), c.pieces[j], max);
            Assembled(r, c, arrived + {j}, Front(arrived, |c.pieces|))
  {
    hide *;
    var k := Front(arrived, |c.pieces|);
    WaitingFacts(arrived, j, |c.pieces|);
    AheadIsParked(s, c, max, arrived, k, j);
    ParkedIsAssembled(s, c, max, arrived, k, j);
  }

  lemma PieceNonEmpty(c: Cutting, max: nat, k: nat, j: nat)
    requires ValidCut(c, max) && k < j < |c.pieces|
    ensures |c.pieces[j]| > 0 && Off(c, k) < Off(c, j)
  {
    assert c.pieces[j] in c.pieces;
    JoinPrefix(c, k, j);
  }

  // ---- Whole runs ---------------------------------------------------------------------------

  predicate InRange(c: Cutting, d: seq<nat>) {
    forall i | 0 <= i < |d| :: d[i] < |c.pieces|
  }

  function Deliver(s: State, c: Cutting, d: seq<nat>, max: nat): State
    requires InRange(c, d)
    decreases |d|
  {
    if d == [] then s else Deliver(Receive(s, SeqOf(c, d[0]), c.pieces[d[0]], max), c, d[1..], max)
  }

  function SetOf(d: seq<nat>): set<nat> { set j | j in d }

  /** Deliveries of the pieces, the first one first and never more than 64 waiting. Pieces may
      be repeated; the first one only while the second has not wrapped around. */
  ghost predicate Deliverable(c: Cutting, d: seq<nat>) {
    && d != [] && d[0] == 0 && InRange(c, d)
    && (forall i | 1 <= i < |d| :: d[i] == 0 ==> c.isn + |c.pieces[0]| < SPACE)
    && (forall i | 1 <= i <= |d| :: |Ahead(SetOf(d[..i]), |c.pieces|)| <= MAX_PENDING)
  }

  /** After the deliveries so far the state is what it should be, and consistent with the source. */
  ghost predicate Stands(s: State, c: Cutting, done: seq<nat>) {
    InRange(c, done) &&
    var a := SetOf(done);
    Assembled(s, c, a, Front(a, |c.pieces|)) && Consistent(s, SourceOf(c), 0)
  }

  lemma {:induction false} RunAssembles(s: State, c: Cutting, max: nat, done: seq<nat>, d: seq<nat>)
    requires ValidCut(c, max) && SameLap(c) && done != [] && Deliverable(c, done + d)
    requires Stands(s, c, done)
    ensures InRange(c, d) && Stands(Deliver(s, c, d, max), c, done + d)
    decreases |d|
  {
    forall i | 0 <= i < |d| ensures d[i] < |c.pieces| { assert (done + d)[|done| + i] == d[i]; }
    hide Receive, SeqOf, Front, Ahead, Assembled, Consistent, SameLap, ValidCut;
    if d == [] {
      assert done + d == done;
    } else {
      var j := d[0];
      var done' := done + [j];
      assert done' + d[1..] == done + d;
      assert (done + d)[|done|] == j && (done + d)[..|done| + 1] == done';
      assert SetOf(done') == SetOf(done) + {j};
      ReceiveAssembles(s, c, max, SetOf(done), j);
      RunAssembles(Receive(s, SeqOf(c, j), c.pieces[j], max), c, max, done', d[1..]);
    }
  }

  /** What the buffer is after any run of deliveries: the longest contiguous run of pieces from
      the first one that have arrived, whatever the order and the repetitions. */
  lemma BufferIsArrivedFront(c: Cutting, max: nat, d: seq<nat>)
    requires ValidCut(c, max) && SameLap(c) && Deliverable(c, d)
    ensures var k := Front(SetOf(d), |c.pieces|);
            k <= |c.pieces| && Deliver(FRESH, c, d, max).buf == Join(c.pieces[..k])
  {
    hide Receive, SeqOf, SameLap, ValidCut, Parks, Wrap, Fits, Join, Consistent, FrontFrom;
    var k := Front(SetOf(d), |c.pieces|);
    FrontFacts(SetOf(d), 0, |c.pieces|);
    assert d == [0] + d[1..];
    assert SetOf([0]) == {0};
    var s := Receive(FRESH, SeqOf(c, 0), c.pieces[0], max);
    FirstAssembles(c, max);
    FirstIsConsistent(c, max);
    RunAssembles(s, c, max, [0], d[1..]);
    assert Deliver(FRESH, c, d, max) == Deliver(s, c, d[1..], max);
    JoinPrefix(c, k, |c.pieces|);
    assert c.pieces[..|c.pieces|] == c.pieces;
  }

  lemma FirstIsConsistent(c: Cutting, max: nat)
    requires ValidCut(c, max)
    ensures Consistent(Receive(FRESH, SeqOf(c, 0), c.pieces[0], max), SourceOf(c), 0)
  {
    hide Receive, Join, Wrap;
    PieceFits(c, max, 0);
    WrapSmall(c.isn);
    OffEnds(c);
    ReceiveIsSafe(FRESH, SourceOf(c), 0, SeqOf(c, 0), c.pieces[0], max);
  }

  /** Each piece once, in any order that keeps the first one first. */
  ghost predicate Order(c: Cutting, d: seq<nat>) {
    && Deliverable(c, d)
    && (forall i, j | 0 <= i < j < |d| :: d[i] != d[j])
    && (forall j | 0 <= j < |c.pieces| :: j in d)
  }

  ghost predicate EveryOrderCompletes(c: Cutting, max: nat) {
    forall d :: Order(c, d) ==> Deliver(FRESH, c, d, max).buf == Whole(c)
  }

  lemma OrdersComplete(c: Cutting, max: nat, d: seq<nat>)
    requires ValidCut(c, max) && SameLap(c) && Deliverable(c, d) && forall j | 0 <= j < |c.pieces| :: j in d
    ensures Deliver(FRESH, c, d, max).buf == Whole(c)
  {
    hide Join, SameLap, ValidCut;
    BufferIsArrivedFront(c, max, d);
    FrontSkips(SetOf(d), 0, |c.pieces|, |c.pieces|);
    assert c.pieces[..|c.pieces|] == c.pieces;
  }

  // ---- Wrapped sequence numbers ------------------------------------------------------------------

  lemma FirstState(c: Cutting, max: nat)
    requires ValidCut(c, max)
    ensures var s := Receive(FRESH, SeqOf(c, 0), c.pieces[0], max);
            && s.init && s.pending == map[] && s.next == SeqOf(c, 1)
            && Off(c, 1) <= |Whole(c)| && s.buf == Whole(c)[..Off(c, 1)]
  {
    hide Join, Wrap;
    OffEnds(c);
    assert c.pieces[0] in c.pieces;
    assert Opened(FRESH, SeqOf(c, 0)).buf == Whole(c)[..0];
    ExtendByPiece(Opened(FRESH, SeqOf(c, 0)), c, max, 0);
  }

  function Following(k: nat, n: nat): seq<nat> { seq(n, i requires i >= 0 => k + i) }

  /** In order and with nothing parked, each piece is appended as it comes. */
  lemma {:induction false} InOrder(s: State, c: Cutting, max: nat, k: nat, n: nat)
    requires ValidCut(c, max) && k + n <= |c.pieces| && Off(c, k) <= |Whole(c)|
    requires s.init && s.pending == map[] && s.next == SeqOf(c, k) && s.buf == Whole(c)[..Off(c, k)]
    ensures Off(c, k + n) <= |Whole(c)|
    ensures Deliver(s, c, Following(k, n), max).buf == Whole(c)[..Off(c, k + n)]
    decreases n
  {
    hide Receive, Join, Wrap, SeqOf;
    if n > 0 {
      assert c.pieces[k] in c.pieces;
      ExtendByPiece(s, c, max, k);
      ReceiveCases(s, SeqOf(c, k), c.pieces[k], max);
      assert Following(k, n)[1..] == Following(k + 1, n - 1);
      InOrder(Extend(s, c.pieces[k]), c, max, k + 1, n - 1);
    }
  }

  /** The last piece arrives right after the first one, then the others in order. */
  function LastEarly(m: nat): seq<nat>
    requires m >= 3
  {
    [0, m - 1] + Following(1, m - 2)
  }

  /** Only the last piece is ever ahead of its turn. */
  lemma OneAhead(m: nat, i: nat)
    requires m >= 3 && 1 <= i <= |LastEarly(m)|
    ensures Ahead(SetOf(LastEarly(m)[..i]), m) <= {m - 1}
  {
    var d := LastEarly(m);
    var a := SetOf(d[..i]);
    if i >= 2 {
      forall j | 0 <= j < i - 1 ensures j in a { assert d[..i][if j == 0 then 0 else j + 1] == j; }
      FrontSkips(a, 0, i - 1, m);
      FrontFacts(a, i - 1, m);
    } else {
      assert d[..1] == [0];
    }
  }

  lemma LastEarlyIsOrder(c: Cutting)
    requires |c.pieces| >= 3
    ensures Order(c, LastEarly(|c.pieces|))
  {
    var m := |c.pieces|;
    var d := LastEarly(m);
    forall i | 1 <= i <= |d|
      ensures |Ahead(SetOf(d[..i]), m)| <= MAX_PENDING
    {
      OneAhead(m, i);
      Singleton(Ahead(SetOf(d[..i]), m), m - 1);
    }
    forall j | 0 <= j < m ensures j in d {
      assert d[if j == 0 then 0 else if j == m - 1 then 1 else j + 1] == j;
    }
  }

  lemma Singleton(a: set<nat>, x: nat)
    requires a <= {x}
    ensures |a| <= 1
  {
    if a != {} { assert a == {x}; }
  }

  /** If the numbers wrap before the last piece, it counts as old when it arrives early. */
  lemma WrappedLastIsLost(c: Cutting, max: nat)
    requires ValidCut(c, max) && !SameLap(c)
    ensures |c.pieces| >= 3
    ensures Deliver(FRESH, c, LastEarly(|c.pieces|), max).buf != Whole(c)
  {
    hide Join, Wrap, Receive;
    var m := |c.pieces|;
    var s := Receive(FRESH, SeqOf(c, 0), c.pieces[0], max);
    FirstState(c, max);
    JoinPrefix(c, 1, m - 1);
    PieceOf(c, m - 1);
    OffEnds(c);
    var delta := Off(c, m - 1) - Off(c, 1);
    WrapAgain(c.isn + Off(c, 1), delta);
    WrapOnce(SeqOf(c, 1) + delta);
    assert SeqOf(c, m - 1) == SeqOf(c, 1) + delta - SPACE;
    assert c.pieces[m - 1] in c.pieces;
    ReceiveCases(s, SeqOf(c, m - 1), c.pieces[m - 1], max);
    InOrder(s, c, max, 1, m - 2);
    var d := LastEarly(m);
    assert d[1..][1..] == Following(1, m - 2);
    assert Deliver(FRESH, c, d, max) == Deliver(s, c, d[1..], max) == Deliver(s, c, Following(1, m - 2), max);
  }

  lemma WrapOnce(x: int)
    requires SPACE <= x < 2 * SPACE
    ensures Wrap(x) == x - SPACE
  {}

  /** Exactly when reassembly is complete and independent of order: every order of arrival that
      starts with the first piece and never has more than 64 waiting gives back the whole stream
      if and only if the sequence numbers do not wrap between the second and the last piece. */
  lemma OrderIndependentIffSameLap(c: Cutting, max: nat)
    requires ValidCut(c, max)
    ensures EveryOrderCompletes(c, max) <==> SameLap(c)
  {
    hide Deliver, ValidCut;
    if SameLap(c) {
      forall d | Order(c, d) ensures Deliver(FRESH, c, d, max).buf == Whole(c) {
        OrdersComplete(c, max, d);
      }
    } else {
      WrappedLastIsLost(c, max);
      LastEarlyIsOrder(c);
    }
  }
}
