/** The access log: a ring of the last entries, queried page by page from the newest on. */
module AccessLog {
  import opened Text

  const CAPACITY := 10000

  datatype Entry = Entry(id: nat, kind: string, searchable: string)

  // ---- What a query means -----------------------------------------------------------------------

  /** Everything ever added, oldest first, numbered from one. */
  ghost predicate Numbered(log: seq<Entry>) {
    forall i :: 0 <= i < |log| ==> log[i].id == i + 1
  }

  function RetainedCount(log: seq<Entry>): nat {
    if |log| < CAPACITY then |log| else CAPACITY
  }

  /** The entries still held, newest first. */
  function Newest(log: seq<Entry>): (l: seq<Entry>)
    ensures |l| == RetainedCount(log)
  {
    seq(RetainedCount(log), i requires 0 <= i < RetainedCount(log) => log[|log| - 1 - i])
  }

  predicate HasAll(e: Entry, terms: seq<string>) {
    forall i :: 0 <= i < |terms| ==> terms[i] == "" || Contains(e.searchable, terms[i])
  }

  function Matching(l: seq<Entry>, terms: seq<string>): seq<Entry> {
    if l == [] then []
    else Matching(l[..|l| - 1], terms) + if HasAll(l[|l| - 1], terms) then [l[|l| - 1]] else []
  }

  /** Those before a cursor; zero is no cursor. */
  function Before(l: seq<Entry>, before: nat): seq<Entry> {
    if l == [] then []
    else Before(l[..|l| - 1], before) + if before == 0 || l[|l| - 1].id < before then [l[|l| - 1]] else []
  }

  function Limit(limit: int): nat { if limit < 1 || limit > 500 then 100 else limit }

  datatype Page = Page(items: seq<Entry>, total: nat, retained: nat, matched: nat, evicted: nat, next: nat)

  /** The first entries that match and lie before the cursor, and a cursor if there are more. */
  function PageOf(log: seq<Entry>, terms: seq<string>, before: nat, limit: nat): Page
    requires limit >= 1
  {
    var matching := Matching(Newest(log), terms);
    var rest := Before(matching, before);
    Page(if |rest| <= limit then rest else rest[..limit], |log|, RetainedCount(log), |matching|,
         |log| - RetainedCount(log), if |rest| <= limit then 0 else rest[limit - 1].id)
  }

  /** The items and the cursor after the entries in `rest`. */
  function Front(rest: seq<Entry>, limit: nat): (r: (seq<Entry>, nat))
    requires limit >= 1
  {
    if |rest| <= limit then (rest, 0) else (rest[..limit], rest[limit - 1].id)
  }

  // ---- Order and membership ------------------------------------------------------------------------

  ghost predicate Decreasing(l: seq<Entry>) {
    forall i, j :: 0 <= i < j < |l| ==> l[i].id > l[j].id
  }

  lemma NewestFacts(log: seq<Entry>)
    requires Numbered(log)
    ensures Decreasing(Newest(log))
    ensures forall e :: e in Newest(log) <==> e in log && e.id > |log| - RetainedCount(log)
  {
    var l := Newest(log);
    forall e | e in log && e.id > |log| - RetainedCount(log) ensures e in l {
      var k :| 0 <= k < |log| && log[k] == e;
      assert l[|log| - 1 - k] == e;
    }
    forall e | e in l ensures e in log && e.id > |log| - RetainedCount(log) {
      var i :| 0 <= i < |l| && l[i] == e;
    }
  }

  ghost predicate Above(l: seq<Entry>, last: Entry) {
    forall i :: 0 <= i < |l| ==> l[i].id > last.id
  }

  lemma DecreasingParts(l: seq<Entry>)
    requires l != []
    ensures Decreasing(l) <==> Decreasing(l[..|l| - 1]) && Above(l[..|l| - 1], l[|l| - 1])
  {}

  lemma AboveSubset(l: seq<Entry>, m: seq<Entry>, last: Entry)
    requires Above(l, last) && forall e <- m :: e in l
    ensures Above(m, last)
  {
    forall i | 0 <= i < |m| ensures m[i].id > last.id { assert m[i] in l; }
  }

  /** Adding the last element, or not, to what was kept of the front. */
  lemma KeepOrNot(l: seq<Entry>, m: seq<Entry>, keep: bool)
    requires l != [] && Decreasing(l) && Decreasing(m) && forall e <- m :: e in l[..|l| - 1]
    ensures Decreasing(m + if keep then [l[|l| - 1]] else [])
  {
    hide Above, Decreasing;
    var last := l[|l| - 1];
    DecreasingParts(l);
    AboveSubset(l[..|l| - 1], m, last);
    assert (m + [last])[..|m|] == m;
    DecreasingParts(m + [last]);
    assert m + [] == m;
  }

  lemma {:induction false} MatchingFacts(l: seq<Entry>, terms: seq<string>)
    requires Decreasing(l)
    ensures Decreasing(Matching(l, terms))
    ensures forall e :: e in Matching(l, terms) <==> e in l && HasAll(e, terms)
    decreases |l|
  {
    hide HasAll, Decreasing, Above;
    if l == [] {
      NoneDecrease();
    } else {
      DecreasingParts(l);
      var front, last := l[..|l| - 1], l[|l| - 1];
      MatchingFacts(front, terms);
      assert l == front + [last];
      KeepOrNot(l, Matching(front, terms), HasAll(last, terms));
    }
  }

  lemma NoneDecrease()
    ensures Decreasing([])
  {}

  lemma {:induction false} BeforeFacts(l: seq<Entry>, before: nat)
    requires Decreasing(l)
    ensures Decreasing(Before(l, before))
    ensures forall e :: e in Before(l, before) <==> e in l && (before == 0 || e.id < before)
    decreases |l|
  {
    hide Decreasing, Above;
    if l == [] {
      NoneDecrease();
    } else {
      DecreasingParts(l);
      var front, last := l[..|l| - 1], l[|l| - 1];
      BeforeFacts(front, before);
      assert l == front + [last];
      KeepOrNot(l, Before(front, before), before == 0 || last.id < before);
    }
  }

  ghost predicate Wanted(log: seq<Entry>, terms: seq<string>, before: nat, e: Entry) {
    e in log && e.id > |log| - RetainedCount(log) && HasAll(e, terms) && (before == 0 || e.id < before)
  }

  /** The candidates for a page, from the newest on. */
  function Candidates(log: seq<Entry>, terms: seq<string>, before: nat): seq<Entry> {
    Before(Matching(Newest(log), terms), before)
  }

  lemma CandidatesAre(log: seq<Entry>, terms: seq<string>, before: nat)
    requires Numbered(log)
    ensures Decreasing(Candidates(log, terms, before))
    ensures forall e :: e in Candidates(log, terms, before) <==> Wanted(log, terms, before, e)
  {
    hide HasAll, Matching, Before, Newest, Decreasing;
    NewestFacts(log);
    MatchingFacts(Newest(log), terms);
    BeforeFacts(Matching(Newest(log), terms), before);
  }

  lemma FrontOfDecreasing(c: seq<Entry>, limit: nat)
    requires Decreasing(c) && limit >= 1
    ensures var (items, cursor) := Front(c, limit);
            && Decreasing(items) && |items| <= limit
            && (forall e <- items :: e in c && e.id >= cursor)
            && (forall e <- c :: e in items || e.id < cursor)
            && (|c| > limit ==> items != [] && items[|items| - 1].id == cursor && c[limit] in c && c[limit].id < cursor)
  {
    if |c| > limit {
      var items := c[..limit];
      assert c == items + c[limit..];
      forall e | e in c[limit..] ensures e.id < c[limit - 1].id {
        var i :| 0 <= i < |c[limit..]| && c[limit..][i] == e;
        assert c[limit + i] == e;
      }
    }
  }

  lemma PageIs(log: seq<Entry>, terms: seq<string>, before: nat, limit: nat)
    requires limit >= 1
    ensures var p := PageOf(log, terms, before, limit);
            && (p.items, p.next) == Front(Candidates(log, terms, before), limit) && p.total == p.retained + p.evicted
  {
    hide Matching, Before, Newest;
  }

  lemma WantedIsNumbered(log: seq<Entry>, terms: seq<string>, before: nat, e: Entry)
    requires Numbered(log) && Wanted(log, terms, before, e)
    ensures 1 <= e.id <= |log| && (before == 0 || e.id < before)
    ensures forall cursor :: e.id < cursor ==> Wanted(log, terms, cursor, e)
  {
    hide HasAll;
  }

  /** A page lists wanted entries, newest first; it has a cursor exactly when wanted entries are
      left, and those are the ones below the cursor. */
  lemma PageIsFront(log: seq<Entry>, terms: seq<string>, before: nat, limit: nat)
    requires Numbered(log) && limit >= 1
    ensures var p := PageOf(log, terms, before, limit);
            && p.total == p.retained + p.evicted
            && Decreasing(p.items) && |p.items| <= limit
            && (forall e <- p.items :: Wanted(log, terms, before, e) && e.id >= p.next)
            && (forall e :: Wanted(log, terms, before, e) ==> e in p.items || (p.next != 0 && e.id < p.next))
            && (p.next != 0 ==> p.items != [] && p.items[|p.items| - 1].id == p.next && (before == 0 || p.next < before))
            && (p.next != 0 ==> exists e :: Wanted(log, terms, p.next, e))
  {
    hide Candidates, PageOf, Decreasing, Numbered, Wanted;
    CandidatesAre(log, terms, before);
    PageIs(log, terms, before, limit);
    var c := Candidates(log, terms, before);
    FrontOfDecreasing(c, limit);
    var p := PageOf(log, terms, before, limit);
    if |c| > limit {
      assert p.items[|p.items| - 1] in p.items;
      WantedIsNumbered(log, terms, before, p.items[|p.items| - 1]);
      WantedIsNumbered(log, terms, before, c[limit]);
      assert Wanted(log, terms, p.next, c[limit]);
    }
  }

  // ---- Following the cursor --------------------------------------------------------------------------

  /** The log as it stands at each query of a session; entries may be added in between. */
  ghost predicate Growing(logs: seq<seq<Entry>>) {
    && (forall i :: 0 <= i < |logs| ==> Numbered(logs[i]))
    && forall i :: 0 < i < |logs| ==> logs[i - 1] <= logs[i]
  }

  /** What a session lists: page after page, each at the cursor of the one before, until there is
      no cursor. */
  function Listing(logs: seq<seq<Entry>>, terms: seq<string>, before: nat, limit: nat): seq<Entry>
    requires limit >= 1
    decreases |logs|
  {
    if logs == [] then []
    else
      var p := PageOf(logs[0], terms, before, limit);
      p.items + if p.next == 0 then [] else Listing(logs[1..], terms, p.next, limit)
  }

  /** The session reached a page without a cursor. */
  predicate Finished(logs: seq<seq<Entry>>, terms: seq<string>, before: nat, limit: nat)
    requires limit >= 1
    decreases |logs|
  {
    logs != [] &&
    var p := PageOf(logs[0], terms, before, limit);
    p.next == 0 || Finished(logs[1..], terms, p.next, limit)
  }

  // ---- Counts ----------------------------------------------------------------------------------------

  /** A term is looked for anywhere in the text; an empty one is no term. */
  lemma TermsMean(e: Entry, terms: seq<string>)
    ensures HasAll(e, terms) <==>
              forall i :: 0 <= i < |terms| ==> terms[i] == "" || exists k: nat :: OccursAt(e.searchable, terms[i], k)
  {
    hide IndexOf, OccursAt;
    forall i | 0 <= i < |terms| && terms[i] != ""
      ensures Contains(e.searchable, terms[i]) <==> exists k: nat :: OccursAt(e.searchable, terms[i], k)
    {
      if IndexOf(e.searchable, terms[i]) >= 0 { IndexOfOccurs(e.searchable, terms[i]); }
      if k: nat :| OccursAt(e.searchable, terms[i], k) { IndexOfIsFirst(e.searchable, terms[i], k); }
    }
  }

  lemma {:induction false} MatchingIsShort(l: seq<Entry>, terms: seq<string>)
    ensures |Matching(l, terms)| <= |l|
    decreases |l|
  {
    hide HasAll;
    if l != [] { MatchingIsShort(l[..|l| - 1], terms); }
  }

  lemma {:induction false} BeforeNothing(l: seq<Entry>)
    ensures Before(l, 0) == l
    decreases |l|
  {
    if l != [] {
      BeforeNothing(l[..|l| - 1]);
      assert l == l[..|l| - 1] + [l[|l| - 1]];
    }
  }

  /** The numbers beside a page: everything ever added, of which the last ten thousand are held and the others
      evicted, and how many of those held match - wherever the cursor stands. */
  lemma PageCounts(log: seq<Entry>, terms: seq<string>, before: nat, limit: nat)
    requires limit >= 1
    ensures var p := PageOf(log, terms, before, limit); var all := PageOf(log, terms, 0, 10000);
            && p.total == |log| && p.retained == (if |log| < 10000 then |log| else 10000)
            && p.evicted + p.retained == p.total && p.matched == |all.items| && all.next == 0
  {
    hide Matching, Before, Newest;
    MatchingIsShort(Newest(log), terms);
    BeforeNothing(Matching(Newest(log), terms));
  }

  /** A limit between one and five hundred is taken, any other is a hundred. */
  lemma LimitIs(limit: int)
    ensures 1 <= limit <= 500 ==> Limit(limit) == limit
    ensures !(1 <= limit <= 500) ==> Limit(limit) == 100
  {}


  lemma GrowingTail(logs: seq<seq<Entry>>)
    requires Growing(logs) && logs != []
    ensures Growing(logs[1..]) && Numbered(logs[0])
    ensures |logs| > 1 ==> logs[0] <= logs[1]
  {
    forall i | 0 < i < |logs[1..]| ensures logs[1..][i - 1] <= logs[1..][i] {
      assert logs[1..][i - 1] == logs[i] && logs[1..][i] == logs[i + 1];
    }
  }

  lemma DecreasingConcat(a: seq<Entry>, b: seq<Entry>, cursor: nat)
    requires Decreasing(a) && Decreasing(b) && (forall e <- a :: e.id >= cursor) && (forall e <- b :: e.id < cursor)
    ensures Decreasing(a + b)
  {
    forall i, j | 0 <= i < j < |a + b| ensures (a + b)[i].id > (a + b)[j].id {
      if i < |a| { assert a[i] in a; }
      if j >= |a| { assert b[j - |a|] in b; }
    }
  }

  /** With adds between the queries, ids still strictly decrease over the whole session, so nothing
      is listed twice, and every entry listed matches and lies before the first cursor. */
  lemma {:induction false} ListingDecreases(logs: seq<seq<Entry>>, terms: seq<string>, before: nat, limit: nat)
    requires Growing(logs) && limit >= 1
    ensures var l := Listing(logs, terms, before, limit);
            && Decreasing(l)
            && forall e <- l :: HasAll(e, terms) && (before == 0 || e.id < before)
    decreases |logs|
  {
    hide PageOf, HasAll, Decreasing, Growing, Numbered, RetainedCount;
    if logs == [] {
      NoneDecrease();
    } else {
      GrowingTail(logs);
      PageIsFront(logs[0], terms, before, limit);
      var p := PageOf(logs[0], terms, before, limit);
      assert p.items + [] == p.items;
      if p.next != 0 {
        ListingDecreases(logs[1..], terms, p.next, limit);
        DecreasingConcat(p.items, Listing(logs[1..], terms, p.next, limit), p.next);
      }
    }
  }

  lemma WantedLater(log: seq<Entry>, later: seq<Entry>, terms: seq<string>, before: nat, e: Entry)
    requires log <= later && Wanted(log, terms, before, e)
    ensures e in later && (e.id > |later| - RetainedCount(later) ==> Wanted(later, terms, before, e))
  {
    hide HasAll;
  }

  /** Whether an entry leaves the ring before the session ends. */
  ghost predicate Evicted(logs: seq<seq<Entry>>, e: Entry) {
    exists i :: 0 <= i < |logs| && e.id <= |logs[i]| - RetainedCount(logs[i])
  }

  /** A finished session misses only entries that were evicted while it ran: every other entry that
      was held and matched at the first query is listed. */
  lemma {:induction false} OnlyEvictedAreMissed(logs: seq<seq<Entry>>, terms: seq<string>, before: nat, limit: nat, e: Entry)
    requires Growing(logs) && limit >= 1 && Finished(logs, terms, before, limit)
    requires Wanted(logs[0], terms, before, e)
    ensures e in Listing(logs, terms, before, limit) || Evicted(logs, e)
    decreases |logs|
  {
    hide PageOf, HasAll, Decreasing, Growing, Numbered, RetainedCount, Wanted;
    GrowingTail(logs);
    PageIsFront(logs[0], terms, before, limit);
    var p := PageOf(logs[0], terms, before, limit);
    if e !in p.items {
      WantedBelow(logs[0], terms, before, p.next, e);
      WantedLater(logs[0], logs[1], terms, p.next, e);
      if e.id > |logs[1]| - RetainedCount(logs[1]) {
        assert logs[1..][0] == logs[1];
        OnlyEvictedAreMissed(logs[1..], terms, p.next, limit, e);
        EvictedLater(logs, e);
      } else {
        assert Evicted(logs, e);
      }
    }
  }

  lemma WantedBelow(log: seq<Entry>, terms: seq<string>, before: nat, cursor: nat, e: Entry)
    requires Wanted(log, terms, before, e) && e.id < cursor
    ensures Wanted(log, terms, cursor, e)
  {
    hide HasAll;
  }

  lemma EvictedLater(logs: seq<seq<Entry>>, e: Entry)
    requires logs != []
    ensures Evicted(logs[1..], e) ==> Evicted(logs, e)
  {
    if Evicted(logs[1..], e) {
      var i :| 0 <= i < |logs[1..]| && e.id <= |logs[1..][i]| - RetainedCount(logs[1..][i]);
      assert logs[i + 1] == logs[1..][i];
    }
  }

  // ---- A log that stands still ----------------------------------------------------------------------

  lemma StillIsGrowing(log: seq<Entry>, queries: nat)
    requires Numbered(log)
    ensures Growing(seq(queries, _ => log))
  {
    hide Numbered;
  }

  /** Without adds the session ends, after at most as many queries as there are entries. */
  lemma {:induction false} SessionEnds(log: seq<Entry>, terms: seq<string>, before: nat, limit: nat, queries: nat)
    requires Numbered(log) && limit >= 1 && queries >= 1 && queries >= (if before == 0 then |log| else before - 1)
    ensures Finished(seq(queries, _ => log), terms, before, limit)
    decreases queries
  {
    hide PageOf, HasAll, Decreasing, Numbered, RetainedCount, Wanted;
    var logs := seq(queries, _ => log);
    PageIsFront(log, terms, before, limit);
    var p := PageOf(log, terms, before, limit);
    assert logs[1..] == seq(queries - 1, _ => log);
    if p.next != 0 {
      assert p.items[|p.items| - 1] in p.items;
      CursorIsSmall(log, terms, before, p.items[|p.items| - 1]);
      var e :| Wanted(log, terms, p.next, e);
      CursorIsLarge(log, terms, p.next, e);
      SessionEnds(log, terms, p.next, limit, queries - 1);
    }
  }

  lemma CursorIsLarge(log: seq<Entry>, terms: seq<string>, cursor: nat, e: Entry)
    requires Wanted(log, terms, cursor, e) && cursor != 0
    ensures cursor >= 2
  {
    hide HasAll;
  }

  lemma CursorIsSmall(log: seq<Entry>, terms: seq<string>, before: nat, e: Entry)
    requires Numbered(log) && Wanted(log, terms, before, e)
    ensures e.id <= |log|
  {
    hide HasAll;
  }

  /** Then it lists every matching entry held, newest first, exactly once - and nothing else. */
  lemma PagingListsAll(log: seq<Entry>, terms: seq<string>, limit: nat, queries: nat)
    requires Numbered(log) && limit >= 1 && queries >= 1 && queries >= |log|
    ensures var l := Listing(seq(queries, _ => log), terms, 0, limit);
            Decreasing(l) && forall e :: e in l <==> Wanted(log, terms, 0, e)
  {
    hide PageOf, HasAll, Decreasing, Numbered, Wanted, Listing, Finished, Growing;
    var logs := seq(queries, _ => log);
    StillIsGrowing(log, queries);
    SessionEnds(log, terms, 0, limit, queries);
    ListingDecreases(logs, terms, 0, limit);
    assert logs[0] == log;
    forall e | Wanted(log, terms, 0, e) ensures e in Listing(logs, terms, 0, limit) {
      OnlyEvictedAreMissed(logs, terms, 0, limit, e);
      StillHeld(log, terms, e, queries);
    }
    forall e | e in Listing(logs, terms, 0, limit) ensures Wanted(log, terms, 0, e) {
      ListedAreWanted(log, terms, 0, limit, queries, e);
    }
  }

  lemma StillHeld(log: seq<Entry>, terms: seq<string>, e: Entry, queries: nat)
    requires Wanted(log, terms, 0, e)
    ensures !Evicted(seq(queries, _ => log), e)
  {
    hide HasAll;
  }

  lemma {:induction false} ListedAreWanted(log: seq<Entry>, terms: seq<string>, before: nat, limit: nat, queries: nat, e: Entry)
    requires Numbered(log) && limit >= 1 && e in Listing(seq(queries, _ => log), terms, before, limit)
    ensures Wanted(log, terms, 0, e)
    decreases queries
  {
    hide PageOf, HasAll, Decreasing, Numbered, Wanted;
    PageIsFront(log, terms, before, limit);
    var p := PageOf(log, terms, before, limit);
    var logs := seq(queries, _ => log);
    assert logs[1..] == seq(queries - 1, _ => log);
    if e in p.items {
      AnyCursor(log, terms, before, e);
    } else {
      ListedAreWanted(log, terms, p.next, limit, queries - 1, e);
    }
  }

  lemma AnyCursor(log: seq<Entry>, terms: seq<string>, before: nat, e: Entry)
    requires Wanted(log, terms, before, e)
    ensures Wanted(log, terms, 0, e)
  {
    hide HasAll;
  }

  // ---- The ring --------------------------------------------------------------------------------------

  /** Entry number `j` (from zero) of the log lies at `j` modulo the capacity. */
  ghost predicate Holds(entries: seq<Entry>, log: seq<Entry>) {
    && |entries| == RetainedCount(log)
    && forall j :: |log| - |entries| <= j < |log| ==> entries[j % CAPACITY] == log[j]
  }

  lemma ModInside(j: nat)
    ensures j % CAPACITY < CAPACITY && (j < CAPACITY ==> j % CAPACITY == j)
    ensures (j + 1) % CAPACITY == if j % CAPACITY == CAPACITY - 1 then 0 else j % CAPACITY + 1
  {}

  /** Writing the next entry overwrites exactly the oldest one. */
  lemma AddHolds(entries: seq<Entry>, log: seq<Entry>, e: Entry)
    requires Holds(entries, log)
    ensures var at := |log| % CAPACITY;
            && (|entries| < CAPACITY ==> at == |entries| && Holds(entries + [e], log + [e]))
            && (|entries| == CAPACITY ==> at < |entries| && Holds(entries[at := e], log + [e]))
  {
    var at := |log| % CAPACITY;
    if |entries| == CAPACITY {
      forall j | |log| + 1 - CAPACITY <= j < |log| + 1
        ensures entries[at := e][j % CAPACITY] == (log + [e])[j]
      {
        if j < |log| { SameSlotOnlyOnce(j, |log|); }
      }
    }
  }

  lemma SameSlotOnlyOnce(j: nat, k: nat)
    requires j < k < j + CAPACITY
    ensures j % CAPACITY != k % CAPACITY
  {}

  lemma HeldAt(entries: seq<Entry>, log: seq<Entry>, j: nat)
    requires Holds(entries, log) && |log| - |entries| <= j < |log|
    ensures |entries| == RetainedCount(log) && j % CAPACITY < |entries| && entries[j % CAPACITY] == log[j]
  {
    ModInside(j);
  }

  lemma NewestAt(log: seq<Entry>, i: nat)
    requires i < RetainedCount(log)
    ensures Newest(log)[i] == log[|log| - 1 - i]
  {}

  /** The slot a query visits in its `i`-th round holds the `i`-th newest entry. */
  lemma SlotIsNewest(entries: seq<Entry>, log: seq<Entry>, i: nat)
    requires Holds(entries, log) && i < |entries|
    ensures var at := (|log| % CAPACITY - 1 - i + |entries|) % |entries|;
            0 <= at < |entries| && entries[at] == Newest(log)[i]
  {
    hide Holds, Newest;
    HoldsSize(entries, log);
    var j := |log| - 1 - i;
    HeldAt(entries, log, j);
    NewestAt(log, i);
    if |entries| < CAPACITY {
      AddedOnce(j, |entries|);
      ModInside(j);
      ModInside(|log|);
    } else {
      SlotInFull(|log|, i);
    }
  }

  lemma AddedOnce(j: nat, n: nat)
    requires j < n
    ensures (j + n) % n == j
  {}

  lemma SlotInFull(n: nat, i: nat)
    requires i < CAPACITY <= n
    ensures (n % CAPACITY - 1 - i + CAPACITY) % CAPACITY == (n - 1 - i) % CAPACITY
  {}

  lemma MatchingSnoc(l: seq<Entry>, e: Entry, terms: seq<string>)
    ensures Matching(l + [e], terms) == Matching(l, terms) + if HasAll(e, terms) then [e] else []
  {
    hide HasAll;
    assert (l + [e])[..|l|] == l;
  }

  lemma BeforeSnoc(l: seq<Entry>, e: Entry, before: nat)
    ensures Before(l + [e], before) == Before(l, before) + if before == 0 || e.id < before then [e] else []
  {
    assert (l + [e])[..|l|] == l;
  }

  lemma FrontSnoc(rest: seq<Entry>, e: Entry, limit: nat)
    requires limit >= 1
    ensures var (items, cursor) := Front(rest, limit);
            Front(rest + [e], limit) ==
            if |items| < limit then (items + [e], 0) else (items, items[|items| - 1].id)
  {
    if |rest| >= limit { assert (rest + [e])[..limit] == rest[..limit]; assert |rest| == limit ==> rest[..limit] == rest; }
  }

  lemma HoldsSize(entries: seq<Entry>, log: seq<Entry>)
    requires Holds(entries, log)
    ensures |entries| == RetainedCount(log)
  {}

  lemma NumberedSnoc(log: seq<Entry>, e: Entry)
    requires Numbered(log) && e.id == |log| + 1
    ensures Numbered(log + [e])
  {}

  lemma NothingYet(terms: seq<string>, before: nat)
    ensures Matching([], terms) == [] && Before([], before) == []
  {}

  class Ring {
    var entries: seq<Entry>
    var next: nat
    var total: nat
    /** Everything ever added. */
    ghost var log: seq<Entry>

    ghost predicate Valid()
      reads this
    {
      Numbered(log) && Holds(entries, log) && total == |log| && next == |log| % CAPACITY
    }

    constructor ()
      ensures Valid() && log == []
    {
      entries, next, total, log := [], 0, 0, [];
    }

    method Add(kind: string, searchable: string)
      requires Valid()
      modifies this
      ensures Valid() && log == old(log) + [Entry(|old(log)| + 1, kind, searchable)]
    {
      hide Numbered, Holds;
      total := total + 1;
      var e := Entry(total, kind, searchable);
      AddHolds(entries, log, e);
      ModInside(|log|);
      HoldsSize(entries, log);
      NumberedSnoc(log, e);
      if |entries| < CAPACITY {
        entries := entries + [e];
      } else {
        entries := entries[next := e];
      }
      next := (next + 1) % CAPACITY;
      ModInside(next);
      log := log + [e];
    }

    method Query(query: string, before: nat, limit: int) returns (page: Page)
      requires Valid()
      ensures page == PageOf(log, Words(Lower(query)), before, Limit(limit))
    {
      hide Numbered, Holds, Words, HasAll, Newest, Matching, Before;
      var lim := Limit(limit);
      var terms := Words(Lower(query));
      var items: seq<Entry> := [];
      var matched, cursor := 0, 0;
      HoldsSize(entries, log);
      ghost var l := Newest(log);
      NothingYet(terms, before);
      assert l[..0] == [];
      for i := 0 to |entries|
        invariant matched == |Matching(l[..i], terms)|
        invariant (items, cursor) == Front(Before(Matching(l[..i], terms), before), lim)
      {
        SlotIsNewest(entries, log, i);
        var e := entries[(next - 1 - i + |entries|) % |entries|];
        assert l[..i + 1] == l[..i] + [e];
        MatchingSnoc(l[..i], e, terms);
        ghost var m := Matching(l[..i], terms);
        if !HasAll(e, terms) {
          assert m + [] == m;
          continue;
        }
        matched := matched + 1;
        BeforeSnoc(m, e, before);
        ghost var rest := Before(m, before);
        if before != 0 && e.id >= before {
          assert rest + [] == rest;
          continue;
        }
        FrontSnoc(rest, e, lim);
        if |items| < lim {
          items := items + [e];
        } else if cursor == 0 {
          cursor := items[|items| - 1].id;
        }
      }
      assert l[..|entries|] == l;
      page := Page(items, total, |entries|, matched, total - |entries|, cursor);
    }
  }
}
