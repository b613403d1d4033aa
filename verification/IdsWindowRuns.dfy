/** What the compacted lists hold over any run and any packet times: the exact law, and when it is the
    naive window. */
module IdsWindowRuns {
  import opened IdsWindow

  // ---- Parts of a history ------------------------------------------------------------------------

  /** The elements at these positions, in their order. */
  function Pick<T>(s: seq<T>, ids: set<nat>): seq<T> {
    if s == [] then []
    else Pick(s[..|s| - 1], ids) + if |s| - 1 in ids then [s[|s| - 1]] else []
  }

  function Below(ids: set<nat>, n: nat): set<nat> { set i | i in ids && i < n }
  function Above(ids: set<nat>, i: nat): set<nat> { set j | j in ids && j > i }

  lemma {:induction false} PickSame<T>(s: seq<T>, a: set<nat>, b: set<nat>)
    requires Below(a, |s|) == Below(b, |s|)
    ensures Pick(s, a) == Pick(s, b)
    decreases |s|
  {
    if s != [] {
      var n := |s| - 1;
      assert n in a <==> n in Below(a, |s|);
      assert n in b <==> n in Below(b, |s|);
      assert Below(a, n) == Below(Below(a, |s|), n) && Below(b, n) == Below(Below(b, |s|), n);
      PickSame(s[..n], a, b);
    }
  }

  lemma BelowStep(ids: set<nat>, n: nat)
    ensures Below(ids, n + 1) == Below(ids, n) + if n in ids then {n} else {}
    ensures n !in Below(ids, n)
  {}

  lemma {:induction false} PickSize<T>(s: seq<T>, ids: set<nat>)
    ensures |Pick(s, ids)| == |Below(ids, |s|)|
    decreases |s|
  {
    if s == [] {
      assert Below(ids, 0) == {};
    } else {
      PickSize(s[..|s| - 1], ids);
      BelowStep(ids, |s| - 1);
    }
  }

  lemma {:induction false} PickHas<T>(s: seq<T>, ids: set<nat>, x: T)
    ensures x in Pick(s, ids) <==> exists i :: 0 <= i < |s| && i in ids && s[i] == x
    decreases |s|
  {
    if s != [] {
      var front := s[..|s| - 1];
      PickHas(front, ids, x);
      if i :| 0 <= i < |front| && i in ids && front[i] == x { assert s[i] == x; }
      if i :| 0 <= i < |s| && i in ids && s[i] == x { assert i < |front| ==> front[i] == x; }
    }
  }

  lemma PickStep<T>(s: seq<T>, ids: set<nat>)
    requires s != []
    ensures var n := |s| - 1;
            Pick(s, ids) == if n in ids then Pick(s[..n], ids) + [s[n]] else Pick(s[..n], ids)
  {}

  function RecentIds<T>(events: seq<Event<T>>, cut: int): set<nat> {
    set i | 0 <= i < |events| && events[i].t >= cut
  }

  /** Compacting picked events picks those that are recent too. */
  lemma {:induction false} RecentOfPick<T>(events: seq<Event<T>>, ids: set<nat>, cut: int)
    ensures Recent(Pick(events, ids), cut) == Pick(events, ids * RecentIds(events, cut))
    decreases |events|
  {
    hide Pick, Recent;
    if events == [] {
      NothingPicked(events, ids);
      NothingPicked(events, ids * RecentIds(events, cut));
      NothingRecent<T>(cut);
    } else {
      var n := |events| - 1;
      var front, last := events[..n], events[n];
      RecentOfPick(front, ids, cut);
      RecentFront(events, ids, cut);
      PickStep(events, ids);
      PickStep(events, ids * RecentIds(events, cut));
      if n in ids { RecentSnoc(Pick(front, ids), last, cut); }
    }
  }

  lemma NothingPicked<T>(s: seq<T>, ids: set<nat>)
    requires s == []
    ensures Pick(s, ids) == []
  {}

  lemma RecentFront<T>(events: seq<Event<T>>, ids: set<nat>, cut: int)
    requires events != []
    ensures var n := |events| - 1;
            Pick(events[..n], ids * RecentIds(events, cut)) == Pick(events[..n], ids * RecentIds(events[..n], cut))
    ensures |events| - 1 in RecentIds(events, cut) <==> events[|events| - 1].t >= cut
  {
    hide Pick;
    var n := |events| - 1;
    PickSame(events[..n], ids * RecentIds(events, cut), ids * RecentIds(events[..n], cut));
  }

  lemma RecentSnoc<T>(list: seq<Event<T>>, e: Event<T>, cut: int)
    ensures Recent(list + [e], cut) == Recent(list, cut) + if e.t >= cut then [e] else []
  {
    assert (list + [e])[..|list|] == list;
  }

  lemma RecentIsPick<T>(events: seq<Event<T>>, cut: int)
    ensures Recent(events, cut) == Pick(events, RecentIds(events, cut))
  {
    hide Recent, Pick;
    var all := UpTo(|events|);
    InUpTo(|events|);
    PickAll(events, all);
    RecentOfPick(events, all, cut);
    assert all * RecentIds(events, cut) == RecentIds(events, cut);
  }

  function UpTo(n: nat): set<nat> { if n == 0 then {} else UpTo(n - 1) + {n - 1} }

  lemma {:induction false} InUpTo(n: nat)
    ensures forall i: nat :: i in UpTo(n) <==> i < n
    decreases n
  {
    if n > 0 { InUpTo(n - 1); }
  }

  lemma {:induction false} PickAll<T>(s: seq<T>, ids: set<nat>)
    requires forall i: nat :: i < |s| ==> i in ids
    ensures Pick(s, ids) == s
    decreases |s|
  {
    if s != [] { PickAll(s[..|s| - 1], ids); }
  }

  /** The positions that have fewer than `n` picked ones behind them. */
  function Newest(ids: set<nat>, n: nat): set<nat> { set i | i in ids && |Above(ids, i)| < n }

  /** The last `n` of the picked elements. */
  lemma {:induction false} LastOfPick<T>(s: seq<T>, ids: set<nat>, n: nat)
    requires ids == Below(ids, |s|)
    ensures LastOf(Pick(s, ids), n) == Pick(s, Newest(ids, n))
    decreases |s|
  {
    if n == 0 {
      assert Newest(ids, 0) == {};
      PickNone(s);
      PickSize(s, ids);
    } else if s == [] {
      NothingLast(s, n);
    } else {
      var last := |s| - 1;
      var front := s[..last];
      var rest := ids - {last};
      assert rest == Below(rest, last);
      if last in ids {
        LastOfPick(front, rest, n - 1);
        PickSame(front, ids, rest);
        NewestStep(ids, last, n);
        PickSame(front, Newest(ids, n), Newest(rest, n - 1));
        LastOfSnoc(Pick(front, rest), s[last], n);
      } else {
        assert rest == ids;
        LastOfPick(front, ids, n);
        assert last !in Newest(ids, n);
      }
    }
  }

  lemma NothingLast<T>(s: seq<T>, n: nat)
    requires s == []
    ensures LastOf(s, n) == []
  {}

  lemma {:induction false} PickNone<T>(s: seq<T>)
    ensures Pick(s, {}) == []
    decreases |s|
  {
    if s != [] { PickNone(s[..|s| - 1]); }
  }

  lemma LastOfSnoc<T>(s: seq<T>, x: T, n: nat)
    requires n > 0
    ensures LastOf(s + [x], n) == LastOf(s, n - 1) + [x]
  {}

  lemma NewestStep(ids: set<nat>, last: nat, n: nat)
    requires n > 0 && last in ids && forall i <- ids :: i <= last
    ensures last in Newest(ids, n)
    ensures Below(Newest(ids, n), last) == Below(Newest(ids - {last}, n - 1), last)
  {
    assert Above(ids, last) == {};
    forall i | i in ids && i < last ensures |Above(ids, i)| == |Above(ids - {last}, i)| + 1 {
      assert Above(ids, i) == Above(ids - {last}, i) + {last};
    }
  }

  lemma {:induction false} NewestSize(ids: set<nat>, n: nat)
    ensures |Newest(ids, n)| == if |ids| > n then n else |ids|
    decreases |ids|
  {
    if n == 0 {
      assert Newest(ids, 0) == {};
    } else if ids == {} {
      assert Newest(ids, n) == {};
    } else {
      var last := Greatest(ids);
      NewestSize(ids - {last}, n - 1);
      NewestGrows(ids, last, n);
    }
  }

  lemma NewestGrows(ids: set<nat>, last: nat, n: nat)
    requires n > 0 && last in ids && forall i <- ids :: i <= last
    ensures |Newest(ids, n)| == |Newest(ids - {last}, n - 1)| + 1
  {
    hide Above;
    NewestStep(ids, last, n);
    var rest := ids - {last};
    assert Newest(ids, n) == Below(Newest(ids, n), last) + {last};
    assert Newest(rest, n - 1) == Below(Newest(rest, n - 1), last);
  }

  lemma {:induction false} Greatest(ids: set<nat>) returns (m: nat)
    requires ids != {}
    ensures m in ids && forall i <- ids :: i <= m
    decreases |ids|
  {
    var first :| first in ids;
    var rest := ids - {first};
    m := first;
    if rest != {} {
      var k := Greatest(rest);
      if k > first { m := k; }
    }
    forall i | i in ids ensures i <= m { assert i == first || i in rest; }
  }

  lemma SubsetSize<T>(a: set<T>, b: set<T>)
    requires a <= b
    ensures |a| <= |b| && (|a| == |b| ==> a == b)
  {
    assert b == a + (b - a);
    if |a| == |b| {
      assert b - a == {};
      forall x | x in b ensures x in a { assert x !in b - a; }
    }
  }

  // ---- What a list holds ----------------------------------------------------------------------------

  /** No cut, from the event's own to the last, lies behind the event. */
  predicate Live<T>(events: seq<Event<T>>, window: nat, i: nat) {
    i < |events| && forall m :: i <= m < |events| ==> events[i].t >= events[m].t - window
  }

  function LiveIds<T>(events: seq<Event<T>>, window: nat): set<nat> {
    set i: nat | i < |events| && Live(events, window, i)
  }

  /** At no point from the event on was it behind a cut, and at none were there 50000 live events
      behind it. */
  predicate Held<T>(events: seq<Event<T>>, window: nat, i: nat) {
    && i < |events|
    && forall m :: i < m <= |events| ==>
         Live(events[..m], window, i) && |Above(LiveIds(events[..m], window), i)| < 50000
  }

  function HeldIds<T>(events: seq<Event<T>>, window: nat): set<nat> {
    set i: nat | i < |events| && Held(events, window, i)
  }

  lemma LiveStep<T>(events: seq<Event<T>>, window: nat, i: nat)
    requires i + 1 < |events|
    ensures var n := |events| - 1;
            Live(events, window, i) <==> Live(events[..n], window, i) && events[i].t >= events[n].t - window
  {
    var n := |events| - 1;
    var front := events[..n];
    if Live(front, window, i) && events[i].t >= events[n].t - window {
      forall m | i <= m < |events| ensures events[i].t >= events[m].t - window {
        if m < n { assert front[m] == events[m] && front[i].t >= front[m].t - window; }
      }
    }
  }

  lemma HeldStep<T>(events: seq<Event<T>>, window: nat, i: nat)
    requires i < |events|
    ensures var n := |events| - 1;
            Held(events, window, i) <==>
              && (i < n ==> Held(events[..n], window, i))
              && Live(events, window, i) && |Above(LiveIds(events, window), i)| < 50000
  {
    hide Live, LiveIds, Above;
    var n := |events| - 1;
    var front := events[..n];
    assert events[..|events|] == events;
    forall m | i < m <= n ensures front[..m] == events[..m] {}
  }

  lemma LastIsLive<T>(events: seq<Event<T>>, window: nat)
    requires events != []
    ensures Live(events, window, |events| - 1) && Held(events, window, |events| - 1)
  {
    hide Held;
    assert Above(LiveIds(events, window), |events| - 1) == {};
    HeldStep(events, window, |events| - 1);
  }

  /** A live event behind a held one is held. */
  lemma {:induction false} LaterIsHeld<T>(events: seq<Event<T>>, window: nat, i: nat, j: nat)
    requires i < j < |events| && Held(events, window, i) && Live(events, window, j)
    ensures Held(events, window, j)
    decreases |events|
  {
    hide Held, Live;
    HeldStep(events, window, i);
    HeldStep(events, window, j);
    var live := LiveIds(events, window);
    SubsetSize(Above(live, j), Above(live, i));
    if j + 1 < |events| {
      LiveStep(events, window, j);
      LaterIsHeld(events[..|events| - 1], window, i, j);
    }
  }

  /** Held before, and in the window of the last event. */
  function CompactIds<T>(events: seq<Event<T>>, window: nat): set<nat>
    requires events != []
  {
    var n := |events| - 1;
    (HeldIds(events[..n], window) + {n}) * RecentIds(events, events[n].t - window)
  }

  /** What is left after compaction, by position: held so far, and live now. */
  lemma Compacted<T>(events: seq<Event<T>>, window: nat, i: nat)
    requires events != [] && i < |events|
    ensures var n := |events| - 1;
            i in CompactIds(events, window) <==> (i == n || Held(events[..n], window, i)) && Live(events, window, i)
  {
    hide Held, Live;
    var n := |events| - 1;
    LastIsLive(events, window);
    if i < n {
      LiveStep(events, window, i);
      if Held(events[..n], window, i) { HeldStep(events[..n], window, i); }
    }
  }

  lemma CompactedNewest<T>(events: seq<Event<T>>, window: nat)
    requires events != []
    ensures Newest(CompactIds(events, window), 50000) == HeldIds(events, window)
  {
    hide Held, Live, Above, RecentIds;
    var n := |events| - 1;
    var ids := CompactIds(events, window);
    forall i: nat | i < |events| ensures i in Newest(ids, 50000) <==> Held(events, window, i) {
      Compacted(events, window, i);
      HeldStep(events, window, i);
      if i in ids { SameAbove(events, window, i); }
    }
    forall i | i in ids ensures i < |events| {}
  }

  lemma SameAbove<T>(events: seq<Event<T>>, window: nat, i: nat)
    requires i < |events| && Live(events, window, i) && (i + 1 == |events| || Held(events[..|events| - 1], window, i))
    ensures Above(CompactIds(events, window), i) == Above(LiveIds(events, window), i)
  {
    hide Held, Live, HeldIds, RecentIds;
    var n := |events| - 1;
    var ids := CompactIds(events, window);
    forall j: nat | i < j < |events| ensures j in ids <==> Live(events, window, j) {
      Compacted(events, window, j);
      if Live(events, window, j) && j < n {
        LiveStep(events, window, j);
        LaterIsHeld(events[..n], window, i, j);
      }
    }
    IdsInside(events, window);
  }

  lemma IdsInside<T>(events: seq<Event<T>>, window: nat)
    requires events != []
    ensures forall i <- CompactIds(events, window) :: i < |events|
  {
    hide Held;
  }

  /** One update, whatever the times: from the events held before to those held after. */
  lemma WindowStep<T>(history: seq<Event<T>>, e: Event<T>, window: nat)
    ensures var all := history + [e];
            Observed(Pick(history, HeldIds(history, window)), e, window) == Pick(all, HeldIds(all, window))
  {
    hide Pick, HeldIds, RecentIds, Recent, LastOf, Newest, Observed;
    var all, n := history + [e], |history|;
    assert all[..n] == history && all[n] == e;
    var held := HeldIds(history, window);
    var ids := CompactIds(all, window);
    PickSnoc(history, e, held);
    RecentOfPick(all, held + {n}, e.t - window);
    IdsInside(all, window);
    Inside(ids, |all|);
    LastOfPick(all, ids, 50000);
    CompactedNewest(all, window);
    ObservedIs(Pick(history, held), e, window);
  }

  lemma ObservedIs<T>(list: seq<Event<T>>, e: Event<T>, window: nat)
    ensures Observed(list, e, window) == LastOf(Recent(list + [e], e.t - window), 50000)
  {}

  lemma Inside(ids: set<nat>, n: nat)
    requires forall i <- ids :: i < n
    ensures ids == Below(ids, n)
  {}

  lemma PickSnoc<T>(s: seq<T>, x: T, ids: set<nat>)
    ensures Pick(s + [x], ids + {|s|}) == Pick(s, ids) + [x]
  {
    assert (s + [x])[..|s|] == s;
    PickSame(s, ids + {|s|}, ids);
  }

  /** The general law, for any packet times and with the cap: the list holds exactly the events that
      were never behind a cut and never had 50000 live events behind them. */
  lemma {:induction false} RunIsHeld<T>(events: seq<Event<T>>, window: nat)
    ensures Run(events, window) == Pick(events, HeldIds(events, window))
    decreases |events|
  {
    hide Held, Observed;
    if events != [] {
      var front, last := events[..|events| - 1], events[|events| - 1];
      assert events == front + [last];
      RunIsHeld(front, window);
      WindowStep(front, last, window);
    }
  }

  // ---- When the list is the window ----------------------------------------------------------------

  /** Positions of the last 50000 events of the window. */
  function WindowIds<T>(events: seq<Event<T>>, cut: int): set<nat> { Newest(RecentIds(events, cut), 50000) }

  lemma WindowIsPick<T>(events: seq<Event<T>>, cut: int)
    ensures Window(events, cut) == Pick(events, WindowIds(events, cut))
  {
    hide Recent, LastOf, Pick, Newest;
    RecentIsPick(events, cut);
    Inside(RecentIds(events, cut), |events|);
    LastOfPick(events, RecentIds(events, cut), 50000);
  }

  /** No event of the window was ever forgotten: none was behind the cut of a later event, and none
      had 50000 live events behind it. */
  ghost predicate WindowHeld<T>(events: seq<Event<T>>, window: nat)
    requires events != []
  {
    forall i <- WindowIds(events, events[|events| - 1].t - window) :: Held(events, window, i)
  }

  lemma HeldIsLive<T>(events: seq<Event<T>>, window: nat, i: nat)
    requires Held(events, window, i)
    ensures Live(events, window, i) && |Above(LiveIds(events, window), i)| < 50000
  {
    hide Held, Live, Above, LiveIds;
    HeldBound(events, window, i);
    HeldStep(events, window, i);
  }

  lemma HeldBound<T>(events: seq<Event<T>>, window: nat, i: nat)
    requires Held(events, window, i)
    ensures i < |events|
  {}

  lemma LiveIsRecent<T>(events: seq<Event<T>>, window: nat, i: nat)
    requires events != [] && Live(events, window, i)
    ensures i in RecentIds(events, events[|events| - 1].t - window)
  {}

  lemma HeldIsRecent<T>(events: seq<Event<T>>, window: nat)
    requires events != []
    ensures HeldIds(events, window) <= RecentIds(events, events[|events| - 1].t - window)
    ensures HeldIds(events, window) <= LiveIds(events, window)
  {
    hide Held, Live, RecentIds;
    forall i | i in HeldIds(events, window)
      ensures i in RecentIds(events, events[|events| - 1].t - window) && i in LiveIds(events, window)
    {
      HeldIsLive(events, window, i);
      LiveIsRecent(events, window, i);
    }
  }

  /** If the window is held, nothing else is. */
  lemma HeldIsWindow<T>(events: seq<Event<T>>, window: nat)
    requires events != [] && WindowHeld(events, window)
    ensures HeldIds(events, window) == WindowIds(events, events[|events| - 1].t - window)
  {
    hide Held, Live, RecentIds, Above;
    var recent := RecentIds(events, events[|events| - 1].t - window);
    var win := Newest(recent, 50000);
    HeldIsRecent(events, window);
    forall i | i in win ensures i in HeldIds(events, window) { HeldBound(events, window, i); }
    forall i | i in HeldIds(events, window) ensures i in win {
      if i !in win {
        NewestAreAbove(recent, i, 50000);
        NewestSize(recent, 50000);
        AboveIsSmaller(recent, i);
        HeldIsLive(events, window, i);
        SubsetSize(win, Above(LiveIds(events, window), i)) by { WinAbove(win, LiveIds(events, window), i); }
      }
    }
  }

  lemma WinAbove(win: set<nat>, live: set<nat>, i: nat)
    requires win <= live && forall j <- win :: j > i
    ensures win <= Above(live, i)
  {}

  lemma AboveIsSmaller(ids: set<nat>, i: nat)
    ensures |Above(ids, i)| <= |ids| && (i in ids ==> |Above(ids, i)| < |ids|)
  {
    SubsetSize(Above(ids, i), ids);
  }

  lemma NewestAreAbove(ids: set<nat>, i: nat, n: nat)
    requires i in ids && i !in Newest(ids, n)
    ensures forall j <- Newest(ids, n) :: j > i
  {
    forall j | j in Newest(ids, n) ensures j > i {
      if j <= i { SubsetSize(Above(ids, i), Above(ids, j)); }
    }
  }

  /** How many of the picked events are later than `cut`. */
  lemma PickedLater<T>(events: seq<Event<T>>, ids: set<nat>, cut: int)
    requires forall i <- ids :: i < |events|
    ensures |Recent(Pick(events, ids), cut)| == |ids * RecentIds(events, cut)|
    ensures |Pick(events, ids)| == |ids|
  {
    hide Recent, Pick, RecentIds;
    RecentOfPick(events, ids, cut);
    PickSize(events, ids);
    PickSize(events, ids * RecentIds(events, cut));
    Inside(ids, |events|);
    Inside(ids * RecentIds(events, cut), |events|);
  }

  /** Two sets of one size, the elements of one that the other lacks all on one side of a line on
      whose other side it has one: they differ there. */
  lemma LineDivides(held: set<nat>, win: set<nat>, later: set<nat>, j: nat)
    requires |held| == |win| && j in win && j !in held && j !in later
    requires held - win <= later
    ensures |held * later| > |win * later|
  {
    var both := held * win;
    assert held == both + (held - win) && win == both + (win - held);
    assert held * later == both * later + (held - win);
    assert win * later == both * later + (win - held) * later;
    SubsetSize((win - held) * later, (win - held) - {j});
    assert |(win - held) - {j}| == |win - held| - 1;
  }

  /** The list as a sequence is the window only if every event of the window is held. */
  lemma EqualIsHeld<T>(events: seq<Event<T>>, window: nat)
    requires events != []
    requires Pick(events, HeldIds(events, window)) == Pick(events, WindowIds(events, events[|events| - 1].t - window))
    ensures WindowHeld(events, window)
  {
    hide Held, Live, Pick, Recent, WindowIds;
    var cut := events[|events| - 1].t - window;
    var held, win := HeldIds(events, window), WindowIds(events, cut);
    WinInside(events, cut);
    forall j | j in win ensures Held(events, window, j) {
      if !Held(events, window, j) {
        PickedLater(events, held, events[j].t + 1);
        PickedLater(events, win, events[j].t + 1);
        HeldIsLater(events, window, j);
        LineDivides(held, win, RecentIds(events, events[j].t + 1), j);
      }
    }
  }

  lemma WinInside<T>(events: seq<Event<T>>, cut: int)
    ensures WindowIds(events, cut) <= RecentIds(events, cut) && forall i <- RecentIds(events, cut) :: i < |events|
  {}

  /** An event of the window that is not held is older than every held one outside the window. */
  lemma HeldIsLater<T>(events: seq<Event<T>>, window: nat, j: nat)
    requires events != [] && j in WindowIds(events, events[|events| - 1].t - window) && !Held(events, window, j)
    ensures var cut := events[|events| - 1].t - window;
            HeldIds(events, window) - WindowIds(events, cut) <= RecentIds(events, events[j].t + 1)
    ensures j !in RecentIds(events, events[j].t + 1)
  {
    hide Held, Live, RecentIds, Above;
    var cut := events[|events| - 1].t - window;
    var recent := RecentIds(events, cut);
    var win := WindowIds(events, cut);
    WinInside(events, cut);
    HeldIsRecent(events, window);
    forall i | i in HeldIds(events, window) - win ensures i in RecentIds(events, events[j].t + 1) {
      NewestAreAbove(recent, i, 50000);
      HeldIsLive(events, window, i);
      if Live(events, window, j) { LaterIsHeld(events, window, i, j); }
      OutlivesIsLater(events, window, i, j);
    }
    NotLaterThanItself(events, j);
  }

  lemma NotLaterThanItself<T>(events: seq<Event<T>>, j: nat)
    requires j < |events|
    ensures j !in RecentIds(events, events[j].t + 1)
  {}

  lemma OutlivesIsLater<T>(events: seq<Event<T>>, window: nat, i: nat, j: nat)
    requires i < j < |events| && Live(events, window, i) && !Live(events, window, j)
    ensures i in RecentIds(events, events[j].t + 1)
  {}

  /** For any packet times: the list is the last 50000 events of the full history inside the window if
      and only if no event of the window was ever forgotten. */
  lemma RunIsWindowIff<T>(events: seq<Event<T>>, window: nat)
    requires events != []
    ensures Run(events, window) == Window(events, events[|events| - 1].t - window) <==> WindowHeld(events, window)
  {
    hide Run, Window, Pick, HeldIds, WindowIds, WindowHeld;
    RunIsHeld(events, window);
    WindowIsPick(events, events[|events| - 1].t - window);
    if WindowHeld(events, window) { HeldIsWindow(events, window); }
    if Run(events, window) == Window(events, events[|events| - 1].t - window) { EqualIsHeld(events, window); }
  }

  // ---- While the cap has not acted ------------------------------------------------------------------

  /** At no point were there more than 50000 live events. */
  ghost predicate NeverFull<T>(events: seq<Event<T>>, window: nat) {
    forall m :: 0 <= m <= |events| ==> |LiveIds(events[..m], window)| <= 50000
  }

  /** No event of the window lies further behind an event after it than the window is long. */
  predicate NoneCut<T>(events: seq<Event<T>>, window: nat)
    requires events != []
  {
    forall i, j :: 0 <= j < i < |events| && events[j].t >= events[|events| - 1].t - window ==>
      events[j].t >= events[i].t - window
  }

  lemma {:induction false} FewAreNeverFull<T>(events: seq<Event<T>>, window: nat)
    requires |events| <= 50000
    ensures NeverFull(events, window)
  {
    hide Live;
    forall m | 0 <= m <= |events| ensures |LiveIds(events[..m], window)| <= 50000 {
      LiveSize(events[..m], window);
    }
  }

  lemma LiveSize<T>(events: seq<Event<T>>, window: nat)
    ensures |LiveIds(events, window)| <= |events|
  {
    hide Live, Pick;
    PickSize(events, LiveIds(events, window));
    Inside(LiveIds(events, window), |events|);
    PickShort(events, LiveIds(events, window));
  }

  lemma {:induction false} PickShort<T>(s: seq<T>, ids: set<nat>)
    ensures |Pick(s, ids)| <= |s|
    decreases |s|
  {
    if s != [] { PickShort(s[..|s| - 1], ids); }
  }

  /** Then to be held is to be live. */
  lemma {:induction false} LiveIsHeld<T>(events: seq<Event<T>>, window: nat, i: nat)
    requires NeverFull(events, window) && Live(events, window, i)
    ensures Held(events, window, i)
    decreases |events|
  {
    hide Held, Live;
    LiveBound(events, window, i);
    HeldStep(events, window, i);
    assert events[..|events|] == events;
    AboveIsSmaller(LiveIds(events, window), i);
    if i + 1 < |events| {
      var front := events[..|events| - 1];
      LiveStep(events, window, i);
      forall m | 0 <= m <= |front| ensures front[..m] == events[..m] {}
      LiveIsHeld(front, window, i);
    }
  }

  lemma LiveBound<T>(events: seq<Event<T>>, window: nat, i: nat)
    requires Live(events, window, i)
    ensures i < |events|
  {}

  lemma NoneCutIff<T>(events: seq<Event<T>>, window: nat)
    requires events != []
    ensures NoneCut(events, window) <==> RecentIds(events, events[|events| - 1].t - window) <= LiveIds(events, window)
  {
    var cut := events[|events| - 1].t - window;
    if RecentIds(events, cut) <= LiveIds(events, window) {
      forall i, j | 0 <= j < i < |events| && events[j].t >= cut ensures events[j].t >= events[i].t - window {
        assert j in RecentIds(events, cut);
        assert Live(events, window, j);
      }
    }
  }

  /** Any times, while the cap has not acted: the list is exactly the window if and only if no event of
      the window lies further behind an event after it than the window is long. */
  lemma RunIsRecentIff<T>(events: seq<Event<T>>, window: nat)
    requires events != [] && NeverFull(events, window)
    ensures Run(events, window) == Recent(events, events[|events| - 1].t - window) <==> NoneCut(events, window)
  {
    hide Run, Recent, Pick, Held, Live, RecentIds, NoneCut, NeverFull;
    var cut := events[|events| - 1].t - window;
    var held, recent := HeldIds(events, window), RecentIds(events, cut);
    RunIsHeld(events, window);
    RecentIsPick(events, cut);
    HeldIsRecent(events, window);
    WinInside(events, cut);
    NoneCutIff(events, window);
    forall i | i in LiveIds(events, window) ensures i in held { LiveIsHeld(events, window, i); }
    if NoneCut(events, window) { assert held == recent; }
    if Run(events, window) == Recent(events, cut) {
      PickedLater(events, held, cut);
      PickedLater(events, recent, cut);
      SubsetSize(held, recent);
    }
  }

  /** Times that go back: an event that a later packet has pushed out is missed by an earlier one. */
  lemma ForgottenEvent<T>(a: Event<T>, b: Event<T>, c: Event<T>, window: nat)
    requires a.t < b.t - window && a.t >= c.t - window && c.t <= b.t
    ensures Run([a, b, c], window) == [b, c] && Recent([a, b, c], c.t - window) == [a, b, c]
  {
    hide *;
    var none: seq<Event<T>> := [];
    NothingRun<T>(window);
    RunSnoc(none, a, window);
    RunSnoc([a], b, window);
    RunSnoc([a, b], c, window);
    assert none + [a] == [a] && [a] + [b] == [a, b] && [a, b] + [c] == [a, b, c] && [b] + [c] == [b, c];
    RecentSnoc(none, a, a.t - window);
    RecentSnoc(none, a, b.t - window);
    RecentSnoc([a], b, b.t - window);
    assert none + [b] == [b];
    RecentSnoc(none, b, c.t - window);
    RecentSnoc([b], c, c.t - window);
    RecentSnoc(none, a, c.t - window);
    RecentSnoc([a], b, c.t - window);
    RecentSnoc([a, b], c, c.t - window);
    NothingRecent<T>(a.t - window);
    NothingRecent<T>(b.t - window);
    NothingRecent<T>(c.t - window);
    ObservedFew(none, a, window);
    ObservedFew([a], b, window);
    ObservedFew([b], c, window);
  }

  lemma NothingRun<T>(window: nat)
    ensures Run<T>([], window) == []
  {}

  lemma NothingRecent<T>(cut: int)
    ensures Recent<T>([], cut) == []
  {}

  lemma RunSnoc<T>(events: seq<Event<T>>, e: Event<T>, window: nat)
    ensures Run(events + [e], window) == Observed(Run(events, window), e, window)
  {
    hide Observed;
    assert (events + [e])[..|events|] == events;
  }

  lemma ObservedFew<T>(list: seq<Event<T>>, e: Event<T>, window: nat)
    requires |list| < 10
    ensures Observed(list, e, window) == Recent(list + [e], e.t - window)
  {
    hide Recent, LastOf;
    Short(Recent(list + [e], e.t - window));
  }

  lemma Short<T>(s: seq<T>)
    requires |s| <= 50000
    ensures LastOf(s, 50000) == s
  {}

  // ---- Times that do not go back --------------------------------------------------------------------

  ghost predicate Ordered<T>(events: seq<Event<T>>) {
    forall i, j :: 0 <= i < j < |events| ==> events[i].t <= events[j].t
  }

  lemma OrderedIsHeld<T>(events: seq<Event<T>>, window: nat, i: nat, m: nat)
    requires Ordered(events) && i < m <= |events|
    requires i in WindowIds(events, events[|events| - 1].t - window)
    ensures Live(events[..m], window, i) && |Above(LiveIds(events[..m], window), i)| < 50000
  {
    var recent := RecentIds(events, events[|events| - 1].t - window);
    assert Live(events[..m], window, i) by {
      forall k | i <= k < m ensures events[k].t <= events[|events| - 1].t {}
    }
    SubsetSize(Above(LiveIds(events[..m], window), i), Above(recent, i));
  }

  /** For non-decreasing times the list is at every point the naive window, cut to its last 50000. */
  lemma RunIsWindow<T>(events: seq<Event<T>>, window: nat)
    requires events != [] && Ordered(events)
    ensures Run(events, window) == Window(events, events[|events| - 1].t - window)
  {
    hide Run, Window, Live, Above, LiveIds, Ordered;
    RunIsWindowIff(events, window);
    WinInside(events, events[|events| - 1].t - window);
    forall i | i in WindowIds(events, events[|events| - 1].t - window) ensures Held(events, window, i) {
      forall m | i < m <= |events|
        ensures Live(events[..m], window, i) && |Above(LiveIds(events[..m], window), i)| < 50000
      {
        OrderedIsHeld(events, window, i, m);
      }
    }
  }
}
