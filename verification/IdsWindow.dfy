/** The sliding windows of the stateful detection rules: lists that are compacted in place on every
    event, against counts over the whole history. */
module IdsWindow {
  const MAX_EVENTS := 50000

  datatype Event<T> = Event(t: int, what: T)

  // ---- The naive definition ----------------------------------------------------------------------

  /** The events not before `cut`. */
  function Recent<T>(events: seq<Event<T>>, cut: int): (r: seq<Event<T>>)
    ensures |r| <= |events|
  {
    if events == [] then []
    else
      var last := events[|events| - 1];
      Recent(events[..|events| - 1], cut) + if last.t >= cut then [last] else []
  }

  /** The last `n` elements. */
  function LastOf<T>(s: seq<T>, n: nat): seq<T> {
    if |s| > n then s[|s| - n..] else s
  }

  /** What the list should hold after an event: the last 50000 events of the window. */
  function Window<T>(history: seq<Event<T>>, cut: int): seq<Event<T>> {
    LastOf(Recent(history, cut), MAX_EVENTS)
  }

  // ---- Runs ------------------------------------------------------------------------------------------

  /** One event: append, compact to the window that ends at its time, cap. */
  function Observed<T>(list: seq<Event<T>>, e: Event<T>, window: nat): seq<Event<T>> {
    LastOf(Recent(list + [e], e.t - window), MAX_EVENTS)
  }

  function Run<T>(events: seq<Event<T>>, window: nat): seq<Event<T>> {
    if events == [] then []
    else Observed(Run(events[..|events| - 1], window), events[|events| - 1], window)
  }

  // ---- The lists -----------------------------------------------------------------------------------

  class EventList<T> {
    var buf: array<Event<T>>
    var n: nat

    ghost predicate Valid()
      reads this
    {
      n <= buf.Length
    }

    ghost function Contents(): seq<Event<T>>
      reads this, buf
      requires Valid()
    {
      buf[..n]
    }

    constructor ()
      ensures Valid() && Contents() == [] && fresh(buf)
    {
      buf, n := new Event<T>[0], 0;
    }

    /** Grows the buffer when it is full. */
    method Append(e: Event<T>)
      requires Valid()
      modifies this, buf
      ensures Valid() && Contents() == old(Contents()) + [e] && (buf == old(buf) || fresh(buf))
    {
      if n == buf.Length {
        var smaller := buf;
        var larger := new Event<T>[2 * n + 1](_ => e);
        for i := 0 to n
          invariant n == old(n) && buf == smaller == old(buf) && buf[..n] == old(Contents())
          invariant forall k :: 0 <= k < i ==> larger[k] == smaller[k]
        {
          larger[i] := smaller[i];
        }
        buf := larger;
        assert buf[..n] == old(Contents());
      }
      buf[n] := e;
      n := n + 1;
      assert buf[..n] == buf[..n - 1] + [e];
    }

    /** Moves the events of the window to the front, in the same buffer. */
    method Compact(cut: int)
      requires Valid()
      modifies this`n, buf
      ensures Valid() && Contents() == Recent(old(Contents()), cut)
    {
      var m := 0;
      ghost var was := Contents();
      assert was[..0] == [];
      for i := 0 to n
        invariant m <= i && n <= buf.Length && n == old(n)
        invariant buf[..m] == Recent(was[..i], cut)
        invariant buf[i..n] == was[i..]
      {
        assert buf[i] == buf[i..n][0] == was[i];
        assert was[..i + 1][..i] == was[..i];
        ghost var tail := buf[i + 1..n];
        assert tail == buf[i..n][1..] == was[i + 1..];
        if buf[i].t >= cut {
          buf[m] := buf[i];
          m := m + 1;
          assert buf[..m] == buf[..m - 1] + [was[i]];
        } else {
          assert buf[..m] + [] == buf[..m];
        }
        assert buf[i + 1..n] == tail;
      }
      assert was[..n] == was;
      n := m;
    }

    /** Copies the newest events to a buffer of their own when there are too many. */
    method Cap(filler: Event<T>)
      requires Valid()
      modifies this
      ensures Valid() && Contents() == LastOf(old(Contents()), MAX_EVENTS) && (buf == old(buf) || fresh(buf))
    {
      if n > MAX_EVENTS {
        var from := n - MAX_EVENTS;
        ghost var was := Contents();
        var last := new Event<T>[MAX_EVENTS](_ => filler);
        for i := 0 to MAX_EVENTS
          invariant forall k :: 0 <= k < i ==> last[k] == was[from + k]
          invariant Valid() && n == from + MAX_EVENTS && buf == old(buf) && Contents() == was
        {
          assert buf[from + i] == Contents()[from + i];
          last[i] := buf[from + i];
        }
        buf, n := last, MAX_EVENTS;
        assert Contents() == was[from..];
      }
    }

    method Observe(e: Event<T>, window: nat)
      requires Valid()
      modifies this, buf
      ensures Valid() && Contents() == Observed(old(Contents()), e, window)
      ensures buf == old(buf) || fresh(buf)
    {
      hide Recent, LastOf;
      Append(e);
      Compact(e.t - window);
      Cap(e);
    }
  }
}
