/** Calendar intervals: the events a calendar query returns and the free
    slots computed from them. Timestamps with a UTC offset compare as
    instants, so an instant is an integer (for example seconds since the
    epoch). */
module Calendar {

  type Instant = int

  /** A span of time with a start and an end instant. An event's span is
      the time it keeps the calendar owner busy; a free slot's span is time
      they are available. Both are read as half-open: `start` is inside,
      `end` is not. */
  datatype Interval = Interval(start: Instant, end: Instant)

  function Max(a: Instant, b: Instant): Instant {
    if a < b then b else a
  }

  /** Instant `t` lies inside the span of `iv`. */
  predicate Covers(iv: Interval, t: Instant) {
    iv.start <= t < iv.end
  }

  /** The two spans share at least one instant. */
  predicate Overlap(a: Interval, b: Interval) {
    a.start < b.end && b.start < a.end
  }

  /** Instant `t` lies inside some event of `evs`. */
  predicate Busy(evs: seq<Interval>, t: Instant) {
    exists ev :: ev in evs && Covers(ev, t)
  }

  /** Every event ends no earlier than it starts, as calendar events do. */
  predicate WellFormed(evs: seq<Interval>) {
    forall ev :: ev in evs ==> ev.start <= ev.end
  }

  /** Every event lasts a positive time. */
  predicate PositiveLength(evs: seq<Interval>) {
    forall ev :: ev in evs ==> ev.start < ev.end
  }

  /** Every event starts at or after `lo` and ends at or before `hi`: the
      condition the calendar query of o365search_events puts on the events
      it returns for the window `[lo, hi]`. */
  predicate InsideWindow(evs: seq<Interval>, lo: Instant, hi: Instant) {
    forall ev :: ev in evs ==> lo <= ev.start && ev.end <= hi
  }

  predicate SortedByStart(evs: seq<Interval>) {
    forall i, j :: 0 <= i < j < |evs| ==> evs[i].start <= evs[j].start
  }

  /** Inserts `x` into a list sorted by start, ahead of every element that
      does not start before it. */
  function Insert(x: Interval, s: seq<Interval>): (r: seq<Interval>)
    requires SortedByStart(s)
    ensures SortedByStart(r)
    ensures multiset(r) == multiset(s) + multiset{x}
    ensures |r| == |s| + 1
    ensures forall y :: y in r <==> y == x || y in s
  {
    if s == [] then [x]
    else if x.start <= s[0].start then
      [x] + s
    else
      var tail := Insert(x, s[1..]);
      assert s == [s[0]] + s[1..];
      assert forall y :: y in s[1..] ==> s[0].start <= y.start;
      PrependEarliest(s[0], tail);
      [s[0]] + tail
  }

  /** An element that starts no later than anything in a sorted list can
      go in front of it. */
  lemma PrependEarliest(h: Interval, s: seq<Interval>)
    requires SortedByStart(s)
    requires forall y :: y in s ==> h.start <= y.start
    ensures SortedByStart([h] + s)
  {
    var r := [h] + s;
    forall i, j | 0 <= i < j < |r| ensures r[i].start <= r[j].start {
      assert r[j] == s[j - 1] && s[j - 1] in s;
      if i > 0 {
        assert r[i] == s[i - 1];
      }
    }
  }

  /** The events ordered by start instant. An element is placed ahead of
      every later element with the same start, so the order of ties is
      kept (a stable sort). */
  function SortByStart(evs: seq<Interval>): (r: seq<Interval>)
    ensures SortedByStart(r)
    ensures multiset(r) == multiset(evs)
    ensures |r| == |evs|
  {
    if evs == [] then []
    else
      assert evs == [evs[0]] + evs[1..];
      Insert(evs[0], SortByStart(evs[1..]))
  }

  /** Reordering the events keeps them well formed, of positive length and
      inside the window. */
  lemma PermutationKeepsConditions(a: seq<Interval>, b: seq<Interval>, lo: Instant, hi: Instant)
    requires multiset(a) == multiset(b)
    ensures WellFormed(a) ==> WellFormed(b)
    ensures PositiveLength(a) ==> PositiveLength(b)
    ensures InsideWindow(a, lo, hi) ==> InsideWindow(b, lo, hi)
  {
    forall ev | ev in b ensures ev in a {
      assert ev in multiset(b);
    }
  }

  /** Reordering the events does not change which instants are busy. */
  lemma BusyUnderPermutation(a: seq<Interval>, b: seq<Interval>, t: Instant)
    requires multiset(a) == multiset(b)
    ensures Busy(a, t) <==> Busy(b, t)
  {
    if Busy(a, t) {
      var ev :| ev in a && Covers(ev, t);
      assert ev in multiset(a);
      assert ev in b;
    }
    if Busy(b, t) {
      var ev :| ev in b && Covers(ev, t);
      assert ev in multiset(b);
      assert ev in a;
    }
  }
}
