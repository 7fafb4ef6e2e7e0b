/** The free-time sweep of o365find_free_time_slots: given a search window
    `[dayStart, dayEnd]` and the events the calendar query returns for it,
    report the spans of the window that none of those events covers. The events are sorted by
    start and walked once with a watermark, the end of the busy time seen
    so far; every gap between the watermark and the next event's start is
    a free slot, and so is the stretch from the final watermark to the end
    of the window. */
module FreeTime {
  import opened Calendar

  /** What the search reports: the list of free slots (rendered as JSON by
      the source), or the sentinel text "There are no free times for this
      search". */
  datatype Answer = Slots(slots: seq<Interval>) | NoFreeTimes

  /** The slots an answer lists; none for the sentinel. */
  function Listed(a: Answer): seq<Interval> {
    match a
    case Slots(s) => s
    case NoFreeTimes => []
  }

  /** Instant `t` lies inside some slot of `slots`. */
  predicate Free(slots: seq<Interval>, t: Instant) {
    exists sl :: sl in slots && Covers(sl, t)
  }

  /** Each slot ends no later than every later slot starts: the slots are
      in ascending order and pairwise disjoint (they may touch). */
  predicate Ascending(slots: seq<Interval>) {
    forall j, k :: 0 <= j < k < |slots| ==> slots[j].end <= slots[k].start
  }

  /** Each slot ends strictly before every later slot starts: no two slots
      touch, so each is a maximal free span. */
  predicate Separated(slots: seq<Interval>) {
    forall j, k :: 0 <= j < k < |slots| ==> slots[j].end < slots[k].start
  }

  // ---------------------------------------------------------------------
  // Specification of the scan, one event at a time.
  // ---------------------------------------------------------------------

  /** The watermark after walking `evs` from `mark`: the running maximum of
      `mark` and the events' ends. It never falls below `mark` and no event
      ends after it. */
  function Watermark(mark: Instant, evs: seq<Interval>): (w: Instant)
    ensures mark <= w
    ensures forall i :: 0 <= i < |evs| ==> evs[i].end <= w
    decreases |evs|
  {
    if evs == [] then mark else Watermark(Max(mark, evs[0].end), evs[1..])
  }

  /** The watermark is attained: it is the starting mark or the end of one
      of the events, so with the bounds above it is exactly
      max(mark, max of the events' ends). */
  lemma {:induction false} WatermarkIsMax(mark: Instant, evs: seq<Interval>)
    ensures Watermark(mark, evs) == mark
      || exists i :: 0 <= i < |evs| && Watermark(mark, evs) == evs[i].end
    decreases |evs|
  {
    if evs != [] {
      var m := Max(mark, evs[0].end);
      WatermarkIsMax(m, evs[1..]);
      if Watermark(m, evs[1..]) != m {
        var i :| 0 <= i < |evs[1..]| && Watermark(m, evs[1..]) == evs[1..][i].end;
        assert Watermark(mark, evs) == evs[i + 1].end;
      }
    }
  }

  /** Walking `a` then `b` is walking `a + b`: the watermark reached after
      a prefix is where the rest of the walk starts. */
  lemma {:induction false} WatermarkAppend(mark: Instant, a: seq<Interval>, b: seq<Interval>)
    ensures Watermark(mark, a + b) == Watermark(Watermark(mark, a), b)
    decreases |a|
  {
    if a != [] {
      assert (a + b)[0] == a[0] && (a + b)[1..] == a[1..] + b;
      WatermarkAppend(Max(mark, a[0].end), a[1..], b);
    } else {
      assert a + b == b;
    }
  }

  /** The watermark never decreases as the walk goes on: after a longer
      prefix of the events it is at least what it was after a shorter one. */
  lemma WatermarkNeverDecreases(mark: Instant, evs: seq<Interval>, i: nat, j: nat)
    requires i <= j <= |evs|
    ensures Watermark(mark, evs[..i]) <= Watermark(mark, evs[..j])
  {
    assert evs[..j] == evs[..i] + evs[i..j];
    WatermarkAppend(mark, evs[..i], evs[i..j]);
  }

  /** The slot a single event opens: from the watermark to the event's
      start when the event starts after the watermark, otherwise none. */
  function Gap(mark: Instant, ev: Interval): (r: seq<Interval>)
    ensures |r| <= 1
    ensures r != [] <==> mark < ev.start
    ensures r != [] ==> r[0].start == mark && r[0].end == ev.start && !Overlap(r[0], ev)
  {
    if ev.start > mark then [Interval(mark, ev.start)] else []
  }

  /** The gaps emitted while walking `evs` from watermark `mark`, the
      watermark advancing past each event's end. */
  function Gaps(mark: Instant, evs: seq<Interval>): (r: seq<Interval>)
    ensures |r| <= |evs|
    ensures forall k :: 0 <= k < |r| ==> mark <= r[k].start < r[k].end
    decreases |evs|
  {
    if evs == [] then [] else Gap(mark, evs[0]) + Gaps(Max(mark, evs[0].end), evs[1..])
  }

  /** One step of the walk: after the gaps found so far come the first
      event's gap and then the gaps of the rest, walked from the advanced
      watermark. */
  lemma SweepStep(found: seq<Interval>, mark: Instant, evs: seq<Interval>)
    requires evs != []
    ensures found + Gaps(mark, evs) ==
      (if evs[0].start > mark then found + [Interval(mark, evs[0].start)] else found)
      + Gaps(Max(mark, evs[0].end), evs[1..])
    ensures Watermark(mark, evs) == Watermark(Max(mark, evs[0].end), evs[1..])
  {
  }

  /** The slots of one sweep over `evs`: the gaps, then the tail slot from
      the final watermark to `dayEnd` when the watermark is before it. */
  function FreeSlots(dayStart: Instant, dayEnd: Instant, evs: seq<Interval>): (r: seq<Interval>)
    ensures |r| <= |evs| + 1
    ensures forall k :: 0 <= k < |r| ==> dayStart <= r[k].start < r[k].end
  {
    var w := Watermark(dayStart, evs);
    Gaps(dayStart, evs) + (if w < dayEnd then [Interval(w, dayEnd)] else [])
  }

  /** The whole window when there are no events; otherwise the sweep over
      the events sorted by start, or the sentinel when it finds nothing. */
  function FreeTimeAnswer(dayStart: Instant, dayEnd: Instant, events: seq<Interval>): (a: Answer)
    ensures a == NoFreeTimes ==> events != []
    ensures a.Slots? ==> 1 <= |a.slots| <= |events| + 1
    ensures a.Slots? && events != [] ==>
      forall k :: 0 <= k < |a.slots| ==> dayStart <= a.slots[k].start < a.slots[k].end
  {
    if events == [] then Slots([Interval(dayStart, dayEnd)])
    else
      var slots := FreeSlots(dayStart, dayEnd, SortByStart(events));
      if slots == [] then NoFreeTimes else Slots(slots)
  }

  // ---------------------------------------------------------------------
  // The search as the source runs it.
  // ---------------------------------------------------------------------

  /** Free time in `[dayStart, dayEnd]` given the events the calendar
      query returned for that window. */
  method FindFreeTimeSlots(dayStart: Instant, dayEnd: Instant, events: seq<Interval>)
    returns (answer: Answer)
    ensures answer == FreeTimeAnswer(dayStart, dayEnd, events)
    ensures events == [] ==> answer == Slots([Interval(dayStart, dayEnd)])
    ensures answer.Slots? ==> 1 <= |answer.slots| <= |events| + 1
    ensures answer.Slots? && events != [] ==>
      forall k :: 0 <= k < |answer.slots| ==> dayStart <= answer.slots[k].start < answer.slots[k].end
    ensures WellFormed(events) ==> Ascending(Listed(answer))
    ensures forall sl, ev :: sl in Listed(answer) && ev in events ==> !Overlap(sl, ev)
  {
    if events == [] {
      return Slots([Interval(dayStart, dayEnd)]);
    }
    var sorted := SortByStart(events);
    var free := Sweep(dayStart, dayEnd, sorted);
    if free == [] {
      answer := NoFreeTimes;
    } else {
      answer := Slots(free);
    }
    assert WellFormed(events) ==> Ascending(Listed(answer)) by {
      if WellFormed(events) {
        AnswerAscending(dayStart, dayEnd, events);
      }
    }
    AnswerAvoidsEvents(dayStart, dayEnd, events);
  }

  /** The scan over events already ordered by start: the watermark starts
      at `dayStart`, each event that starts after it opens a slot, and the
      watermark moves to the later of itself and the event's end; a slot to
      `dayEnd` closes the window when the watermark ends before it. */
  method Sweep(dayStart: Instant, dayEnd: Instant, sorted: seq<Interval>)
    returns (free: seq<Interval>)
    ensures free == FreeSlots(dayStart, dayEnd, sorted)
  {
    var lastEnd := dayStart;
    free := [];
    for i := 0 to |sorted|
      invariant free + Gaps(lastEnd, sorted[i..]) == Gaps(dayStart, sorted)
      invariant Watermark(lastEnd, sorted[i..]) == Watermark(dayStart, sorted)
    {
      var event := sorted[i];
      assert sorted[i..][0] == event && sorted[i..][1..] == sorted[i + 1..];
      SweepStep(free, lastEnd, sorted[i..]);
      if event.start > lastEnd {
        free := free + [Interval(lastEnd, event.start)];
      }
      lastEnd := Max(lastEnd, event.end);
    }
    assert free == Gaps(dayStart, sorted);
    if lastEnd < dayEnd {
      free := free + [Interval(lastEnd, dayEnd)];
    }
  }

  // ---------------------------------------------------------------------
  // Properties of the sweep.
  // ---------------------------------------------------------------------

  /** For well-formed events the gaps come in ascending order, pairwise
      disjoint, and none ends after the final watermark. */
  lemma {:induction false} GapsAscending(mark: Instant, evs: seq<Interval>)
    requires WellFormed(evs)
    ensures Ascending(Gaps(mark, evs))
    ensures forall k :: 0 <= k < |Gaps(mark, evs)| ==> Gaps(mark, evs)[k].end <= Watermark(mark, evs)
    decreases |evs|
  {
    if evs != [] {
      var m := Max(mark, evs[0].end);
      var head, rest := Gap(mark, evs[0]), Gaps(m, evs[1..]);
      assert evs[0] in evs;
      assert forall ev :: ev in evs[1..] ==> ev in evs;
      GapsAscending(m, evs[1..]);
      assert Gaps(mark, evs) == head + rest;
      AscendingAppend(head, rest, m);
    }
  }

  /** Two ascending lists, the first ending by `lo` and the second starting
      from it, make one ascending list. */
  lemma AscendingAppend(a: seq<Interval>, b: seq<Interval>, lo: Instant)
    requires Ascending(a) && Ascending(b)
    requires forall j :: 0 <= j < |a| ==> a[j].end <= lo
    requires forall k :: 0 <= k < |b| ==> lo <= b[k].start
    ensures Ascending(a + b)
  {
    var r := a + b;
    forall j, k | 0 <= j < k < |r| ensures r[j].end <= r[k].start {
      if k >= |a| {
        assert r[k] == b[k - |a|];
      }
    }
  }

  /** The slots of a sweep over well-formed events are in ascending order
      and pairwise disjoint, the tail slot included. */
  lemma FreeSlotsAscending(dayStart: Instant, dayEnd: Instant, evs: seq<Interval>)
    requires WellFormed(evs)
    ensures Ascending(FreeSlots(dayStart, dayEnd, evs))
  {
    var w := Watermark(dayStart, evs);
    GapsAscending(dayStart, evs);
    AscendingAppend(Gaps(dayStart, evs), if w < dayEnd then [Interval(w, dayEnd)] else [], w);
  }

  /** No gap ends after `hi` when no event starts after `hi`. */
  lemma {:induction false} GapsEndBy(mark: Instant, evs: seq<Interval>, hi: Instant)
    requires forall ev :: ev in evs ==> ev.start <= hi
    ensures forall k :: 0 <= k < |Gaps(mark, evs)| ==> Gaps(mark, evs)[k].end <= hi
    decreases |evs|
  {
    if evs != [] {
      assert evs[0] in evs;
      assert forall ev :: ev in evs[1..] ==> ev in evs;
      GapsEndBy(Max(mark, evs[0].end), evs[1..], hi);
    }
  }

  /** When the events lie inside the window, every slot is a non-empty
      span inside the window. */
  lemma FreeSlotsInsideWindow(dayStart: Instant, dayEnd: Instant, evs: seq<Interval>)
    requires WellFormed(evs) && InsideWindow(evs, dayStart, dayEnd)
    ensures forall k :: 0 <= k < |FreeSlots(dayStart, dayEnd, evs)| ==>
      dayStart <= FreeSlots(dayStart, dayEnd, evs)[k].start < FreeSlots(dayStart, dayEnd, evs)[k].end <= dayEnd
  {
    GapsEndBy(dayStart, evs, dayEnd);
  }

  /** For events sorted by start, no gap shares an instant with any event:
      earlier events end by the watermark, later ones start no earlier than
      the gap ends. */
  lemma {:induction false} GapsAvoidEvents(mark: Instant, evs: seq<Interval>)
    requires SortedByStart(evs)
    ensures forall k, i :: 0 <= k < |Gaps(mark, evs)| && 0 <= i < |evs| ==> !Overlap(Gaps(mark, evs)[k], evs[i])
    decreases |evs|
  {
    if evs != [] {
      var m := Max(mark, evs[0].end);
      var rest := Gaps(m, evs[1..]);
      GapsAvoidEvents(m, evs[1..]);
      var head := Gap(mark, evs[0]);
      var r := Gaps(mark, evs);
      assert r == head + rest;
      forall k, i | 0 <= k < |r| && 0 <= i < |evs| ensures !Overlap(r[k], evs[i]) {
        if k < |head| {
          assert r[k].end == evs[0].start <= evs[i].start;
        } else if i == 0 {
          assert r[k] == rest[k - |head|];
        } else {
          assert r[k] == rest[k - |head|] && evs[i] == evs[1..][i - 1];
        }
      }
    }
  }

  /** For events sorted by start, no slot of the sweep shares an instant
      with any event; the tail slot starts at the final watermark, after
      every event has ended. */
  lemma FreeSlotsAvoidEvents(dayStart: Instant, dayEnd: Instant, evs: seq<Interval>)
    requires SortedByStart(evs)
    ensures forall k, i :: 0 <= k < |FreeSlots(dayStart, dayEnd, evs)| && 0 <= i < |evs| ==>
      !Overlap(FreeSlots(dayStart, dayEnd, evs)[k], evs[i])
  {
    GapsAvoidEvents(dayStart, evs);
  }

  /** Every instant from the mark up to the final watermark that no event
      covers lies in some gap. */
  lemma {:induction false} GapsCover(mark: Instant, evs: seq<Interval>, t: Instant)
    requires mark <= t < Watermark(mark, evs)
    requires !Busy(evs, t)
    ensures Free(Gaps(mark, evs), t)
    decreases |evs|
  {
    var ev := evs[0];
    var m := Max(mark, ev.end);
    var rest := Gaps(m, evs[1..]);
    if t < ev.start {
      assert Gaps(mark, evs)[0] == Interval(mark, ev.start);
      assert Covers(Gaps(mark, evs)[0], t);
    } else {
      assert ev in evs;
      assert !Covers(ev, t);
      assert forall e :: e in evs[1..] ==> e in evs;
      GapsCover(m, evs[1..], t);
      var sl :| sl in rest && Covers(sl, t);
      assert sl in Gaps(mark, evs);
    }
  }

  /** Every instant of the window that no event covers lies in some slot
      of the sweep, whatever the order of the events. */
  lemma FreeSlotsCover(dayStart: Instant, dayEnd: Instant, evs: seq<Interval>, t: Instant)
    requires dayStart <= t < dayEnd
    requires !Busy(evs, t)
    ensures Free(FreeSlots(dayStart, dayEnd, evs), t)
  {
    var w := Watermark(dayStart, evs);
    var r := FreeSlots(dayStart, dayEnd, evs);
    if t < w {
      GapsCover(dayStart, evs, t);
      var sl :| sl in Gaps(dayStart, evs) && Covers(sl, t);
      assert sl in r;
    } else {
      assert r[|r| - 1] == Interval(w, dayEnd);
      assert Covers(r[|r| - 1], t);
    }
  }

  /** For sorted, well-formed events inside the window, an instant lies in
      a slot of the sweep exactly when it lies in the window and in no
      event. */
  lemma FreeSlotsExact(dayStart: Instant, dayEnd: Instant, evs: seq<Interval>)
    requires SortedByStart(evs) && WellFormed(evs) && InsideWindow(evs, dayStart, dayEnd)
    ensures forall t :: Free(FreeSlots(dayStart, dayEnd, evs), t) <==> dayStart <= t < dayEnd && !Busy(evs, t)
  {
    var r := FreeSlots(dayStart, dayEnd, evs);
    FreeSlotsInsideWindow(dayStart, dayEnd, evs);
    FreeSlotsAvoidEvents(dayStart, dayEnd, evs);
    forall t ensures Free(r, t) <==> dayStart <= t < dayEnd && !Busy(evs, t) {
      if Free(r, t) {
        var sl :| sl in r && Covers(sl, t);
        var k :| 0 <= k < |r| && r[k] == sl;
        forall ev | ev in evs ensures !Covers(ev, t) {
          var i :| 0 <= i < |evs| && evs[i] == ev;
          assert !Overlap(r[k], evs[i]);
        }
      }
      if dayStart <= t < dayEnd && !Busy(evs, t) {
        FreeSlotsCover(dayStart, dayEnd, evs, t);
      }
    }
  }

  // ---------------------------------------------------------------------
  // Properties of the answer.
  // ---------------------------------------------------------------------

  /** For events the calendar query can return (well formed, inside the
      window), an instant lies in a reported slot exactly when it lies in
      the window and in no event: the slots cover all the free time and
      nothing else. The sentinel reports no slot. */
  lemma AnswerExact(dayStart: Instant, dayEnd: Instant, events: seq<Interval>)
    requires WellFormed(events) && InsideWindow(events, dayStart, dayEnd)
    ensures forall t ::
              Free(Listed(FreeTimeAnswer(dayStart, dayEnd, events)), t) <==> dayStart <= t < dayEnd && !Busy(events, t)
  {
    if events != [] {
      var sorted := SortByStart(events);
      PermutationKeepsConditions(events, sorted, dayStart, dayEnd);
      FreeSlotsExact(dayStart, dayEnd, sorted);
      forall t ensures Busy(events, t) <==> Busy(sorted, t) {
        BusyUnderPermutation(events, sorted, t);
      }
    } else {
      var a := Listed(FreeTimeAnswer(dayStart, dayEnd, events));
      forall t ensures Free(a, t) <==> dayStart <= t < dayEnd {
        assert Interval(dayStart, dayEnd) in a;
      }
    }
  }

  /** No reported slot shares an instant with any event, whatever the
      events are: sorting by start is what makes the single watermark
      enough. */
  lemma AnswerAvoidsEvents(dayStart: Instant, dayEnd: Instant, events: seq<Interval>)
    ensures forall sl, ev :: sl in Listed(FreeTimeAnswer(dayStart, dayEnd, events)) && ev in events ==> !Overlap(sl, ev)
  {
    if events != [] {
      var sorted := SortByStart(events);
      var r := FreeSlots(dayStart, dayEnd, sorted);
      FreeSlotsAvoidEvents(dayStart, dayEnd, sorted);
      forall sl, ev | sl in Listed(FreeTimeAnswer(dayStart, dayEnd, events)) && ev in events
        ensures !Overlap(sl, ev)
      {
        var k :| 0 <= k < |r| && r[k] == sl;
        assert ev in multiset(sorted);
        var i :| 0 <= i < |sorted| && sorted[i] == ev;
      }
    }
  }

  /** For well-formed events the reported slots are in ascending order and
      pairwise disjoint. */
  lemma AnswerAscending(dayStart: Instant, dayEnd: Instant, events: seq<Interval>)
    requires WellFormed(events)
    ensures Ascending(Listed(FreeTimeAnswer(dayStart, dayEnd, events)))
  {
    if events != [] {
      var sorted := SortByStart(events);
      PermutationKeepsConditions(events, sorted, dayStart, dayEnd);
      FreeSlotsAscending(dayStart, dayEnd, sorted);
    }
  }

  /** For events of positive length the gaps are strictly separated, and
      each ends strictly before the final watermark. */
  lemma {:induction false} GapsSeparated(mark: Instant, evs: seq<Interval>)
    requires PositiveLength(evs)
    ensures Separated(Gaps(mark, evs))
    ensures forall k :: 0 <= k < |Gaps(mark, evs)| ==> Gaps(mark, evs)[k].end < Watermark(mark, evs)
    decreases |evs|
  {
    if evs != [] {
      var m := Max(mark, evs[0].end);
      var head, rest := Gap(mark, evs[0]), Gaps(m, evs[1..]);
      assert evs[0] in evs;
      assert forall ev :: ev in evs[1..] ==> ev in evs;
      GapsSeparated(m, evs[1..]);
      assert Gaps(mark, evs) == head + rest;
      SeparatedAppend(head, rest, m);
    }
  }

  /** Two separated lists, the first ending before `lo` and the second
      starting from it, make one separated list. */
  lemma SeparatedAppend(a: seq<Interval>, b: seq<Interval>, lo: Instant)
    requires Separated(a) && Separated(b)
    requires forall j :: 0 <= j < |a| ==> a[j].end < lo
    requires forall k :: 0 <= k < |b| ==> lo <= b[k].start
    ensures Separated(a + b)
  {
    var r := a + b;
    forall j, k | 0 <= j < k < |r| ensures r[j].end < r[k].start {
      if k >= |a| {
        assert r[k] == b[k - |a|];
      }
    }
  }

  /** For events of positive length no two slots of a sweep touch, the tail
      slot included. */
  lemma FreeSlotsSeparated(dayStart: Instant, dayEnd: Instant, evs: seq<Interval>)
    requires PositiveLength(evs)
    ensures Separated(FreeSlots(dayStart, dayEnd, evs))
  {
    var w := Watermark(dayStart, evs);
    GapsSeparated(dayStart, evs);
    SeparatedAppend(Gaps(dayStart, evs), if w < dayEnd then [Interval(w, dayEnd)] else [], w);
  }

  /** For events of positive length no two reported slots touch: every
      slot is a maximal free span. */
  lemma AnswerSeparated(dayStart: Instant, dayEnd: Instant, events: seq<Interval>)
    requires PositiveLength(events)
    ensures Separated(Listed(FreeTimeAnswer(dayStart, dayEnd, events)))
  {
    if events != [] {
      var sorted := SortByStart(events);
      PermutationKeepsConditions(events, sorted, dayStart, dayEnd);
      FreeSlotsSeparated(dayStart, dayEnd, sorted);
    }
  }

  /** A zero-length event inside the window splits the free time into two
      slots that touch at the event: the slots are ascending but not
      maximal. */
  lemma ZeroLengthEventSplitsSlot()
    ensures FreeTimeAnswer(0, 10, [Interval(5, 5)]) == Slots([Interval(0, 5), Interval(5, 10)])
    ensures !Separated(Listed(FreeTimeAnswer(0, 10, [Interval(5, 5)])))
  {
    var e := Interval(5, 5);
    assert SortByStart([e]) == [e];
    assert Gaps(5, []) == [] && Watermark(5, []) == 5;
    assert Gaps(0, [e]) == [Interval(0, 5)] && Watermark(0, [e]) == 5;
    var slots := Listed(FreeTimeAnswer(0, 10, [e]));
    assert slots[0].end == slots[1].start;
  }

  /** For events the calendar query can return, the sentinel is reported
      exactly when there are events and they keep every instant of the
      window busy. */
  lemma NoFreeTimesIffFullyBooked(dayStart: Instant, dayEnd: Instant, events: seq<Interval>)
    requires WellFormed(events) && InsideWindow(events, dayStart, dayEnd)
    ensures FreeTimeAnswer(dayStart, dayEnd, events) == NoFreeTimes
      <==> events != [] && forall t :: dayStart <= t < dayEnd ==> Busy(events, t)
  {
    var a := FreeTimeAnswer(dayStart, dayEnd, events);
    AnswerExact(dayStart, dayEnd, events);
    if a.Slots? && events != [] {
      var sl := a.slots[0];
      assert sl in a.slots && Covers(sl, sl.start);
      assert Free(Listed(a), sl.start);
    }
  }

  /** The last slot runs from the final watermark to the end of the window
      exactly when the watermark finishes before the end of the window. */
  lemma TailSlot(dayStart: Instant, dayEnd: Instant, evs: seq<Interval>)
    ensures Watermark(dayStart, evs) < dayEnd <==>
      var r := FreeSlots(dayStart, dayEnd, evs);
      |r| > 0 && r[|r| - 1] == Interval(Watermark(dayStart, evs), dayEnd)
  {
  }

  /** Two overlapping meetings, 9:00-10:00 and 9:30-11:00 in a window
      8:00-17:00 (instants in minutes), are absorbed into one busy span. */
  lemma OverlappingMeetingsMerge()
    ensures FreeTimeAnswer(480, 1020, [Interval(540, 600), Interval(570, 660)])
      == Slots([Interval(480, 540), Interval(660, 1020)])
  {
    var a, b := Interval(540, 600), Interval(570, 660);
    assert [a, b][1..] == [b];
    assert SortByStart([b]) == [b];
    assert SortByStart([a, b]) == Insert(a, [b]) == [a, b];
    assert Gaps(660, []) == [] && Watermark(660, []) == 660;
    assert Gaps(600, [b]) == [] && Watermark(600, [b]) == 660;
    assert Gaps(480, [a, b]) == [Interval(480, 540)] && Watermark(480, [a, b]) == 660;
  }

  /** Back-to-back meetings 9:00-10:00 and 10:00-11:00 leave no
      zero-length slot at 10:00. */
  lemma BackToBackMeetings()
    ensures FreeTimeAnswer(480, 1020, [Interval(540, 600), Interval(600, 660)])
      == Slots([Interval(480, 540), Interval(660, 1020)])
  {
    var a, b := Interval(540, 600), Interval(600, 660);
    assert [a, b][1..] == [b];
    assert SortByStart([b]) == [b];
    assert SortByStart([a, b]) == Insert(a, [b]) == [a, b];
    assert Gaps(660, []) == [] && Watermark(660, []) == 660;
    assert Gaps(600, [b]) == [] && Watermark(600, [b]) == 660;
    assert Gaps(480, [a, b]) == [Interval(480, 540)] && Watermark(480, [a, b]) == 660;
  }
}
