# Free-time search of the O365 toolkit, modelled in Dafny

The repository connects an LLM assistant to a Microsoft 365 mailbox and
calendar. Its one algorithm is `o365find_free_time_slots` in
`email_service/tools/o365_toolkit.py`. The function takes a search window
`[start_datetime, end_datetime]` and the events the calendar query returns
for it, and reports the spans of the window that none of those events
covers:

- With no events, it returns the whole window as a single slot.
- Otherwise it sorts the events by start. It then walks them once with a
  watermark `last_end_time`, which begins at the window's start.
- When an event starts after the watermark, the span from the watermark to
  the event's start is a free slot. The watermark then moves to the later of
  itself and the event's end.
- After the walk, the span from the watermark to the window's end is a free
  slot if the watermark is still before the end.
- If no slot was found, it returns the text "There are no free times for
  this search". Otherwise it returns the slots as JSON.

The model has two modules:

- `Calendar` (`calendar.dfy`): the `Interval` datatype used for events and
  slots, with timestamps as integer instants. It also holds predicates about
  event lists and `SortByStart`, a stable insertion sort by start instant
  that stands for the sort at line 448.
- `FreeTime` (`free_time.dfy`): the answer datatype
  (`Slots(seq<Interval>) | NoFreeTimes`) and the recursive specification of
  the walk (`Watermark`, `Gap`, `Gaps`, `FreeSlots`, `FreeTimeAnswer`). Two
  methods follow the source:
  - `FindFreeTimeSlots` is the whole function.
  - `Sweep` is the loop over the sorted events (lines 455-480), written as a
    `for` loop whose invariants tie the watermark and the slots found so far
    to the specification.

  The remaining members are lemmas about the specification: ordering and
  strict separation, slots inside the window, no overlap with events, exact
  coverage of the free time, and when the sentinel appears.

Slots and events are read as half-open spans `[start, end)` when the model
speaks of the instants they cover. A slot that ends where an event starts
therefore does not overlap it.

Two facts about the code shape the contracts:

- The events are not clipped to the window before the scan (lines 459-471
  use each event's own start and end). The model does not clip either. The
  window properties are stated for the events the calendar query can
  return: each starts at or after the window's start, ends at or before its
  end, and ends no earlier than it starts.
- With no events the code returns the window unchanged (lines 441-445)
  without checking it, so an empty or reversed window comes back as a slot.
  The model does the same. `FindFreeTimeSlots` and `FreeTimeAnswer` promise
  non-empty slots only when there are events.

## Model

| member | source | states |
|---|---|---|
| Calendar.Insert | email_service/tools/o365_toolkit.py:448 | inserting an event into a list ordered by start gives a list ordered by start that holds exactly the old events plus the new one (same multiset, length one more) |
| Calendar.SortByStart | email_service/tools/o365_toolkit.py:448 | the sorted events are in ascending order of start and are a permutation of the input (same multiset, same length) |
| Calendar.PermutationKeepsConditions | email_service/tools/o365_toolkit.py:448 | sorting keeps events well formed and keeps them inside the window |
| Calendar.BusyUnderPermutation | email_service/tools/o365_toolkit.py:448 | sorting does not change which instants some event covers |
| FreeTime.Watermark | email_service/tools/o365_toolkit.py:455-471 | the watermark after the walk is at least the window start and at least every event's end |
| FreeTime.WatermarkIsMax | email_service/tools/o365_toolkit.py:455-471 | the watermark equals the window start or some event's end, so it is exactly max(day_start, max of event ends) |
| FreeTime.WatermarkAppend | email_service/tools/o365_toolkit.py:459-471 | walking a prefix and then the rest gives the same watermark as walking everything |
| FreeTime.WatermarkNeverDecreases | email_service/tools/o365_toolkit.py:471 | the watermark after a longer prefix of the events is never below the watermark after a shorter one |
| FreeTime.Gap | email_service/tools/o365_toolkit.py:463-469 | one event opens at most one slot, and does so exactly when it starts after the watermark; that slot runs from the watermark to the event's start and does not overlap the event |
| FreeTime.Gaps | email_service/tools/o365_toolkit.py:459-471 | the loop emits at most one gap per event, and each gap is non-empty and starts at or after the watermark it began from |
| FreeTime.FreeSlots | email_service/tools/o365_toolkit.py:455-480 | the sweep yields at most one slot more than there are events, and every slot is non-empty and starts at or after day_start |
| FreeTime.FreeTimeAnswer | email_service/tools/o365_toolkit.py:439-486 | the sentinel only when there are events; otherwise 1 to (events + 1) slots, each non-empty and starting at or after the window start when there are events |
| FreeTime.Sweep | email_service/tools/o365_toolkit.py:455-480 | the loop with its watermark, plus the tail slot, computes exactly the specified slots for the events in the order given |
| FreeTime.FindFreeTimeSlots | email_service/tools/o365_toolkit.py:426-486 | no events gives exactly the window. Otherwise the answer is the sweep over the sorted events, or the sentinel when that is empty. A slot list has 1 to (events + 1) entries, non-empty when there are events, ascending and disjoint for well-formed events, and never overlapping an event |
| FreeTime.GapsAscending | email_service/tools/o365_toolkit.py:459-471 | for well-formed events the gaps are in ascending order and pairwise disjoint, and none ends after the final watermark |
| FreeTime.FreeSlotsAscending | email_service/tools/o365_toolkit.py:459-480 | for well-formed events all slots, the tail slot included, are in ascending order and pairwise disjoint |
| FreeTime.GapsEndBy | email_service/tools/o365_toolkit.py:463-469 | a gap ends at an event's start, so no gap ends after a bound that no event starts after |
| FreeTime.FreeSlotsInsideWindow | email_service/tools/o365_toolkit.py:455-480 | for events inside the window every slot is a non-empty span inside [day_start, day_end] |
| FreeTime.GapsAvoidEvents | email_service/tools/o365_toolkit.py:448-471 | for events sorted by start, no gap overlaps any event |
| FreeTime.FreeSlotsAvoidEvents | email_service/tools/o365_toolkit.py:448-480 | for events sorted by start, no slot (tail included) overlaps any event |
| FreeTime.GapsCover | email_service/tools/o365_toolkit.py:459-471 | every instant from the starting watermark up to the final watermark that no event covers lies in some gap, whatever the event order |
| FreeTime.FreeSlotsCover | email_service/tools/o365_toolkit.py:455-480 | every instant of the window that no event covers lies in some slot |
| FreeTime.FreeSlotsExact | email_service/tools/o365_toolkit.py:448-480 | for sorted, well-formed events inside the window, an instant lies in a slot if and only if it lies in the window and in no event |
| FreeTime.AnswerExact | email_service/tools/o365_toolkit.py:439-486 | for events the query can return, an instant lies in a reported slot if and only if it lies in the window and in no event (the sentinel reports none) |
| FreeTime.AnswerAvoidsEvents | email_service/tools/o365_toolkit.py:441-486 | for any events, no reported slot overlaps any event |
| FreeTime.AnswerAscending | email_service/tools/o365_toolkit.py:441-486 | for well-formed events the reported slots are in ascending order and pairwise disjoint |
| FreeTime.GapsSeparated | email_service/tools/o365_toolkit.py:459-471 | for events of positive length no two gaps touch, and each gap ends strictly before the final watermark |
| FreeTime.FreeSlotsSeparated | email_service/tools/o365_toolkit.py:459-480 | for events of positive length no two slots of the sweep touch, the tail slot included |
| FreeTime.AnswerSeparated | email_service/tools/o365_toolkit.py:441-486 | for events of positive length no two reported slots touch, so each is a maximal free span |
| FreeTime.ZeroLengthEventSplitsSlot | email_service/tools/o365_toolkit.py:459-480 | a zero-length event at 5 in the window [0, 10] yields the touching slots [0, 5) and [5, 10) |
| FreeTime.NoFreeTimesIffFullyBooked | email_service/tools/o365_toolkit.py:441-486 | for events the query can return, the sentinel is returned if and only if there are events and every instant of the window is busy |
| FreeTime.TailSlot | email_service/tools/o365_toolkit.py:474-480 | the last slot is (watermark, day_end) exactly when the watermark finishes before day_end |
| FreeTime.OverlappingMeetingsMerge | email_service/tools/o365_toolkit.py:459-480 | meetings 9:00-10:00 and 9:30-11:00 in an 8:00-17:00 window leave the slots 8:00-9:00 and 11:00-17:00 |
| FreeTime.BackToBackMeetings | email_service/tools/o365_toolkit.py:459-480 | back-to-back meetings 9:00-10:00 and 10:00-11:00 leave 8:00-9:00 and 11:00-17:00, with no zero-length slot at 10:00 |

## Left out

- Fetching the events (`o365search_events`, line 439) is a Microsoft Graph
  query. The model takes the events as a parameter. The condition the query
  puts on them (start at or after the window start, end at or before the
  window end, lines 508-509) appears as a precondition of the lemmas that
  need it. The query returns at most 10 events (`max_results` defaults to 10
  at line 492 and is passed as the limit at line 510). It also drops every
  event that crosses a window boundary: a 7:30-8:30 meeting searched with an
  8:00-17:00 window is not returned, so 8:00-8:30 is reported free. The
  slots are therefore free only with respect to the events the query
  returns, not with respect to the whole calendar.
- FreeTime.AnswerAscending: the slots are ascending but may touch. An
  event of zero length inside a free span splits it into two slots that
  meet at the event (`FreeTime.ZeroLengthEventSplitsSlot`). For events of
  positive length no two slots touch (`FreeTime.AnswerSeparated`).
- Parsing and formatting timestamps (`strptime`/`strftime`, lines 451-452,
  460-461, 466-467, 477-478) is text handling. Timestamps are integer
  instants. So the `%z` output form `±HHMM`, the inputs' `±HH:MM` form, and
  a `ValueError` on malformed text are not modelled.
- The JSON rendering (`json.dumps`, lines 443-445 and 486) and the sentinel
  text are represented by the `Answer` datatype. With no events the source
  echoes the caller's strings; the model returns the window's instants.
- Calendar.SortByStart: the source sorts by the raw `start_datetime` string
  (line 448). That matches chronological order only because all events are
  rendered in one UTC offset and one fixed-width format. The model sorts by
  instant. Its contract states order and permutation but not stability,
  although the insertion sort is stable.
- The in-place update of the list by `events.sort` is modelled on values
  (`SortByStart` returns the sorted sequence). The list is local to the
  function, so no other code observes the update.
- Converting event times into the search time zone (lines 526-533) depends
  on the time-zone database and is not modelled.
- Window derivation from the first event's calendar day is not part of this
  model. It belongs to other copies of the routine, not to the function
  modelled here.
- The other toolkit functions are one-to-one calls into the O365 SDK and are
  not modelled: searching, sending, replying to and deleting mail, and
  sending events. Also left out are the assistant polling loop, prompt
  building, HTML clean-up, authentication and the web views.
- A caller (`email_service/utils.py:164`) passes an `interface=` keyword
  that `o365find_free_time_slots` does not accept. That caller is outside
  the modelled function.
