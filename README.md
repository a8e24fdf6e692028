# Robbery scheduler, modelled in Dafny

`robbery.js` finds a moment at which three robbers (Danny, Linus and Rusty) are
all free and the bank is open, long enough for a robbery of `duration`
minutes. Time runs on a synthetic week of three days (ПН, ВТ, СР), 4320
minutes long, minute 0 being Monday 00:00 in the bank's time zone (the zone of
the bank's opening time). The program

- turns each timestamp "DD HH:MM+O" into a minute of that axis, shifting a
  robber's timestamps by the difference between the bank's and the robber's
  offsets;
- expands the bank's daily hours over the three days;
- complements each robber's busy list into a free list over [0, 4320);
- intersects the three free lists and the bank's hours pairwise;
- keeps the windows that are non-empty and at least `duration` long, sorts them
  by start;
- returns a handle with `exists`, `format` (fills `%DD`, `%HH`, `%MM` with the
  earliest start) and `tryLater` (delays the first window by 30 minutes, or
  drops it, or answers false).

Modules:

- `Text` — `toString`, the two-digit padding, and `String.prototype.replace`
  with a string pattern.
- `TimeBase` — the DAYS table, parsed timestamps, minutes to and from stamps.
- `Intervals` — half-open intervals, getFreeTime, isIntersected,
  getIntersection, the duration filter.
- `Schedules` — the bank's and the robbers' schedules, getTimeToRobbery, the
  sort by start.
- `Robbery` — the handle (a class whose `ranges` field `tryLater` updates) and
  getAppropriateMoment.

Every loop of the source is a method with a loop invariant:

- getFreeTime and the nested loops of getIntersection are proved equal to
  recursive specification functions (`FreeTime`, `IntersectAll`), and the
  properties are proved about those functions.
- The inner loop of getRobberSchedule is proved equal to `Converted`, a
  sequence comprehension.
- getBankScheduleInDatestamp and getBankSchedule are proved against
  element-by-element postconditions.

Two behaviours of the code worth knowing:

- Nothing clamps a shifted robber time into [0, 4320]. A time zone shift can
  move a busy interval outside the horizon, and getFreeTime then emits what its
  cursor gives.
- `tryLater` never empties a non-empty candidate list: when only one window is
  left and it has too little slack, it answers false and keeps that window. So
  `exists` stays true once it is true (`Robbery.AdvanceKeepsWindows`).

## Model

| member | source | states |
|---|---|---|
| Text.Pad2 | robbery.js:115-120 | a value 0..9 gets a leading '0' and two characters; from 10 on the value is printed as is, with no leading zero; `Pad2Digits` gives its value |
| Text.ReplaceFirst | robbery.js:58-61 | `replace` with a string pattern on a non-empty string and a non-empty replacement gives a non-empty string; which occurrence it rewrites is stated by `ReplaceFirstAbsent` and `ReplaceFirstAt` |
| Text.NatToStringRoundTrip | robbery.js:115-120 | the decimal `toString` of a non-negative integer reads back as that integer |
| Text.Pad2Digits | robbery.js:115-120 | an hour or minute in 0..99 is shown as exactly two digits that read back as its value |
| Text.Pad2NoPercent | robbery.js:115-120 | a padded number never contains '%', so it cannot create a placeholder |
| Text.ReplaceFirstAbsent | robbery.js:58-61 | `replace` leaves a template without the pattern unchanged |
| Text.ReplaceFirstAt | robbery.js:58-61 | `replace` rewrites exactly the first occurrence of the pattern and nothing else |
| Text.ReplaceAfterPlain | robbery.js:58-61 | when the text before an occurrence cannot start the pattern, that occurrence is the one replaced |
| Text.ReplaceFirstSkipPrefix | robbery.js:58-61 | a prefix in which no occurrence starts is left untouched by `replace` |
| TimeBase.DatestampToMinutes | robbery.js:106-109 | a timestamp with hour 0..23 and minute 0..59 falls inside its own day of the axis, at its minute of the hour |
| TimeBase.RobberDatestampToMinutes | robbery.js:129-134 | a robber's timestamp becomes its UTC instant seen from the bank's zone (shift by bank offset minus robber offset, in hours) |
| TimeBase.SameInstantSameMinute | robbery.js:129-134 | two timestamps get the same minute exactly when they name the same instant, whatever their zones |
| TimeBase.KeyByValue | robbery.js:125-127 | getKeyByValue finds a day whose base hour is the value, and finds none exactly when the value is not 0, 24 or 48 |
| TimeBase.KeyByValueInverse | robbery.js:125-127 | looking up a day's own base hour gives that day |
| TimeBase.JsRem | robbery.js:112-114 | JavaScript's `%`: truncated division, the remainder has the sign of the dividend |
| TimeBase.MinutesToDatestamp | robbery.js:111-123 | a minute in [0, 4320) gets the day whose 1440 minutes contain it, and a two-character hour and minute; its inverse property is `DatestampRoundTrip` |
| TimeBase.DatestampRoundTrip | robbery.js:106-123 | minutesToDatestamp inverts datestampToMinutes: day, two-digit hour and two-digit minute come back |
| TimeBase.HorizonMinuteDecodes | robbery.js:111-123 | every minute in [0, 4320) is the encoding of a well-formed timestamp and decodes to it |
| TimeBase.PastHorizonHasNoDay | robbery.js:111-118 | a minute at or past 4320 has no day (`undefined`) |
| Intervals.FreeFrom | robbery.js:175-189 | every free interval emitted has `from < to` |
| Intervals.GetFreeTime | robbery.js:175-189 | the cursor loop computes the free list; an empty busy list gives exactly [0, 4320) |
| Intervals.FreeTimeComplement | robbery.js:175-189 | for a sorted, disjoint busy list inside the horizon, a minute is free exactly when it is in [0, 4320) and in no busy interval |
| Intervals.FreeTimeOrdered | robbery.js:175-189 | for such a busy list the free intervals are ascending, disjoint and inside [0, 4320] |
| Intervals.IsIntersected | robbery.js:191-193 | definition: `!(l.from >= r.to \|\| l.to <= r.from)`; its meaning is stated by `IsIntersectedSymmetric` and `IsIntersectedMeaning` |
| Intervals.IsIntersectedSymmetric | robbery.js:191-193 | the overlap test is symmetric and intervals that only touch do not overlap |
| Intervals.IsIntersectedMeaning | robbery.js:191-193 | sharing a minute implies the test; for non-empty intervals the test holds exactly when they share a minute, and exactly when the emitted overlap is non-empty |
| Intervals.Meet | robbery.js:200-203 | the emitted overlap lies inside both intervals |
| Intervals.PushOverlaps | robbery.js:197-206 | the inner loop appends the overlaps of one left interval with the right list, in order |
| Intervals.GetIntersection | robbery.js:195-209 | the nested loops compute the row-major list of overlaps of all overlapping pairs |
| Intervals.IntersectionCoverage | robbery.js:195-209 | a minute is in the intersection exactly when it is in both lists |
| Intervals.IntersectionMembers | robbery.js:195-209 | an interval is output exactly when some overlapping pair produces it |
| Intervals.IntersectionFromPair | robbery.js:195-209 | every output interval is the overlap of an overlapping pair |
| Intervals.PairInIntersection | robbery.js:195-209 | every overlapping pair contributes its overlap to the output |
| Intervals.IntersectOneCount | robbery.js:198-205 | one left interval yields exactly as many outputs as there are right intervals it overlaps |
| Intervals.IntersectionCount | robbery.js:195-209 | the output has exactly one entry per overlapping (left, right) pair |
| Intervals.IntersectionContained | robbery.js:195-209 | each output lies inside some left and some right interval, and is non-empty when all inputs are |
| Intervals.IntersectionSortedDisjoint | robbery.js:195-209 | ascending, disjoint inputs give an ascending, disjoint output |
| Intervals.IntersectionCommutes | robbery.js:195-209 | swapping the two lists gives the same intervals, the same number of times |
| Intervals.LongEnough | robbery.js:216-217 | definition: the filter's predicate `to - from >= duration && from < to`; what the filter keeps is stated by `FilterWindows` |
| Intervals.FilterWindows | robbery.js:216-217 | the filter keeps exactly the intervals with `to - from >= duration` and `from < to` |
| Intervals.FilterSortedDisjoint | robbery.js:216-217 | the filter keeps the order, so ascending, disjoint input stays so |
| Schedules.GetBankScheduleInDatestamp | robbery.js:136-145 | one range per day in the DAYS order, with the bank's opening and closing times |
| Schedules.GetBankSchedule | robbery.js:147-157 | each range converted with datestampToMinutes; the bank's offset is not applied |
| Schedules.OnDayMinutes | robbery.js:136-157 | the bank's range on day k is k days after Monday's |
| Schedules.BankIntervalsOrdered | robbery.js:136-157 | a bank that opens before it closes gives three non-empty, ascending, disjoint intervals inside the horizon |
| Schedules.ToBankMinutes | robbery.js:162-168 | the inner loop converts every busy range of a robber into the bank's minutes |
| Schedules.GetRobberSchedule | robbery.js:159-173 | each robber's free list is the complement of the converted busy list |
| Schedules.GetTimeToRobbery | robbery.js:211-218 | the three folds and the filter; every window kept is non-empty and at least `duration` long |
| Schedules.OverlapsAreCommonFreeTime | robbery.js:211-215 | a minute lies in the folded overlaps exactly when all three robbers are free and the bank is open |
| Schedules.CandidateMinutesAreCommonFreeTime | robbery.js:211-218 | every minute of every candidate window is common free time inside the bank's hours |
| Schedules.CandidatesSortedDisjoint | robbery.js:211-218 | ascending, disjoint free lists and bank hours give ascending, disjoint candidates |
| Schedules.WellFormedInputsGiveOrderedWindows | robbery.js:27-32 | on well-formed inputs the candidates come out ascending and the sort by start leaves them as they are |
| Schedules.InsertByFrom | robbery.js:32 | inserting adds exactly one interval and keeps the others |
| Schedules.SortByFrom | robbery.js:32 | the sort orders by start and keeps the same intervals with the same multiplicities |
| Schedules.SortByFromSortedUnchanged | robbery.js:32 | a list already ordered by start is returned unchanged |
| Robbery.RobberyHandle.constructor | robbery.js:27-35 | the handle captures the candidate list and the duration; every window is long enough |
| Robbery.RobberyHandle.Exists | robbery.js:40-42 | definition: some window is left; `AdvanceKeepsWindows` shows it stays true once true, `FormatEmptyIff` ties it to `format` |
| Robbery.RobberyHandle.Format | robbery.js:50-62 | definition: "" with no window, else the template filled from the first start; stated by `FormatEmptyIff`, `FormatTemplate`, `FormatWindowStart` |
| Robbery.Advance | robbery.js:69-86 | tryLater's answer and new windows: false leaves them unchanged, it never adds a window, and a success keeps the length or drops exactly the first window; `AdvanceSpendsOneUnit` bounds the successes |
| Robbery.RobberyHandle.TryLater | robbery.js:69-86 | false and no change on an empty list; a 30-minute slide of the first window when it still lasts `duration`, other windows unchanged; else false with one window left, or the first window dropped; windows stay long enough |
| Robbery.AdvanceSpendsOneUnit | robbery.js:69-86 | each successful tryLater spends one unit of (windows + 30-minute slides left); a failing one changes nothing, so the number of successes is bounded |
| Robbery.AdvanceKeepsWindows | robbery.js:69-86 | tryLater keeps all windows long enough, never adds one and never removes the last one |
| Robbery.AdvanceIsLater | robbery.js:73-86 | on ascending, disjoint windows a successful tryLater proposes a strictly later start and keeps them ascending and disjoint |
| Robbery.AdvanceStopsForGood | robbery.js:69-86 | after tryLater answered false, it answers false again with no change |
| Robbery.FormatEmptyIff | robbery.js:50-62 | `format` gives "" exactly when no window exists or the template is empty |
| Robbery.FormatTemplate | robbery.js:50-62 | on the layout "…%HH…%MM…%DD…" `format` fills in the padded hour, the padded minute and the day of the first start |
| Robbery.FormatWindowStart | robbery.js:50-62 | a first window starting at a timestamp is formatted with that timestamp's day, hour and minute |
| Robbery.FormatDocumentedExample | robbery.js:46 | a start on СР at 14:59 formats "Начинаем в %HH:%MM (%DD)" as "Начинаем в 14:59 (СР)" |
| Robbery.GetAppropriateMoment | robbery.js:27-35 | the handle holds the candidate windows for the bank's zone, sorted by start, each long enough |

## Left out

- Timestamp parsing (`getTimezone`, `getDays`, `getHours`, `getMinutes`, robbery.js:90-104) is not modelled. It is a regular expression and `parseInt`. A timestamp is taken already parsed as day, hour, minute and offset, and any integer offset is accepted, although the expression reads only offsets written with '+'.
- `getRobberSchedule` iterates over whatever names the schedule object holds, in `Object.keys` order. The model takes exactly the three robbers that getTimeToRobbery reads, as three fields. Free lists computed for other names are never read.
- The engine's `Array.prototype.sort` algorithm is not modelled. It is a stable sort, so with the comparator `a.from - b.from` its result is the unique stable ordering by start. The model computes that ordering with a stable insertion sort.
- JavaScript's `$` replacement patterns are not modelled. The replacement strings here are digits, a minus sign, day names or "undefined", and none of them contains '$'.
- JavaScript numbers are doubles. Every value here is a small integer, so the model uses unbounded integers and no rounding can happen.
- The in-place update of `current.from` is modelled as replacing the first element of the handle's sequence. The interval objects are created by getIntersection and are referenced only by the handle's array, so no aliasing is lost.
- Validation that the code does not do is not added. Sortedness and disjointness of busy lists, and the bank opening before it closes, appear only as preconditions of the lemmas that need them (`WellFormedBusy`, `WellFormedInputs`). The operations themselves accept any input, as the source does.
- No I/O, clock or randomness occurs in the source. The `isStar` flag and `module.exports` have no behaviour to model.
