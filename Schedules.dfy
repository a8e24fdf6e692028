/** From the inputs to the candidate windows: the bank's hours expanded over
    the three days, each robber's busy list moved into the bank's zone and
    complemented, the three free lists and the bank's hours intersected, and
    the result filtered by duration and sorted by start. */
module Schedules {
  import opened TimeBase
  import opened Intervals

  /** A busy entry of a robber, `{from: "ПН 12:00+3", to: "ПН 14:00+3"}`,
      with both timestamps parsed. */
  datatype TokenRange = TokenRange(from: Token, to: Token)

  /** A clock time without a day, such as the bank's "10:00+5". */
  datatype ClockTime = ClockTime(hour: int, minute: int, offset: int)

  /** The bank's daily opening and closing time. */
  datatype WorkingHours = WorkingHours(from: ClockTime, to: ClockTime)

  /** The busy lists of the gang, one per robber (Danny, Linus, Rusty). */
  datatype Gang = Gang(danny: seq<TokenRange>, linus: seq<TokenRange>, rusty: seq<TokenRange>)

  /** The free lists of the gang, in the bank's minutes. */
  datatype GangFree = GangFree(danny: seq<Interval>, linus: seq<Interval>, rusty: seq<Interval>)

  /** `day + ' ' + clock`: a bank clock time placed on a day. */
  function OnDay(d: Day, c: ClockTime): Token {
    Token(d, c.hour, c.minute, c.offset)
  }

  function ClockMinutes(c: ClockTime): int {
    c.hour * 60 + c.minute
  }

  predicate WellFormedClock(c: ClockTime) {
    0 <= c.hour < 24 && 0 <= c.minute < 60
  }

  /** getBankScheduleInDatestamp: one timestamp range per day, in the order of
      the DAYS table, carrying the bank's opening and closing clock times. */
  method GetBankScheduleInDatestamp(hours: WorkingHours) returns (schedule: seq<TokenRange>)
    ensures |schedule| == |Days|
    ensures forall k :: 0 <= k < |Days| ==>
      schedule[k] == TokenRange(OnDay(Days[k], hours.from), OnDay(Days[k], hours.to))
  {
    schedule := [];
    for i := 0 to |Days|
      invariant |schedule| == i
      invariant forall k :: 0 <= k < i ==>
        schedule[k] == TokenRange(OnDay(Days[k], hours.from), OnDay(Days[k], hours.to))
    {
      var day := Days[i];
      schedule := schedule + [TokenRange(OnDay(day, hours.from), OnDay(day, hours.to))];
    }
  }

  /** getBankSchedule: every range converted to canonical minutes with
      datestampToMinutes; the bank's own offset is not applied, the bank's
      zone being the canonical one. */
  method GetBankSchedule(schedule: seq<TokenRange>) returns (minutes: seq<Interval>)
    ensures |minutes| == |schedule|
    ensures forall k :: 0 <= k < |schedule| ==>
      minutes[k] == Interval(DatestampToMinutes(schedule[k].from), DatestampToMinutes(schedule[k].to))
  {
    minutes := [];
    for i := 0 to |schedule|
      invariant |minutes| == i
      invariant forall k :: 0 <= k < i ==>
        minutes[k] == Interval(DatestampToMinutes(schedule[k].from), DatestampToMinutes(schedule[k].to))
    {
      var from := DatestampToMinutes(schedule[i].from);
      var to := DatestampToMinutes(schedule[i].to);
      minutes := minutes + [Interval(from, to)];
    }
  }

  /** The bank's open intervals: the same clock interval on each of the three
      days, one day (1440 minutes) apart. */
  function BankIntervals(hours: WorkingHours): (r: seq<Interval>)
    ensures |r| == 3
  {
    seq(3, k => Interval(1440 * k + ClockMinutes(hours.from), 1440 * k + ClockMinutes(hours.to)))
  }

  /** A bank clock time placed on day `k` is `k` days after the same time on
      Monday, whatever the bank's offset. */
  lemma OnDayMinutes(c: ClockTime, k: nat)
    requires k < |Days|
    ensures DatestampToMinutes(OnDay(Days[k], c)) == 1440 * k + ClockMinutes(c)
  {
    assert Days[k] == [Mon, Tue, Wed][k];
  }

  /** When the bank opens before it closes, its three open intervals are
      non-empty, ascending, disjoint and inside the horizon. */
  lemma BankIntervalsOrdered(hours: WorkingHours)
    requires WellFormedClock(hours.from) && WellFormedClock(hours.to)
    requires ClockMinutes(hours.from) < ClockMinutes(hours.to)
    ensures NonEmpty(BankIntervals(hours))
    ensures SortedDisjoint(BankIntervals(hours))
    ensures InHorizon(BankIntervals(hours))
  {
  }

  /** A robber's busy list in the bank's minutes (the inner loop of
      getRobberSchedule, each timestamp through robberDatestampToMinutes). */
  function Converted(bankZone: int, busy: seq<TokenRange>): (r: seq<Interval>)
    ensures |r| == |busy|
  {
    seq(|busy|, k requires 0 <= k < |busy| =>
      Interval(RobberDatestampToMinutes(bankZone, busy[k].from), RobberDatestampToMinutes(bankZone, busy[k].to)))
  }

  /** The inner loop of getRobberSchedule: pushes each busy range converted
      into the bank's minutes. */
  method ToBankMinutes(bankZone: int, busy: seq<TokenRange>) returns (ranges: seq<Interval>)
    ensures ranges == Converted(bankZone, busy)
  {
    ranges := [];
    for i := 0 to |busy|
      invariant ranges == Converted(bankZone, busy[..i])
    {
      var range := busy[i];
      assert busy[..i + 1] == busy[..i] + [range];
      ranges := ranges + [Interval(RobberDatestampToMinutes(bankZone, range.from),
                                   RobberDatestampToMinutes(bankZone, range.to))];
    }
    assert busy[..|busy|] == busy;
  }

  /** The gang's free lists: each robber's busy list in the bank's minutes,
      complemented. */
  function RobberFree(gang: Gang, bankZone: int): GangFree {
    GangFree(FreeTime(Converted(bankZone, gang.danny)),
             FreeTime(Converted(bankZone, gang.linus)),
             FreeTime(Converted(bankZone, gang.rusty)))
  }

  /** getRobberSchedule: each robber's busy list converted into the bank's
      minutes and complemented with getFreeTime. */
  method GetRobberSchedule(gang: Gang, bankZone: int) returns (free: GangFree)
    ensures free == RobberFree(gang, bankZone)
  {
    var danny := ToBankMinutes(bankZone, gang.danny);
    var dannyFree := GetFreeTime(danny);
    var linus := ToBankMinutes(bankZone, gang.linus);
    var linusFree := GetFreeTime(linus);
    var rusty := ToBankMinutes(bankZone, gang.rusty);
    var rustyFree := GetFreeTime(rusty);
    free := GangFree(dannyFree, linusFree, rustyFree);
  }

  /** The overlaps of the three free lists and the bank's hours, before the
      duration filter. */
  function Overlaps(free: GangFree, bank: seq<Interval>): seq<Interval> {
    IntersectAll(IntersectAll(IntersectAll(free.danny, free.linus), free.rusty), bank)
  }

  /** getTimeToRobbery's result. */
  function Candidates(free: GangFree, bank: seq<Interval>, duration: int): seq<Interval> {
    FilterWindows(Overlaps(free, bank), duration)
  }

  /** getTimeToRobbery: intersect Danny's and Linus's free time, then Rusty's,
      then the bank's hours, and keep the windows long enough. Every window
      kept is non-empty and at least `duration` minutes long. */
  method GetTimeToRobbery(free: GangFree, bank: seq<Interval>, duration: int) returns (windows: seq<Interval>)
    ensures windows == Candidates(free, bank, duration)
    ensures forall k :: 0 <= k < |windows| ==>
      windows[k].to - windows[k].from >= duration && windows[k].from < windows[k].to
  {
    var twoRobbers := GetIntersection(free.danny, free.linus);
    var threeRobbers := GetIntersection(twoRobbers, free.rusty);
    var timeRange := GetIntersection(threeRobbers, bank);
    windows := FilterWindows(timeRange, duration);
    assert forall k :: 0 <= k < |windows| ==> windows[k] in windows;
  }

  /** A minute lies in one of the overlaps exactly when each robber is free
      and the bank is open at it. */
  lemma OverlapsAreCommonFreeTime(free: GangFree, bank: seq<Interval>, t: int)
    ensures Covers(Overlaps(free, bank), t) <==>
      Covers(free.danny, t) && Covers(free.linus, t) && Covers(free.rusty, t) && Covers(bank, t)
  {
    var two := IntersectAll(free.danny, free.linus);
    var three := IntersectAll(two, free.rusty);
    IntersectionCoverage(free.danny, free.linus, t);
    IntersectionCoverage(two, free.rusty, t);
    IntersectionCoverage(three, bank, t);
  }

  /** Every minute of every candidate window is a minute at which all three
      robbers are free and the bank is open. */
  lemma CandidateMinutesAreCommonFreeTime(free: GangFree, bank: seq<Interval>, duration: int, w: Interval, t: int)
    requires w in Candidates(free, bank, duration)
    requires Contains(w, t)
    ensures Covers(free.danny, t) && Covers(free.linus, t) && Covers(free.rusty, t) && Covers(bank, t)
  {
    var all := Overlaps(free, bank);
    assert w in all;
    var k :| 0 <= k < |all| && all[k] == w;
    assert Covers(all, t);
    OverlapsAreCommonFreeTime(free, bank, t);
  }

  /** When the free lists and the bank's hours are each ascending and
      disjoint, so are the candidate windows. */
  lemma CandidatesSortedDisjoint(free: GangFree, bank: seq<Interval>, duration: int)
    requires SortedDisjoint(free.danny) && SortedDisjoint(free.linus)
    requires SortedDisjoint(free.rusty) && SortedDisjoint(bank)
    ensures SortedDisjoint(Candidates(free, bank, duration))
  {
    var two := IntersectAll(free.danny, free.linus);
    var three := IntersectAll(two, free.rusty);
    IntersectionSortedDisjoint(free.danny, free.linus);
    IntersectionSortedDisjoint(two, free.rusty);
    IntersectionSortedDisjoint(three, bank);
    FilterSortedDisjoint(Overlaps(free, bank), duration);
  }

  /** The inputs getAppropriateMoment silently expects: each robber's busy
      list, once in the bank's minutes, sorted, disjoint and inside the
      horizon; the bank opening before it closes on well-formed clock times. */
  predicate WellFormedInputs(gang: Gang, hours: WorkingHours) {
    var zone := hours.from.offset;
    && WellFormedBusy(Converted(zone, gang.danny))
    && WellFormedBusy(Converted(zone, gang.linus))
    && WellFormedBusy(Converted(zone, gang.rusty))
    && WellFormedClock(hours.from) && WellFormedClock(hours.to)
    && ClockMinutes(hours.from) < ClockMinutes(hours.to)
  }

  /** On well-formed inputs the candidate windows already come out ascending
      and disjoint, so the sort by start leaves them as they are. */
  lemma WellFormedInputsGiveOrderedWindows(gang: Gang, hours: WorkingHours, duration: int)
    requires WellFormedInputs(gang, hours)
    ensures SortedDisjoint(Candidates(RobberFree(gang, hours.from.offset), BankIntervals(hours), duration))
    ensures SortByFrom(Candidates(RobberFree(gang, hours.from.offset), BankIntervals(hours), duration))
         == Candidates(RobberFree(gang, hours.from.offset), BankIntervals(hours), duration)
  {
    var zone := hours.from.offset;
    var free := RobberFree(gang, zone);
    var c := Candidates(free, BankIntervals(hours), duration);
    FreeTimeOrdered(Converted(zone, gang.danny));
    FreeTimeOrdered(Converted(zone, gang.linus));
    FreeTimeOrdered(Converted(zone, gang.rusty));
    BankIntervalsOrdered(hours);
    CandidatesSortedDisjoint(free, BankIntervals(hours), duration);
    assert NonInverted(c) by {
      forall k | 0 <= k < |c| ensures c[k].from <= c[k].to {
        assert c[k] in c;
      }
    }
    SortedDisjointSortedByFrom(c);
    SortByFromSortedUnchanged(c);
  }

  // ---------------------------------------------------------------------
  // Sorting by start (Array.prototype.sort with (a, b) => a.from - b.from)
  // ---------------------------------------------------------------------

  predicate SortedByFrom(s: seq<Interval>) {
    forall i, j :: 0 <= i < j < |s| ==> s[i].from <= s[j].from
  }

  /** Places `x` before the first interval that does not start earlier. */
  function InsertByFrom(x: Interval, s: seq<Interval>): (r: seq<Interval>)
    ensures multiset(r) == multiset(s) + multiset{x}
    ensures |r| == |s| + 1
  {
    if s == [] || x.from <= s[0].from then [x] + s
    else
      assert s == [s[0]] + s[1..];
      [s[0]] + InsertByFrom(x, s[1..])
  }

  lemma {:induction false} InsertByFromSorted(x: Interval, s: seq<Interval>)
    requires SortedByFrom(s)
    ensures SortedByFrom(InsertByFrom(x, s))
    decreases |s|
  {
    if s != [] && x.from > s[0].from {
      var rest := s[1..];
      SortedByFromTail(s);
      InsertByFromSorted(x, rest);
      var ins := InsertByFrom(x, rest);
      forall y | y in ins ensures s[0].from <= y.from {
        assert y in multiset(ins);
        if y != x {
          assert y in rest;
          var k :| 0 <= k < |rest| && rest[k] == y;
          assert rest[k] == s[k + 1];
        }
      }
      SortedByFromCons(s[0], ins);
    } else if s != [] {
      forall y | y in s ensures x.from <= y.from {
        var k :| 0 <= k < |s| && s[k] == y;
        assert s[0].from <= s[k].from;
      }
      SortedByFromCons(x, s);
    }
  }

  lemma SortedByFromTail(s: seq<Interval>)
    requires SortedByFrom(s) && s != []
    ensures SortedByFrom(s[1..])
  {
    var rest := s[1..];
    forall i, j | 0 <= i < j < |rest| ensures rest[i].from <= rest[j].from {
      assert rest[i] == s[i + 1] && rest[j] == s[j + 1];
    }
  }

  /** An interval starting no later than every interval of an ordered list
      can be put in front of it. */
  lemma SortedByFromCons(a: Interval, t: seq<Interval>)
    requires SortedByFrom(t)
    requires forall y :: y in t ==> a.from <= y.from
    ensures SortedByFrom([a] + t)
  {
    var r := [a] + t;
    forall i, j | 0 <= i < j < |r| ensures r[i].from <= r[j].from {
      assert r[j] == t[j - 1];
      if i > 0 {
        assert r[i] == t[i - 1];
      } else {
        assert r[j] in t;
      }
    }
  }

  /** Sorts by start, stably: an insertion sort, each interval placed before
      the first later one that does not start earlier. The result is ordered
      by start and holds the same intervals the same number of times. */
  function SortByFrom(s: seq<Interval>): (r: seq<Interval>)
    ensures SortedByFrom(r)
    ensures multiset(r) == multiset(s)
  {
    if s == [] then []
    else
      var rest := SortByFrom(s[1..]);
      InsertByFromSorted(s[0], rest);
      assert s == [s[0]] + s[1..];
      InsertByFrom(s[0], rest)
  }

  /** A list already ordered by start is left as it is, so any sort by start
      agrees with this one on it. */
  lemma {:induction false} SortByFromSortedUnchanged(s: seq<Interval>)
    requires SortedByFrom(s)
    ensures SortByFrom(s) == s
  {
    if s != [] {
      var rest := s[1..];
      assert SortedByFrom(rest) by {
        forall i, j | 0 <= i < j < |rest| ensures rest[i].from <= rest[j].from {
          assert rest[i] == s[i + 1] && rest[j] == s[j + 1];
        }
      }
      SortByFromSortedUnchanged(rest);
      if rest != [] {
        assert s[0].from <= rest[0].from by { assert rest[0] == s[1]; }
      }
    }
  }

  /** Ascending disjoint lists are ordered by start. */
  lemma SortedDisjointSortedByFrom(s: seq<Interval>)
    requires SortedDisjoint(s) && NonInverted(s)
    ensures SortedByFrom(s)
  {
    forall i, j | 0 <= i < j < |s| ensures s[i].from <= s[j].from {
      assert s[i].from <= s[i].to;
    }
  }
}
