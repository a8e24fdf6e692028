/** The object getAppropriateMoment returns: a handle over the candidate
    windows, sorted by start, that answers whether a moment exists, formats
    the earliest one and, on request, moves to a later one. */
module Robbery {
  import opened Text
  import opened TimeBase
  import opened Intervals
  import opened Schedules

  /** How far tryLater delays the start inside the same window. */
  const SlideStep := 30

  /** Every window is at least `duration` minutes long. */
  predicate AllLongEnough(s: seq<Interval>, duration: int) {
    forall k :: 0 <= k < |s| ==> s[k].to - s[k].from >= duration
  }

  /** tryLater on the windows `s`: its answer and the windows afterwards.
      With no window the answer is false. If the first window can start 30
      minutes later and still last `duration`, it does. Otherwise the first
      window is dropped, unless it is the last one, when the answer is false
      and nothing changes. */
  function Advance(s: seq<Interval>, duration: int): (r: (bool, seq<Interval>))
    ensures !r.0 ==> r.1 == s
    ensures |r.1| <= |s|
    ensures r.0 ==> |r.1| == |s| || r.1 == s[1..]
  {
    if s == [] then (false, s)
    else if s[0].to - s[0].from - SlideStep >= duration then
      (true, s[0 := Interval(s[0].from + SlideStep, s[0].to)])
    else if |s| == 1 then (false, s)
    else (true, s[1..])
  }

  /** The number of 30-minute slides a window still allows. */
  function Slides(w: Interval, duration: int): nat {
    if w.to - w.from - duration >= 0 then (w.to - w.from - duration) / SlideStep else 0
  }

  /** One for each window plus the slides each still allows. */
  function Potential(s: seq<Interval>, duration: int): nat {
    if s == [] then 0 else 1 + Slides(s[0], duration) + Potential(s[1..], duration)
  }

  /** Each successful tryLater spends exactly one unit of the potential, and
      an unsuccessful one changes nothing and leaves at most one unit: from
      `s`, tryLater succeeds at most Potential(s) - 1 times in a row, that is
      once per window after the first plus once per slide. */
  lemma AdvanceSpendsOneUnit(s: seq<Interval>, duration: int)
    ensures Advance(s, duration).0 ==>
      Potential(Advance(s, duration).1, duration) + 1 == Potential(s, duration)
    ensures !Advance(s, duration).0 ==>
      Advance(s, duration).1 == s && Potential(s, duration) <= 1
  {
    if s != [] {
      var w := s[0];
      if w.to - w.from - SlideStep >= duration {
        var s' := Advance(s, duration).1;
        assert s'[1..] == s[1..];
        var w' := s'[0];
        assert w'.to - w'.from - duration == (w.to - w.from - duration) - SlideStep;
      } else if |s| == 1 {
        assert s[1..] == [];
      }
    }
  }

  /** tryLater keeps every window at least `duration` long, never adds a
      window and never removes the last one: a handle that has a moment
      keeps one. */
  lemma AdvanceKeepsWindows(s: seq<Interval>, duration: int)
    requires AllLongEnough(s, duration)
    ensures AllLongEnough(Advance(s, duration).1, duration)
    ensures |Advance(s, duration).1| <= |s|
    ensures s != [] ==> Advance(s, duration).1 != []
  {
    var s' := Advance(s, duration).1;
    if s != [] && s[0].to - s[0].from - SlideStep < duration && |s| > 1 {
      forall k | 0 <= k < |s'| ensures s'[k].to - s'[k].from >= duration {
        assert s'[k] == s[k + 1];
      }
    }
  }

  /** On ascending, disjoint windows of a positive duration, a successful
      tryLater proposes a strictly later start, and the windows stay
      ascending, disjoint and long enough. */
  lemma AdvanceIsLater(s: seq<Interval>, duration: int)
    requires SortedDisjoint(s) && AllLongEnough(s, duration) && duration > 0
    ensures Advance(s, duration).0 ==>
      Advance(s, duration).1 != [] && Advance(s, duration).1[0].from > s[0].from
    ensures SortedDisjoint(Advance(s, duration).1)
  {
    var s' := Advance(s, duration).1;
    if s != [] && s[0].to - s[0].from - SlideStep >= duration {
      forall i, j | 0 <= i < j < |s'| ensures s'[i].to <= s'[j].from {
        assert s[i].to <= s[j].from;
      }
    } else if s != [] && |s| > 1 {
      assert s[0].to <= s[1].from;
      forall i, j | 0 <= i < j < |s'| ensures s'[i].to <= s'[j].from {
        assert s'[i] == s[i + 1] && s'[j] == s[j + 1];
      }
    }
  }

  /** Once tryLater has answered false, asking again answers false again and
      changes nothing. */
  lemma AdvanceStopsForGood(s: seq<Interval>, duration: int)
    requires !Advance(s, duration).0
    ensures Advance(Advance(s, duration).1, duration) == Advance(s, duration)
  {
  }

  /** The text `replace` inserts for the day: the day's key, or "undefined"
      when getKeyByValue finds none. */
  function DayText(d: Option<Day>): (r: string)
    ensures '%' !in r && r != []
  {
    match d
    case Some(x) => DayName(x)
    case None => "undefined"
  }

  /** The template with `%DD`, `%HH` and `%MM` replaced, in that order and
      each at its first occurrence only, by the parts of `stamp`. */
  function FillTemplate(template: string, stamp: Stamp): string {
    ReplaceFirst(ReplaceFirst(ReplaceFirst(template, "%DD", DayText(stamp.day)), "%HH", stamp.hours), "%MM", stamp.minutes)
  }

  /** The handle. `ranges` is the candidate array it captures (sorted by
      start when built), `duration` the requested length in minutes. */
  class RobberyHandle {
    var ranges: seq<Interval>
    const duration: int

    /** Every window left is long enough for the robbery. */
    ghost predicate Valid()
      reads this
    {
      AllLongEnough(ranges, duration)
    }

    constructor (ranges: seq<Interval>, duration: int)
      requires AllLongEnough(ranges, duration)
      ensures this.ranges == ranges && this.duration == duration
      ensures Valid()
    {
      this.ranges := ranges;
      this.duration := duration;
    }

    /** exists: some window is left. */
    function Exists(): bool
      reads this
    {
      |ranges| > 0
    }

    /** format: the empty string when no window is left; otherwise the
        template filled with the day, hour and minute of the first window's
        start. */
    function Format(template: string): string
      reads this
    {
      if |ranges| == 0 then ""
      else FillTemplate(template, MinutesToDatestamp(ranges[0].from))
    }

    /** tryLater. */
    method TryLater() returns (ok: bool)
      modifies this
      ensures (ok, ranges) == Advance(old(ranges), duration)
      ensures old(ranges) == [] ==> !ok && ranges == []
      ensures old(ranges) != [] && old(ranges[0].to - ranges[0].from) - SlideStep >= duration ==>
        ok && |ranges| == old(|ranges|) && ranges[1..] == old(ranges[1..]) &&
        ranges[0] == Interval(old(ranges[0].from) + SlideStep, old(ranges[0].to)) &&
        ranges[0].to - ranges[0].from >= duration
      ensures old(ranges) != [] && old(ranges[0].to - ranges[0].from) - SlideStep < duration ==>
        if old(|ranges|) == 1 then !ok && ranges == old(ranges) else ok && ranges == old(ranges[1..])
      ensures old(Valid()) ==> Valid()
    {
      if !Exists() {
        return false;
      }
      var current := ranges[0];
      if current.to - current.from - SlideStep >= duration {
        ranges := ranges[0 := Interval(current.from + SlideStep, current.to)];
        return true;
      }
      if |ranges| == 1 {
        return false;
      }
      var before := ranges;
      ranges := ranges[1..];
      if AllLongEnough(before, duration) {
        AdvanceKeepsWindows(before, duration);
      }
      return true;
    }
  }

  /** `format` answers the empty string exactly when no window is left, for
      any non-empty template. */
  lemma FormatEmptyIff(h: RobberyHandle, template: string)
    ensures h.Format(template) == "" <==> !h.Exists() || template == ""
  {
    if h.Exists() {
      var st := MinutesToDatestamp(h.ranges[0].from);
      if template != [] {
        var r1 := ReplaceFirst(template, "%DD", DayText(st.day));
        var r2 := ReplaceFirst(r1, "%HH", st.hours);
        assert r1 != [];
        assert st.hours != [] by { PadNonEmpty(JsRem((h.ranges[0].from - JsRem(h.ranges[0].from, 60)) / 60, 24)); }
        assert r2 != [];
        assert st.minutes != [] by { PadNonEmpty(JsRem(h.ranges[0].from, 60)); }
      } else {
        var r1 := ReplaceFirst(template, "%DD", DayText(st.day));
        assert r1 == template;
        assert ReplaceFirst(r1, "%HH", st.hours) == r1;
      }
    }
  }

  lemma PadNonEmpty(v: int)
    ensures Pad2(v) != []
  {
  }

  /** Filling "%DD" in a + "%HH" + b + "%MM" + c + "%DD" + d: the two
      earlier '%' start other placeholders, so the day lands where "%DD"
      stands. */
  lemma FillDay(a: string, b: string, c: string, d: string, day: string)
    requires '%' !in a && '%' !in b && '%' !in c
    ensures ReplaceFirst(a + "%HH" + b + "%MM" + c + "%DD" + d, "%DD", day)
         == a + "%HH" + b + "%MM" + (c + day + d)
  {
    var q := a + "%HH" + b + "%MM";
    var tail := "%DD" + d;
    assert q + c + "%DD" + d == (q + c) + tail;
    NoDayPlaceholderBefore(a, b, c, tail);
    ReplaceFirstSkipPrefix(q + c, tail, "%DD", day);
    assert tail[..3] == "%DD" && tail[3..] == d;
    assert ReplaceFirst(tail, "%DD", day) == day + d;
    assert (q + c) + (day + d) == q + (c + day + d);
  }

  /** Filling "%HH" and then "%MM" where each is the first '%' left. */
  lemma FillClock(a: string, b: string, rest: string, hh: string, mm: string)
    requires '%' !in a && '%' !in b && '%' !in hh
    ensures ReplaceFirst(ReplaceFirst(a + "%HH" + b + "%MM" + rest, "%HH", hh), "%MM", mm)
         == a + hh + b + mm + rest
  {
    assert a + "%HH" + b + "%MM" + rest == a + "%HH" + (b + "%MM" + rest);
    ReplaceAfterPlain(a, "%HH", b + "%MM" + rest, hh);
    var p := a + hh + b;
    assert '%' !in p;
    assert a + hh + (b + "%MM" + rest) == p + "%MM" + rest;
    ReplaceAfterPlain(p, "%MM", rest, mm);
    assert p + mm + rest == a + hh + b + mm + rest;
  }

  /** The source's own template layout, "Начинаем в %HH:%MM (%DD)": any text
      with no '%' in the text before the three placeholders, in that order, gets the hour,
      the minute and the day in their places. */
  lemma FillTemplateLayout(st: Stamp, a: string, b: string, c: string, d: string)
    requires '%' !in a && '%' !in b && '%' !in c && '%' !in st.hours
    ensures FillTemplate(a + "%HH" + b + "%MM" + c + "%DD" + d, st)
         == a + st.hours + b + st.minutes + c + DayText(st.day) + d
  {
    var day := DayText(st.day);
    var rest := c + day + d;
    FillDay(a, b, c, d, day);
    FillClock(a, b, rest, st.hours, st.minutes);
    var head := a + st.hours + b + st.minutes;
    assert head + rest == head + c + day + d;
  }

  /** The hour `minutesToDatestamp` prints holds no '%'. */
  lemma StampHoursPlain(time: int)
    ensures '%' !in MinutesToDatestamp(time).hours
  {
    Pad2NoPercent(JsRem((time - JsRem(time, 60)) / 60, 24));
  }

  /** `format` on that layout puts the padded hour, the padded minute and the
      day's key of the first window's start in the placeholders' places. */
  lemma FormatTemplate(h: RobberyHandle, a: string, b: string, c: string, d: string)
    requires h.Exists()
    requires '%' !in a && '%' !in b && '%' !in c
    ensures var st := MinutesToDatestamp(h.ranges[0].from);
      h.Format(a + "%HH" + b + "%MM" + c + "%DD" + d)
        == a + st.hours + b + st.minutes + c + DayText(st.day) + d
  {
    StampHoursPlain(h.ranges[0].from);
    FillTemplateLayout(MinutesToDatestamp(h.ranges[0].from), a, b, c, d);
  }

  /** In a + "%HH" + b + "%MM" + c no "%DD" starts: its only two '%' are
      followed by 'H' and 'M'. */
  lemma NoDayPlaceholderBefore(a: string, b: string, c: string, rest: string)
    requires '%' !in a && '%' !in b && '%' !in c
    ensures forall j: nat :: j < |a + "%HH" + b + "%MM" + c| ==>
      !OccursAt(a + "%HH" + b + "%MM" + c + rest, "%DD", j)
  {
    var p := a + "%HH" + b + "%MM" + c;
    var s := p + rest;
    var h, m := |a|, |a| + 3 + |b|;
    assert s[h] == '%' && s[h + 1] == 'H' && s[h + 2] == 'H';
    assert s[m] == '%' && s[m + 1] == 'M' && s[m + 2] == 'M';
    forall j: nat | j < |p| ensures !OccursAt(s, "%DD", j) {
      var notStart := s[j] != '%' || s[j + 1] != 'D';
      if j < h {
        assert s[j] == a[j];
      } else if h + 3 <= j < m {
        assert s[j] == b[j - h - 3];
      } else if m + 3 <= j {
        assert s[j] == c[j - m - 3];
      }
      assert notStart;
      if j + 3 <= |s| {
        assert s[j..j + 3][0] == s[j] && s[j..j + 3][1] == s[j + 1];
      }
    }
  }

  /** A first window that starts at a well-formed timestamp is formatted
      with that timestamp's day, hour and minute. */
  lemma FormatWindowStart(h: RobberyHandle, t: Token, a: string, b: string, c: string, d: string)
    requires h.Exists() && WellFormedToken(t) && h.ranges[0].from == DatestampToMinutes(t)
    requires '%' !in a && '%' !in b && '%' !in c
    ensures h.Format(a + "%HH" + b + "%MM" + c + "%DD" + d)
         == a + Pad2(t.hour) + b + Pad2(t.minute) + c + DayName(t.day) + d
  {
    FormatTemplate(h, a, b, c, d);
    DatestampRoundTrip(t);
  }

  /** The example of the handle's documentation: a first window that starts
      on Wednesday at 14:59 reads "Начинаем в 14:59 (СР)". */
  lemma FormatDocumentedExample(h: RobberyHandle)
    requires h.Exists() && h.ranges[0].from == (48 + 14) * 60 + 59
    ensures h.Format("Начинаем в %HH:%MM (%DD)") == "Начинаем в 14:59 (СР)"
  {
    var a, b, c, d := "Начинаем в ", ":", " (", ")";
    DocumentedClockDigits();
    DocumentedLayout(a, b, c, d);
    FormatWindowStart(h, Token(Wed, 14, 59, 0), a, b, c, d);
  }

  lemma DocumentedClockDigits()
    ensures Pad2(14) == "14" && Pad2(59) == "59"
  {
    assert NatToString(14) == NatToString(1) + [DigitChar(4)];
    assert NatToString(59) == NatToString(5) + [DigitChar(9)];
  }

  lemma DocumentedLayout(a: string, b: string, c: string, d: string)
    requires a == "Начинаем в " && b == ":" && c == " (" && d == ")"
    ensures a + "%HH" + b + "%MM" + c + "%DD" + d == "Начинаем в %HH:%MM (%DD)"
    ensures a + "14" + b + "59" + c + "СР" + d == "Начинаем в 14:59 (СР)"
  {
  }

  /** getAppropriateMoment: the bank's hours over the three days, the gang's
      free time in the bank's zone (the zone of the opening time), their
      common windows long enough for the robbery, sorted by start, wrapped in
      a fresh handle. */
  method GetAppropriateMoment(gang: Gang, duration: int, hours: WorkingHours) returns (handle: RobberyHandle)
    ensures fresh(handle)
    ensures handle.duration == duration
    ensures handle.ranges
         == SortByFrom(Candidates(RobberFree(gang, hours.from.offset), BankIntervals(hours), duration))
    ensures handle.Valid()
  {
    var bankTimeZone := hours.from.offset;
    var bankTokens := GetBankScheduleInDatestamp(hours);
    var bankSchedule := GetBankSchedule(bankTokens);
    assert bankSchedule == BankIntervals(hours) by {
      forall k | 0 <= k < 3 ensures bankSchedule[k] == BankIntervals(hours)[k] {
        OnDayMinutes(hours.from, k);
        OnDayMinutes(hours.to, k);
      }
    }
    var robberSchedule := GetRobberSchedule(gang, bankTimeZone);
    var timeRanges := GetTimeToRobbery(robberSchedule, bankSchedule, duration);
    var sorted := SortByFrom(timeRanges);
    assert AllLongEnough(sorted, duration) by {
      forall k | 0 <= k < |sorted| ensures sorted[k].to - sorted[k].from >= duration {
        assert sorted[k] in multiset(sorted);
        assert sorted[k] in timeRanges;
        var j :| 0 <= j < |timeRanges| && timeRanges[j] == sorted[k];
      }
    }
    handle := new RobberyHandle(sorted, duration);
  }
}
