/** The time base of the scheduler: a synthetic week of three named days,
    4320 minutes long, minute 0 being Monday 00:00 in the bank's zone.
    A timestamp such as "ВТ 14:30+5" is taken here already parsed. */
module TimeBase {
  import opened Text

  const MinutesInHour := 60
  /** MAX_MINUTE: the end of the horizon, 3 days of 24 hours of 60 minutes. */
  const HorizonEnd := 4320

  datatype Option<T> = None | Some(value: T)

  /** The keys of the DAYS table. */
  datatype Day = Mon | Tue | Wed

  /** `Object.keys(DAYS)`: the days in the order the table declares them. */
  const Days: seq<Day> := [Mon, Tue, Wed]

  /** The value DAYS gives a day: the hour at which it starts. */
  function BaseHours(d: Day): int {
    match d
    case Mon => 0
    case Tue => 24
    case Wed => 48
  }

  /** The day's key as written in a timestamp. */
  function DayName(d: Day): string {
    match d
    case Mon => "ПН"
    case Tue => "ВТ"
    case Wed => "СР"
  }

  function DayIndex(d: Day): (i: nat)
    ensures i < |Days| && Days[i] == d
  {
    match d
    case Mon => 0
    case Tue => 1
    case Wed => 2
  }

  /** A parsed timestamp "DD HH:MM+O": day, hour, minute and the zone offset
      in hours. */
  datatype Token = Token(day: Day, hour: int, minute: int, offset: int)

  predicate WellFormedToken(t: Token) {
    0 <= t.hour < 24 && 0 <= t.minute < 60
  }

  /** datestampToMinutes: the minute of the week the token names, read on the
      canonical axis; the token's own offset is not applied here. A well-formed
      token lands inside its own day of the horizon. */
  function DatestampToMinutes(t: Token): (m: int)
    ensures WellFormedToken(t) ==>
      DayIndex(t.day) * 1440 <= m < (DayIndex(t.day) + 1) * 1440 &&
      m % 60 == t.minute
  {
    (BaseHours(t.day) + t.hour) * MinutesInHour + t.minute
  }

  /** The instant a token names, counted in minutes of UTC. */
  function UtcMinutes(t: Token): int {
    DatestampToMinutes(t) - t.offset * MinutesInHour
  }

  /** robberDatestampToMinutes: the token's instant seen from the bank's zone,
      that is the token shifted by (bank offset - token offset) hours. No
      clamping: the result may fall outside the horizon. */
  function RobberDatestampToMinutes(bankZone: int, t: Token): (m: int)
    ensures m == UtcMinutes(t) + bankZone * MinutesInHour
  {
    var diff := bankZone - t.offset;
    DatestampToMinutes(t) + diff * MinutesInHour
  }

  /** Two tokens get the same canonical minute exactly when they name the
      same instant, whatever their zones. */
  lemma SameInstantSameMinute(bankZone: int, a: Token, b: Token)
    ensures RobberDatestampToMinutes(bankZone, a) == RobberDatestampToMinutes(bankZone, b)
        <==> UtcMinutes(a) == UtcMinutes(b)
  {
  }

  /** getKeyByValue(DAYS, v): the first key, in declaration order, whose value
      is `v`; `undefined` (None) when there is none. */
  function KeyByValue(v: int): (r: Option<Day>)
    ensures r.Some? ==> BaseHours(r.value) == v
    ensures r.None? <==> v != 0 && v != 24 && v != 48
  {
    assert Days[0] == Mon && Days[1] == Tue && Days[2] == Wed;
    FindKey(Days, v)
  }

  function FindKey(keys: seq<Day>, v: int): (r: Option<Day>)
    ensures r.Some? ==> r.value in keys && BaseHours(r.value) == v
    ensures r.None? ==> forall k :: 0 <= k < |keys| ==> BaseHours(keys[k]) != v
  {
    if keys == [] then None
    else if BaseHours(keys[0]) == v then Some(keys[0])
    else FindKey(keys[1..], v)
  }

  /** The key found for a day's own value is that day. */
  lemma KeyByValueInverse(d: Day)
    ensures KeyByValue(BaseHours(d)) == Some(d)
  {
  }

  /** The quotient of `a / n` truncated toward zero. */
  function TruncQuot(a: int, n: int): int
    requires n > 0
  {
    if a >= 0 then a / n else -((-a) / n)
  }

  /** JavaScript's `a % n` for n > 0: the remainder of division truncated
      toward zero, so it has the sign of `a`. */
  function JsRem(a: int, n: int): (r: int)
    requires n > 0
    ensures a == TruncQuot(a, n) * n + r
    ensures a >= 0 ==> 0 <= r < n
    ensures a < 0 ==> -n < r <= 0
  {
    if a >= 0 then a % n else -((-a) % n)
  }

  /** The moment shown for a minute: the day (None stands for JavaScript's
      `undefined`) and the padded hour and minute. */
  datatype Stamp = Stamp(day: Option<Day>, hours: string, minutes: string)

  /** minutesToDatestamp: the minute of the hour and the hour of the day by
      JavaScript's `%`, the day looked up from the hours left over. A minute
      of the horizon gets the day it lies in and two-digit hour and minute. */
  function MinutesToDatestamp(time: int): (r: Stamp)
    ensures 0 <= time < HorizonEnd ==>
      r.day.Some? &&
      BaseHours(r.day.value) * 60 <= time < BaseHours(r.day.value) * 60 + 1440 &&
      |r.hours| == 2 && |r.minutes| == 2
  {
    var minutes := JsRem(time, 60);
    var h := (time - minutes) / 60;
    var hours := JsRem(h, 24);
    var days := h - hours;
    HorizonClockFields(time, minutes, h, hours);
    Stamp(KeyByValue(days), Pad2(hours), Pad2(minutes))
  }

  /** The fields minutesToDatestamp computes for a minute of the horizon: a
      minute and an hour in range, and hours left over that start one of the
      three days and the day containing the minute. */
  lemma HorizonClockFields(time: int, minutes: int, h: int, hours: int)
    requires minutes == JsRem(time, 60) && h == (time - minutes) / 60 && hours == JsRem(h, 24)
    ensures 0 <= time < HorizonEnd ==>
      (h - hours == 0 || h - hours == 24 || h - hours == 48) &&
      (h - hours) * 60 <= time < (h - hours) * 60 + 1440 &&
      |Pad2(hours)| == 2 && |Pad2(minutes)| == 2
  {
    if 0 <= time < HorizonEnd {
      assert time == h * 60 + minutes;
      assert 0 <= h < 72;
      assert h == (h / 24) * 24 + hours;
      Pad2Digits(hours);
      Pad2Digits(minutes);
    }
  }

  /** Encoding a well-formed token and decoding the minute gives back its day
      and its hour and minute, each padded to two digits. */
  lemma DatestampRoundTrip(t: Token)
    requires WellFormedToken(t)
    ensures MinutesToDatestamp(DatestampToMinutes(t)) == Stamp(Some(t.day), Pad2(t.hour), Pad2(t.minute))
  {
    var b := BaseHours(t.day);
    var h := b + t.hour;
    var time := DatestampToMinutes(t);
    assert time == h * 60 + t.minute;
    HourRemainder(h, t.minute);
    assert JsRem(time, 60) == t.minute;
    assert (time - t.minute) / 60 == h by {
      assert time - t.minute == h * 60;
    }
    DayRemainder(b / 24, t.hour);
    assert JsRem(h, 24) == t.hour;
    KeyByValueInverse(t.day);
  }

  /** `q * 60 + r` with `0 <= r < 60` leaves remainder `r`. */
  lemma HourRemainder(q: nat, r: nat)
    requires r < 60
    ensures (q * 60 + r) % 60 == r
  {
    var x := q * 60 + r;
    assert x == (x / 60) * 60 + x % 60;
  }

  /** `q * 24 + r` with `0 <= r < 24` leaves remainder `r`. */
  lemma DayRemainder(q: nat, r: nat)
    requires r < 24
    ensures (q * 24 + r) % 24 == r
  {
    var x := q * 24 + r;
    assert x == (x / 24) * 24 + x % 24;
  }

  /** Every minute of the horizon is the encoding of exactly the stamp it
      decodes to: a day, an hour in 0..23 and a minute in 0..59. */
  lemma HorizonMinuteDecodes(time: int) returns (t: Token)
    requires 0 <= time < HorizonEnd
    ensures WellFormedToken(t) && t.offset == 0
    ensures DatestampToMinutes(t) == time
    ensures MinutesToDatestamp(time) == Stamp(Some(t.day), Pad2(t.hour), Pad2(t.minute))
  {
    var d := if time < 1440 then Mon else if time < 2880 then Tue else Wed;
    var rest := time - BaseHours(d) * 60;
    t := Token(d, rest / 60, rest % 60, 0);
    DatestampRoundTrip(t);
  }

  /** A minute at or past the end of the horizon has no day: `format` would
      print "undefined" for it. */
  lemma PastHorizonHasNoDay(time: int)
    requires time >= HorizonEnd
    ensures MinutesToDatestamp(time).day == None
  {
    var minutes := JsRem(time, 60);
    var h := (time - minutes) / 60;
    assert h >= 72;
    var hours := JsRem(h, 24);
    assert h - hours >= 72 - 23;
    assert (h - hours) % 24 == 0;
  }
}
