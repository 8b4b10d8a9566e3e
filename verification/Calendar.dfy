/**
 Unix time and calendar fields of the DateTime class.

 The calendar is the code's own: every fourth year is a leap year.  Times are taken
 from 1970 on; months count from 0.
 */
module Calendar {
  import opened Arith
  import opened Machine

  const SECS_PER_DAY: nat := 86400

  /** LEAP_YEAR */
  predicate Leap(year: int) {
    year % 4 == 0
  }

  function YearDays(year: int): nat {
    if Leap(year) then 366 else 365
  }

  const MONTH_DAYS: seq<nat> := [31, 28, 31, 30, 31, 30, 31, 31, 30, 31, 30, 31]

  /** getMonthDays; `year` is stored in a `uint8_t` on the way in. */
  function GetMonthDays(month: nat, year: int): nat
    requires month < 12
  {
    if month == 1 && Leap(year % 0x100) then 29 else MONTH_DAYS[month]
  }

  /** Neither that truncation nor counting years from 1900 changes which years are leap years. */
  lemma TruncationKeepsLeap(year: int)
    ensures Leap(year % 0x100) == Leap(year) == Leap(year + 1900) == Leap((year + 1900) % 0x100)
  {
    LowByteKeepsLeap(year);
    LowByteKeepsLeap(year + 1900);
    From1900KeepsLeap(year);
    hide Leap;
  }

  lemma From1900KeepsLeap(year: int)
    ensures Leap(year + 1900) == Leap(year)
  {
    assert year + 1900 == year + 4 * 475;
  }

  lemma LowByteKeepsLeap(year: int)
    ensures Leap(year % 0x100) == Leap(year)
  {
    var q, m := year / 0x100, year % 0x100;
    assert year == 0x100 * q + m;
    SameRemainder(64 * q, m);
  }

  lemma SameRemainder(k: int, m: int)
    ensures (4 * k + m) % 4 == m % 4
  {
  }

  // ---------------------------------------------------------------- the calendar

  /** Days from 1 January 1970 to 1 January of `year`; before 1970 the code counts no leap days. */
  function YearStart(year: int): (d: int)
    ensures year >= 1970 ==> d >= 0
  {
    if year <= 1970 then (year - 1970) * 365 else YearStart(year - 1) + YearDays(year - 1)
  }

  /** Days from 1 January to the first day of `month`. */
  function MonthStart(month: nat, year: int): nat
    requires month <= 12
  {
    if month == 0 then 0 else MonthStart(month - 1, year) + GetMonthDays(month - 1, year)
  }

  datatype Fields = Fields(sec: int, min: int, hour: int, day: int, month: int, year: int) {
    predicate Valid() {
      && 0 <= sec < 60 && 0 <= min < 60 && 0 <= hour < 24
      && 0 <= month < 12 && 1970 <= year
      && 1 <= day <= GetMonthDays(month, year)
    }

    /** Days since 1 January 1970. */
    function Days(): int
      requires 0 <= month <= 12
    {
      YearStart(year) + MonthStart(month, year) + day - 1
    }

    function Seconds(): int
      requires 0 <= month <= 12
    {
      Days() * SECS_PER_DAY + hour * 3600 + min * 60 + sec
    }

    function Weekday(): int
      requires 0 <= month <= 12
    {
      (Days() + 4) % 7
    }
  }

  lemma MonthsFillYear(year: int)
    ensures MonthStart(12, year) == YearDays(year)
  {
    TruncationKeepsLeap(year);
    assert MonthStart(1, year) == 31;
    assert MonthStart(2, year) == 31 + GetMonthDays(1, year);
    assert MonthStart(4, year) == MonthStart(2, year) + 61;
    assert MonthStart(6, year) == MonthStart(4, year) + 61;
    assert MonthStart(8, year) == MonthStart(6, year) + 62;
    assert MonthStart(10, year) == MonthStart(8, year) + 61;
  }

  // ---------------------------------------------------------------- closed forms

  /** Of the years before `year`, from 1970 on, every fourth has a day more: 1972 is the first. */
  lemma {:induction false} YearStartClosed(year: int)
    requires year >= 1970
    ensures YearStart(year) == 365 * (year - 1970) + (year - 1969) / 4
    decreases year
  {
    if year > 1970 {
      YearStartClosed(year - 1);
    }
  }

  /** The months before month m of a year: 31 days of January, and from March on five months of 153 days. */
  function DaysBefore(month: nat, year: int): nat {
    if month < 2 then 31 * month else 59 + (153 * (month - 2) + 2) / 5 + (if year % 4 == 0 then 1 else 0)
  }

  lemma MonthStartClosed(month: nat, year: int)
    requires month <= 12
    ensures MonthStart(month, year) == DaysBefore(month, year)
  {
    TruncationKeepsLeap(year);
    hide Leap;
    assert Leap(year) == (year % 4 == 0) by { LeapIs(year); }
    var m2 := 59 + if Leap(year) then 1 else 0;
    assert MonthStart(1, year) == 31 && MonthStart(2, year) == m2;
    assert MonthStart(3, year) == m2 + 31 && MonthStart(4, year) == m2 + 61;
    assert MonthStart(5, year) == m2 + 92 && MonthStart(6, year) == m2 + 122;
    assert MonthStart(7, year) == m2 + 153 && MonthStart(8, year) == m2 + 184;
    assert MonthStart(9, year) == m2 + 214 && MonthStart(10, year) == m2 + 245;
    assert MonthStart(11, year) == m2 + 275 && MonthStart(12, year) == m2 + 306;
  }

  lemma LeapIs(year: int)
    ensures Leap(year) <==> year % 4 == 0
  {
  }

  /** Seconds from 1 January 1970 to a time of a date, in years of 365 days and every fourth one of 366. */
  function SecondsTo(f: Fields): int
    requires f.month >= 0
  {
    (365 * (f.year - 1970) + (if f.year >= 1970 then (f.year - 1969) / 4 else 0)
     + DaysBefore(f.month, f.year) + f.day - 1) * 86400 + f.hour * 3600 + f.min * 60 + f.sec
  }

  lemma SecondsClosed(f: Fields)
    requires 0 <= f.month <= 12
    ensures f.Seconds() == SecondsTo(f)
  {
    MonthStartClosed(f.month, f.year);
    YearsBegin(f.year);
    if f.year >= 1970 {
      YearStartClosed(f.year);
    }
    hide YearStart, MonthStart, DaysBefore;
  }

  /** Months have 31 or 30 days; February 28, and 29 if and only if the year is a multiple of four. */
  lemma DaysOfMonth(month: nat, year: int)
    requires month < 12
    ensures GetMonthDays(month, year) ==
            if month == 1 then (if year % 4 == 0 then 29 else 28) else if month in {3, 5, 8, 10} then 30 else 31
  {
    TruncationKeepsLeap(year);
  }

  lemma {:induction false} YearStartMonotone(a: int, b: int)
    requires 1970 <= a < b
    ensures YearStart(a) + YearDays(a) <= YearStart(b)
    decreases b - a
  {
    if a + 1 < b {
      YearStartMonotone(a, b - 1);
    }
  }

  lemma {:induction false} MonthStartMonotone(a: nat, b: nat, year: int)
    requires a < b <= 12
    ensures MonthStart(a, year) + GetMonthDays(a, year) <= MonthStart(b, year)
    decreases b - a
  {
    if a + 1 < b {
      MonthStartMonotone(a, b - 1, year);
    }
  }

  /** The day of a valid date within its year. */
  lemma DayInYear(f: Fields)
    requires f.Valid()
    ensures 0 <= MonthStart(f.month, f.year) + f.day - 1 < YearDays(f.year)
  {
    MonthStartMonotone(f.month, 12, f.year);
    MonthsFillYear(f.year);
  }

  /** Two valid dates with the same number of days are the same. */
  lemma SameDay(f: Fields, g: Fields)
    requires f.Valid() && g.Valid() && f.Days() == g.Days()
    ensures f.year == g.year && f.month == g.month && f.day == g.day
  {
    DayInYear(f);
    DayInYear(g);
    if f.year < g.year {
      YearStartMonotone(f.year, g.year);
    } else if g.year < f.year {
      YearStartMonotone(g.year, f.year);
    } else if f.month < g.month {
      MonthStartMonotone(f.month, g.month, f.year);
    } else if g.month < f.month {
      MonthStartMonotone(g.month, f.month, f.year);
    }
  }

  /** Different valid fields are different times. */
  lemma SecondsInjective(f: Fields, g: Fields)
    requires f.Valid() && g.Valid() && f.Seconds() == g.Seconds()
    ensures f == g
  {
    hide Fields.Days;
    var s, t := f.hour * 3600 + f.min * 60 + f.sec, g.hour * 3600 + g.min * 60 + g.sec;
    SameTimeOfDay(f.Days(), s, g.Days(), t);
    SameDay(f, g);
    SameHour(f.hour, f.min, f.sec, g.hour, g.min, g.sec);
  }

  lemma SameTimeOfDay(a: int, s: int, b: int, t: int)
    requires 0 <= s < SECS_PER_DAY && 0 <= t < SECS_PER_DAY && a * SECS_PER_DAY + s == b * SECS_PER_DAY + t
    ensures a == b && s == t
  {
  }

  lemma SameHour(h: int, m: int, s: int, h': int, m': int, s': int)
    requires 0 <= m < 60 && 0 <= s < 60 && 0 <= m' < 60 && 0 <= s' < 60
    requires h * 3600 + m * 60 + s == h' * 3600 + m' * 60 + s'
    ensures h == h' && m == m' && s == s'
  {
  }

  // ---------------------------------------------------------------- conversions

  method FromUnixTime(t: nat) returns (f: Fields, wday: int)
    ensures f.Valid() && f.Seconds() == t
    ensures wday == f.Weekday() && 0 <= wday < 7
    ensures SecondsTo(f) == t && wday == (4 + t / 86400) % 7
    ensures 1 <= f.day <= if f.month == 1 then (if f.year % 4 == 0 then 29 else 28)
                          else if f.month in {3, 5, 8, 10} then 30 else 31
  {
    var epoch := t;
    var sec := epoch % 60;
    epoch := epoch / 60;
    var min := epoch % 60;
    epoch := epoch / 60;
    var hour := epoch % 24;
    epoch := epoch / 24;
    wday := (epoch + 4) % 7;
    var day, month, year := SplitDays(epoch);
    f := Fields(sec, min, hour, day, month, year);
    SecondsClosed(f);
    DaysOfMonth(month, year);
  }

  /** The first day is a Thursday, and the weekday goes on by one every day. */
  method NextWeekday(t: nat) returns (wday: int, next: int)
    ensures t < 86400 ==> wday == 4
    ensures next == if wday == 6 then 0 else wday + 1
  {
    hide SecondsTo, DaysBefore, GetMonthDays, YearStart, MonthStart, Fields.Seconds, Fields.Weekday, Fields.Valid;
    NextDay(t);
    var f, g;
    f, wday := FromUnixTime(t);
    g, next := FromUnixTime(t + 86400);
  }

  lemma NextDay(t: nat)
    ensures t < 86400 ==> (4 + t / 86400) % 7 == 4
    ensures var w := (4 + t / 86400) % 7; (4 + (t + 86400) / 86400) % 7 == if w == 6 then 0 else w + 1
  {
    assert (t + 86400) / 86400 == t / 86400 + 1;
  }

  /** The 29th of February exists if and only if the year is a multiple of four. */
  lemma LeapDayValid(year: int)
    ensures Fields(0, 0, 0, 29, 1, year).Valid() <==> year >= 1970 && year % 4 == 0
  {
    DaysOfMonth(1, year);
    hide GetMonthDays;
  }

  /** The two loops of fromUnixTime. */
  method SplitDays(epoch0: nat) returns (day: int, month: int, year: int)
    ensures Fields(0, 0, 0, day, month, year).Valid()
    ensures Fields(0, 0, 0, day, month, year).Days() == epoch0
  {
    var epoch := epoch0;
    var y := 70;  // years since 1900
    var days := YearDays(y);
    while days <= epoch
      invariant y >= 70
      invariant days == YearStart(y + 1901) && YearStart(y + 1900) <= epoch
      decreases epoch + 366 - days
    {
      TruncationKeepsLeap(y);
      TruncationKeepsLeap(y + 1);
      y := y + 1;
      days := days + YearDays(y);
    }
    TruncationKeepsLeap(y);
    days := days - YearDays(y);
    epoch := epoch - days;
    year := y + 1900;
    MonthsFillYear(year);
    month := 0;
    while month < 12
      invariant 0 <= month <= 12 && epoch >= 0
      invariant MonthStart(month, year) + epoch == epoch0 - YearStart(year) < YearDays(year)
    {
      TruncationKeepsLeap(y);
      var monthDays := GetMonthDays(month, y);
      if epoch >= monthDays {
        epoch := epoch - monthDays;
      } else {
        break;
      }
      month := month + 1;
    }
    day := epoch + 1;
  }

  /** The two-digit years the static toUnixTime accepts. */
  function FullYear(year: int): int {
    if year < 69 then year + 2000 else year
  }

  lemma YearsBegin(year: int)
    ensures YearStart(1970) == 0 && (year < 1970 ==> YearStart(year) == (year - 1970) * 365) && MonthStart(0, year) == 0
  {
  }

  lemma YearStep(i: int)
    requires i >= 1970
    ensures YearStart(i + 1) == YearStart(i) + 365 + if Leap(i) then 1 else 0
  {
  }

  lemma MonthStep(i: nat, year: int)
    requires i < 12
    ensures MonthStart(i + 1, year) == MonthStart(i, year) + GetMonthDays(i, year)
  {
  }

  method ToUnixTime(sec: int, min: int, hour: int, day: int, month: int, year0: int) returns (seconds: int)
    requires 0 <= month <= 12
    ensures seconds == Fields(sec, min, hour, day, month, FullYear(year0)).Seconds()
    ensures year0 >= 69 ==> seconds == SecondsTo(Fields(sec, min, hour, day, month, year0))
    ensures year0 < 69 ==> seconds == SecondsTo(Fields(sec, min, hour, day, month, 2000 + year0))
  {
    SecondsClosed(Fields(sec, min, hour, day, month, FullYear(year0)));
    hide SecondsTo, DaysBefore;
    var year := year0;
    if year < 69 {
      year := year + 2000;
    }
    seconds := CountSeconds(sec, min, hour, day, month, year);
  }

  /** The two loops of toUnixTime. */
  method CountSeconds(sec: int, min: int, hour: int, day: int, month: int, year: int) returns (seconds: int)
    requires 0 <= month <= 12
    ensures seconds == Fields(sec, min, hour, day, month, year).Seconds()
  {
    seconds := (year - 1970) * (SECS_PER_DAY * 365);
    YearsBegin(year);
    hide YearStart, MonthStart, Leap, GetMonthDays;
    var i := 1970;
    while i < year
      invariant 1970 <= i && (i <= year || i == 1970)
      invariant seconds == (year - i) * (SECS_PER_DAY * 365) + YearStart(i) * SECS_PER_DAY
    {
      YearStep(i);
      if Leap(i) {
        seconds := seconds + SECS_PER_DAY;
      }
      i := i + 1;
    }
    i := 0;
    while i < month
      invariant 0 <= i <= month
      invariant seconds == (YearStart(year) + MonthStart(i, year)) * SECS_PER_DAY
    {
      MonthStep(i, year);
      seconds := seconds + SECS_PER_DAY * GetMonthDays(i, year);
      i := i + 1;
    }
    seconds := seconds + (day - 1) * SECS_PER_DAY;
    seconds := seconds + hour * 3600;
    seconds := seconds + min * 60;
    seconds := seconds + sec;
  }

  /** Both conversions undo each other. */
  method RoundTrips(t: nat, f: Fields) returns (t': int, g: Fields)
    requires f.Valid()
    ensures t' == t && g == f
  {
    var u, w := FromUnixTime(t);
    t' := ToUnixTime(u.sec, u.min, u.hour, u.day, u.month, u.year);
    var s := ToUnixTime(f.sec, f.min, f.hour, f.day, f.month, f.year);
    DayInYear(f);
    g, w := FromUnixTime(s);
    SecondsInjective(f, g);
  }

  // ---------------------------------------------------------------- the class

  lemma MillisecondsSplit(ms: int)
    ensures -1000 < Rem(ms, 1000) < 1000 && Quot(ms, 1000) * 1000 + Rem(ms, 1000) == ms
    ensures Rem(ms, 1000) >= 0 <==> ms >= 0 || ms % 1000 == 0
  {
  }

  class DateTime {
    var fields: Fields
    var milliseconds: int
    var dayOfWeek: int
    var dayOfYear: int

    ghost predicate Valid()
      reads this
    {
      && fields.Valid()
      && -1000 < milliseconds < 1000
      && dayOfWeek == fields.Weekday()
      && dayOfYear == MonthStart(fields.month, fields.year) + fields.day
    }

    /** Milliseconds since 1970. */
    ghost function Total(): int
      requires fields.Valid()
      reads this
    {
      fields.Seconds() * 1000 + milliseconds
    }

    constructor (t: nat)
      ensures Valid() && fields.Seconds() == t && milliseconds == 0
    {
      fields, milliseconds, dayOfWeek, dayOfYear := Fields(0, 0, 0, 1, 0, 1970), 0, 0, 0;
      new;
      SetTime(t);
    }

    method SetTime(t: nat)
      modifies this
      ensures Valid() && fields.Seconds() == t && milliseconds == 0
    {
      fields, dayOfWeek := FromUnixTime(t);
      milliseconds := 0;
      CalcDayOfYear();
    }

    /** calcDayOfYear, with its own table of month lengths. */
    method CalcDayOfYear()
      requires 0 <= fields.month <= 12
      modifies `dayOfYear
      ensures dayOfYear == MonthStart(fields.month, fields.year) + fields.day
    {
      dayOfYear := 0;
      var i := 0;
      TruncationKeepsLeap(fields.year);
      while i < fields.month
        invariant 0 <= i <= fields.month && dayOfYear == MonthStart(i, fields.year)
      {
        match i {
          case 8 => dayOfYear := dayOfYear + 30;
          case 3 => dayOfYear := dayOfYear + 30;
          case 5 => dayOfYear := dayOfYear + 30;
          case 10 => dayOfYear := dayOfYear + 30;
          case 1 => dayOfYear := dayOfYear + if Leap(fields.year) then 29 else 28;
          case _ => dayOfYear := dayOfYear + 31;
        }
        i := i + 1;
      }
      dayOfYear := dayOfYear + fields.day;
    }

    /** toUnixTime() */
    method UnixTime() returns (t: int)
      requires fields.Valid()
      ensures t == fields.Seconds() + Quot(milliseconds, 1000)
    {
      t := ToUnixTime(fields.sec + Quot(milliseconds, 1000), fields.min, fields.hour, fields.day, fields.month,
        fields.year);
    }

    /**
     The sum of the milliseconds is a 32-bit `int`: time is conserved if and only if it does not overflow.
     The rest of a millisecond count keeps the sign of the sum.
     */
    method AddMilliseconds(add: int)
      requires Valid() && IsI32(add) && fields.Seconds() + Quot(I32(milliseconds + add), 1000) >= 0
      modifies this
      ensures Valid() && Total() == old(Total()) + Passed(old(milliseconds), add)
      ensures Total() == old(Total()) + add <==> IsI32(old(milliseconds) + add)
      ensures milliseconds == Held(old(milliseconds), add)
      ensures IsI32(old(milliseconds) + add) ==>
                (milliseconds >= 0 <==> old(milliseconds) + add >= 0 || (old(milliseconds) + add) % 1000 == 0)
    {
      var ms := milliseconds;
      ms := I32(ms + add);
      PassedExactIff(milliseconds, add);
      MillisecondsSplit(ms);
      assert Quot(milliseconds, 1000) == 0;
      hide Quot, Rem, I32, MonthStart, YearStart, GetMonthDays, Fields.Weekday;
      var cur := UnixTime();
      cur := cur + Quot(ms, 1000);
      ms := Rem(ms, 1000);
      SetTime(cur);
      milliseconds := ms;
    }

    /** A sequence of such calls that never goes before 1970.  Without overflow what is added up is what has passed. */
    method AddAllMilliseconds(adds: seq<int>)
      requires Valid() && AllowedFrom(Total(), milliseconds, adds)
      modifies this
      ensures Valid() && Total() == old(Total()) + AllPassed(old(milliseconds), adds)
      ensures AllSafe(adds) ==> Total() == old(Total()) + Sum(adds)
    {
      ghost var total, ms := Total(), milliseconds;
      assert adds[..|adds|] == adds;
      if AllSafe(adds) {
        AllPassedExact(ms, adds);
      }
      PassedNone(ms);
      var i := 0;
      while i < |adds|
        invariant 0 <= i <= |adds| && Valid() && Reached(total, ms, adds[..i])
      {
        AddNext(adds, i, total, ms);
        i := i + 1;
      }
    }

    /** What has been added up since `total` is what has passed. */
    ghost predicate Reached(total: int, ms: int, adds: seq<int>)
      requires fields.Valid()
      reads this
    {
      Total() == total + AllPassed(ms, adds) && milliseconds == AllHeld(ms, adds)
    }

    method AddNext(adds: seq<int>, i: nat, ghost total: int, ghost ms: int)
      requires i < |adds| && Valid() && Reached(total, ms, adds[..i]) && AllowedFrom(total, ms, adds)
      modifies this
      ensures Valid() && Reached(total, ms, adds[..i + 1])
    {
      hide AllowedFrom, AllPassed, AllHeld, Passed, Held, I32, Quot, Rem, Fields.Seconds, MonthStart, GetMonthDays;
      AllowedStep(total, ms, adds, i, fields.Seconds());
      AddMilliseconds(adds[i]);
    }
  }

  /** Steps of 32 bits none of which goes before 1970, starting at `total` with ms milliseconds held. */
  predicate AllowedFrom(total: int, ms: int, adds: seq<int>) {
    && (forall k :: 0 <= k < |adds| ==> IsI32(adds[k]))
    && (forall k :: 0 <= k <= |adds| ==> total + AllPassed(ms, adds[..k]) >= 0)
  }

  lemma AllowedStep(total: int, ms: int, adds: seq<int>, i: nat, s: int)
    requires AllowedFrom(total, ms, adds) && i < |adds|
    requires s * 1000 + AllHeld(ms, adds[..i]) == total + AllPassed(ms, adds[..i])
    ensures IsI32(adds[i]) && s + Quot(I32(AllHeld(ms, adds[..i]) + adds[i]), 1000) >= 0
    ensures AllHeld(ms, adds[..i + 1]) == Held(AllHeld(ms, adds[..i]), adds[i])
    ensures AllPassed(ms, adds[..i + 1]) == AllPassed(ms, adds[..i]) + Passed(AllHeld(ms, adds[..i]), adds[i])
  {
    PassedStep(ms, adds, i);
    assert total + AllPassed(ms, adds[..i + 1]) >= 0;
    hide AllPassed, AllHeld, Passed, Held, I32, Quot;
    NotBefore(s, AllHeld(ms, adds[..i]), adds[i]);
  }

  /** The time by which adding to the held milliseconds moves the clock on, and what is held then. */
  function Passed(ms: int, add: int): int {
    I32(ms + add) - ms
  }

  function Held(ms: int, add: int): int {
    Rem(I32(ms + add), 1000)
  }

  lemma PassedExactIff(ms: int, add: int)
    ensures Passed(ms, add) == add <==> IsI32(ms + add)
    ensures -1000 < Held(ms, add) < 1000
    ensures IsI32(ms + add) ==> (Held(ms, add) >= 0 <==> ms + add >= 0 || (ms + add) % 1000 == 0)
  {
    MillisecondsSplit(I32(ms + add));
    hide Rem;
  }

  /** With one millisecond held, the largest step goes back instead of on. */
  lemma LargestStepGoesBack()
    ensures Passed(1, 0x7fff_ffff) == -0x8000_0001
  {
  }

  /** A step that cannot overflow, whatever is held. */
  predicate IsSafe(add: int) {
    -0x7fff_ffff + 999 <= add <= 0x7fff_ffff - 999
  }

  predicate AllSafe(adds: seq<int>) {
    forall k :: 0 <= k < |adds| ==> IsSafe(adds[k])
  }

  function AllHeld(ms: int, adds: seq<int>): int {
    if adds == [] then ms else Held(AllHeld(ms, adds[..|adds| - 1]), adds[|adds| - 1])
  }

  function AllPassed(ms: int, adds: seq<int>): int {
    if adds == [] then 0
    else AllPassed(ms, adds[..|adds| - 1]) + Passed(AllHeld(ms, adds[..|adds| - 1]), adds[|adds| - 1])
  }

  lemma PassedNone(ms: int)
    ensures AllHeld(ms, []) == ms && AllPassed(ms, []) == 0
  {
  }

  lemma PassedStep(ms: int, adds: seq<int>, i: nat)
    requires i < |adds|
    ensures AllHeld(ms, adds[..i + 1]) == Held(AllHeld(ms, adds[..i]), adds[i])
    ensures AllPassed(ms, adds[..i + 1]) == AllPassed(ms, adds[..i]) + Passed(AllHeld(ms, adds[..i]), adds[i])
  {
    assert adds[..i + 1][..i] == adds[..i];
    hide Held, Passed;
  }

  lemma {:induction false} AllPassedExact(ms: int, adds: seq<int>)
    requires -1000 < ms < 1000 && AllSafe(adds)
    ensures AllPassed(ms, adds) == Sum(adds) && -1000 < AllHeld(ms, adds) < 1000
  {
    if adds != [] {
      var n := |adds| - 1;
      AllPassedExact(ms, adds[..n]);
      assert IsSafe(adds[n]);
      hide Held, Passed, I32;
      PassedExactIff(AllHeld(ms, adds[..n]), adds[n]);
    }
  }

  function Sum(xs: seq<int>): int {
    if xs == [] then 0 else Sum(xs[..|xs| - 1]) + xs[|xs| - 1]
  }

  /** A time that is not negative afterwards has no negative seconds on the way. */
  lemma NotBefore(s: int, ms: int, add: int)
    requires s * 1000 + ms + Passed(ms, add) >= 0
    ensures s + Quot(I32(ms + add), 1000) >= 0
  {
    hide I32;
    WholeSeconds(s, I32(ms + add));
  }

  lemma WholeSeconds(s: int, ms: int)
    requires s * 1000 + ms >= 0
    ensures s + Quot(ms, 1000) >= 0
  {
  }
}
