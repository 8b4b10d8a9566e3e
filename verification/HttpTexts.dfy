/**
 Which texts fromHttpDate accepts and what it reads in them, said of the characters of the text: dates with four
 digits of the year or with two, and what is wrong with the texts that are refused.
 */
module HttpTexts {
  import opened Calendar
  import opened HttpDate
  import opened Machine
  import opened StringConversion

  /** A date and a time in their places, with n digits of the year.  Names and the marks between the digits are open. */
  ghost predicate Shaped(s: string, n: nat) {
    && (n == 2 || n == 4) && |s| >= 21 + n && s[3] == ',' && ',' !in s[..3]
    && AllDigits(s[5..7]) && !IsDigit(s[7]) && s[7] != '\0'
    && AllDigits(s[12..12 + n]) && s[12 + n] == ' '
    && AllDigits(s[13 + n..15 + n]) && !IsDigit(s[15 + n])
    && AllDigits(s[16 + n..18 + n]) && !IsDigit(s[18 + n])
    && AllDigits(s[19 + n..21 + n]) && (|s| > 21 + n ==> !IsDigit(s[21 + n]))
  }

  function Number(s: string, from: nat, to: nat): int
    requires from <= to <= |s|
  {
    ValueOf(s[from..to], 10)
  }

  lemma {:induction false} NumberBelow(t: string)
    requires AllDigits(t) && |t| <= 4
    ensures 0 <= ValueOf(t, 10) < (if |t| <= 2 then 100 else 10000)
    ensures |t| <= 1 ==> ValueOf(t, 10) < 10
    ensures |t| <= 3 ==> ValueOf(t, 10) < 1000
  {
    if t != [] {
      var n := |t| - 1;
      assert IsDigit(t[n]);
      NumberBelow(t[..n]);
    }
  }

  lemma NumberRead(s: string, p: nat, q: nat, e: nat)
    requires p <= q < e <= |s| && e <= q + 4 && q <= p + 1 && (p < q ==> s[p] == ' ')
    requires AllDigits(s[q..e]) && (e < |s| ==> !IsDigit(s[e]))
    ensures Strtol(s, p) == (Number(s, q, e), e)
    ensures 0 <= Number(s, q, e) < (if e <= q + 2 then 100 else 10000)
  {
    hide Strtol;
    NumberBelow(s[q..e]);
    StrtolReads(s, p, q, e);
  }

  // ---------------------------------------------------------------- names

  ghost predicate Known(names: seq<string>, t: string)
    requires forall i :: 0 <= i < |names| ==> |names[i]| >= 3
  {
    exists i :: 0 <= i < |names| && names[i][..3] == t
  }

  lemma MatchesIs(name: string, s: string, p: nat)
    requires |name| >= 3 && p + 3 <= |s|
    ensures Matches(name, s, p) <==> name[..3] == s[p..p + 3]
  {
    assert s[p..p + 3] == [s[p], s[p + 1], s[p + 2]] && name[..3] == [name[0], name[1], name[2]];
  }

  /** The index found is that of the first name with those characters; there is one if and only if the name is known. */
  lemma {:induction false} MatchIsFirst(names: seq<string>, s: string, p: nat, i: nat)
    requires i <= |names| && p + 3 <= |s| && forall j :: 0 <= j < |names| ==> |names[j]| >= 3
    ensures var r := FirstMatch(names, s, p, i);
            && (r < |names| ==> names[r][..3] == s[p..p + 3])
            && forall j :: i <= j < r ==> names[j][..3] != s[p..p + 3]
    decreases |names| - i
  {
    if i < |names| {
      MatchesIs(names[i], s, p);
      if !Matches(names[i], s, p) {
        hide Matches;
        MatchIsFirst(names, s, p, i + 1);
      }
    }
  }

  lemma KnownIff(names: seq<string>, s: string, p: nat)
    requires p + 3 <= |s| && forall j :: 0 <= j < |names| ==> |names[j]| >= 3
    ensures FirstMatch(names, s, p, 0) < |names| <==> Known(names, s[p..p + 3])
  {
    hide FirstMatch;
    MatchIsFirst(names, s, p, 0);
  }

  // ---------------------------------------------------------------- accepted and refused

  /** The year meant by a number: below 100 it is the one with these digits from 1970 to 2069. */
  predicate IsYear(year: int, number: int) {
    if number < 100 then 1970 <= year <= 2069 && year % 100 == number else year == number
  }

  lemma YearWidened(number: int)
    requires 0 <= number < 10000
    ensures IsYear(WidenYear(I16(number)), number)
  {
    assert I16(number) == number;
  }

  /** What is made of the numbers of the time, once they are read. */
  lemma TimeParsed(s: string, n: nat, d: Stamp, year: int, hour: int, min: int, sec: int)
    requires |s| >= 21 + n && s[12 + n] == ' ' && 0 <= d.f.month <= 11
    requires Strtol(s, 12) == (year, 12 + n) && Strtol(s, 12 + n) == (hour, 15 + n)
    requires Strtol(s, 16 + n) == (min, 18 + n) && Strtol(s, 19 + n) == (sec, 21 + n)
    requires 0 <= hour < 100 && 0 <= min < 100 && 0 <= sec < 100
    ensures var r := ParseTime(s, 12, d);
            var f := Fields(sec, min, hour, d.f.day, d.f.month, WidenYear(I16(year)));
            && (r.ok <==> s[15 + n] == ':' && s[18 + n] == ':')
            && (r.ok ==> r.d == Stamp(f, d.wday, DayOfYear(f), 0))
  {
    FitsI8(hour);
    FitsI8(min);
    FitsI8(sec);
    assert At(s, 12 + n) == ' ' && At(s, 15 + n) == s[15 + n] && At(s, 18 + n) == s[18 + n];
    hide Strtol, At, I8, I16, MonthStart, WidenYear;
  }

  /** The time of day after the month: accepted if and only if colons are between its numbers. */
  lemma TimeAcceptedIff(s: string, n: nat, d: Stamp)
    requires Shaped(s, n) && 0 <= d.f.month <= 11
    ensures var r := ParseTime(s, 12, d);
            && (r.ok <==> s[15 + n] == ':' && s[18 + n] == ':')
            && (r.ok ==> IsYear(r.d.f.year, Number(s, 12, 12 + n)) && r.d.wday == d.wday && r.d.ms == 0)
            && (r.ok ==> r.d.f == Fields(Number(s, 19 + n, 21 + n), Number(s, 16 + n, 18 + n),
                                         Number(s, 13 + n, 15 + n), d.f.day, d.f.month, r.d.f.year))
            && (r.ok ==> r.d.yday == DayOfYear(r.d.f))
  {
    NumberRead(s, 12, 12, 12 + n);
    NumberRead(s, 12 + n, 13 + n, 15 + n);
    NumberRead(s, 16 + n, 16 + n, 18 + n);
    NumberRead(s, 19 + n, 19 + n, 21 + n);
    hide Strtol, Number, I16, MonthStart, ParseTime, WidenYear, IsYear;
    YearWidened(Number(s, 12, 12 + n));
    TimeParsed(s, n, d, Number(s, 12, 12 + n), Number(s, 13 + n, 15 + n), Number(s, 16 + n, 18 + n),
               Number(s, 19 + n, 21 + n));
  }

  lemma ShapedHead(s: string, n: nat)
    requires Shaped(s, n)
    ensures IndexOf(s, ',', 0) == 3 && |s| - 3 >= 20
    ensures Strtol(s, 5) == (Number(s, 5, 7), 7) && 0 <= Number(s, 5, 7) < 100 && At(s, 7) == s[7] != '\0'
  {
    assert s[0..3] == s[..3];
    CommaFound(s);
    NumberRead(s, 5, 5, 7);
  }

  lemma HeadRead(loc: Locale, s: string, was: Stamp, day: int)
    requires loc.Usable() && IndexOf(s, ',', 0) == 3 && |s| - 3 >= 20
    requires Strtol(s, 5) == (day, 7) && 0 <= day < 100 && At(s, 7) != '\0'
    ensures var w, m := FirstMatch(loc.days, s, 0, 0), FirstMatch(loc.months, s, 8, 0);
            var d := was.(wday := w, f := was.f.(day := day, month := m));
            && (w > 6 ==> ParseHttp(loc, s, was) == Parsed(false, was.(wday := w)))
            && (w <= 6 && m > 11 ==> ParseHttp(loc, s, was) == Parsed(false, d))
            && (w <= 6 && m <= 11 ==> ParseHttp(loc, s, was) == ParseTime(s, 12, d))
  {
    FitsI8(day);
    hide Strtol, At, I8, FirstMatch, IndexOf, ParseTime;
  }

  /**
   A text with a date and a time in their places is accepted if and only if both names are known and colons are
   between the numbers of the time.  The numbers are then the fields, and the names stand for the first ones like them.
   */
  lemma DateAcceptedIff(loc: Locale, s: string, n: nat, was: Stamp)
    requires loc.Usable() && Shaped(s, n)
    ensures var r := ParseHttp(loc, s, was);
            && (r.ok <==> Known(loc.days, s[..3]) && Known(loc.months, s[8..11]) &&
                          s[15 + n] == ':' && s[18 + n] == ':')
            && (r.ok ==> IsYear(r.d.f.year, Number(s, 12, 12 + n)))
            && (r.ok ==> r.d.wday == FirstMatch(loc.days, s, 0, 0) && r.d.f.month == FirstMatch(loc.months, s, 8, 0))
            && (r.ok ==> r.d.f == Fields(Number(s, 19 + n, 21 + n), Number(s, 16 + n, 18 + n),
                                         Number(s, 13 + n, 15 + n), Number(s, 5, 7), r.d.f.month, r.d.f.year))
            && (r.ok ==> 0 <= r.d.f.month <= 11 && r.d.yday == DayOfYear(r.d.f) && r.d.ms == 0)
  {
    NamesKnownIff(loc, s, n);
    ShapedHead(s, n);
    var w, m := FirstMatch(loc.days, s, 0, 0), FirstMatch(loc.months, s, 8, 0);
    hide Strtol, Number, At, IndexOf, MonthStart, ParseHttp, ParseTime, FirstMatch, IsYear, Known, Locale.Usable;
    HeadRead(loc, s, was, Number(s, 5, 7));
    if w <= 6 && m <= 11 {
      TimeAcceptedIff(s, n, was.(wday := w, f := was.f.(day := Number(s, 5, 7), month := m)));
    }
  }

  lemma NamesKnownIff(loc: Locale, s: string, n: nat)
    requires loc.Usable() && Shaped(s, n)
    ensures FirstMatch(loc.days, s, 0, 0) <= 6 <==> Known(loc.days, s[..3])
    ensures FirstMatch(loc.months, s, 8, 0) <= 11 <==> Known(loc.months, s[8..11])
  {
    hide FirstMatch, Known;
    KnownIff(loc.days, s, 0);
    KnownIff(loc.months, s, 8);
    assert s[0..3] == s[..3];
  }

  /** The first place of a character, or that there is none. */
  lemma {:induction false} IndexOfFirst(s: string, c: char, p: nat)
    requires p <= |s|
    ensures var r := IndexOf(s, c, p);
            if r < 0 then c !in s[p..] else s[r] == c && c !in s[p..r]
    decreases |s| - p
  {
    if p < |s| && s[p] != c {
      IndexOfFirst(s, c, p + 1);
      assert s[p..] == [s[p]] + s[p + 1..];
      var r := IndexOf(s, c, p + 1);
      if r >= 0 {
        assert s[p..r] == [s[p]] + s[p + 1..r];
      }
    }
  }

  /** Without a comma, or with too little behind the first one, a text is refused and the object stays as it was. */
  lemma NoDateRefused(loc: Locale, s: string, was: Stamp)
    requires loc.Usable() && (',' in s ==> exists i :: 0 <= i < |s| && s[i] == ',' && ',' !in s[..i] && |s| - i < 20)
    ensures ParseHttp(loc, s, was) == Parsed(false, was)
  {
    IndexOfFirst(s, ',', 0);
    assert s[0..] == s;
    var r := IndexOf(s, ',', 0);
    if ',' in s {
      var i :| 0 <= i < |s| && s[i] == ',' && ',' !in s[..i] && |s| - i < 20;
      assert r >= 0 && s[0..r] == s[..r];
      assert r == i;
    }
    hide IndexOf;
  }

  /** With an unknown name of the day it is refused, too, and no field of the date is touched. */
  lemma UnknownDayRefused(loc: Locale, s: string, was: Stamp)
    requires loc.Usable() && |s| >= 3 && !Known(loc.days, s[..3])
    ensures !ParseHttp(loc, s, was).ok && ParseHttp(loc, s, was).d.f == was.f
  {
    KnownIff(loc.days, s, 0);
    assert s[0..3] == s[..3];
    hide IndexOf, FirstMatch, Strtol, ParseTime, Known;
  }

  // ---------------------------------------------------------------- two digits of the year

  /** The printed date with the last two digits of the year. */
  function ShortParts(loc: Locale, d: Stamp): Parts
    requires loc.Usable() && d.f.Valid() && 0 <= d.wday < 7
  {
    PartsOf(loc, d).(year := Pad(d.f.year % 100, 2))
  }

  /** Where its parts are. */
  ghost predicate ShortLayout(s: string, p: Parts) {
    && |s| == 27 && s[0..3] == p.wday && s[3] == ',' && s[5..7] == p.day && s[7] == ' ' && s[8..11] == p.month
    && s[12..14] == p.year && s[14] == ' ' && s[15..17] == p.hour && s[17] == ':' && s[18..20] == p.min
    && s[20] == ':' && s[21..23] == p.sec && s[23] == ' '
  }

  lemma {:induction false} ShortTextLayout(p: Parts)
    requires |p.wday| == 3 && |p.day| == 2 && |p.month| == 3 && |p.year| == 2
    requires |p.hour| == 2 && |p.min| == 2 && |p.sec| == 2
    ensures ShortLayout(HttpText(p), p)
  {
    var s := HttpText(p);
    var x := p.wday + ", " + p.day + " " + p.month + " ";
    var y := ":" + p.min + ":" + p.sec + " GMT";
    assert s == x + (p.year + " " + p.hour + y);
    assert (x + (p.year + " " + p.hour + y))[15..17] == p.hour;
  }

  lemma ShortNumbers(loc: Locale, d: Stamp)
    requires loc.Usable() && d.f.Valid() && 0 <= d.wday < 7
    ensures var p := ShortParts(loc, d);
            && |p.day| == |p.year| == |p.hour| == |p.min| == |p.sec| == 2
            && AllDigits(p.day) && AllDigits(p.year) && AllDigits(p.hour) && AllDigits(p.min) && AllDigits(p.sec)
            && ValueOf(p.day, 10) == d.f.day && ValueOf(p.year, 10) == d.f.year % 100
            && ValueOf(p.hour, 10) == d.f.hour && ValueOf(p.min, 10) == d.f.min && ValueOf(p.sec, 10) == d.f.sec
  {
    DayFits(d.f);
    assert Pow10(2) == 100;
    hide Pad, Pow10, AllDigits, ValueOf, GetMonthDays;
    PadReadsBack(d.f.day, 2);
    PadReadsBack(d.f.year % 100, 2);
    PadReadsBack(d.f.hour, 2);
    PadReadsBack(d.f.min, 2);
    PadReadsBack(d.f.sec, 2);
  }

  lemma SameCentury(year: int, y: int)
    requires 1970 <= year <= 2069 && IsYear(y, year % 100)
    ensures y == year
  {
  }

  lemma ShortShaped(loc: Locale, d: Stamp, s: string)
    requires loc.Usable() && d.f.Valid() && 0 <= d.wday < 7 && ShortLayout(s, ShortParts(loc, d))
    ensures Shaped(s, 2) && s[..3] == loc.days[d.wday][..3] && s[8..11] == loc.months[d.f.month][..3]
    ensures Number(s, 5, 7) == d.f.day && Number(s, 12, 14) == d.f.year % 100 && Number(s, 15, 17) == d.f.hour
    ensures Number(s, 18, 20) == d.f.min && Number(s, 21, 23) == d.f.sec
  {
    ShortNumbers(loc, d);
    assert s[..3] == s[0..3];
    hide Pad, ValueOf, AllDigits, GetMonthDays;
  }

  /**
   A date of 1970 to 2069 printed with two digits of the year is read back, the century included, whatever the
   object held; names as the first ones like them.
   */
  lemma ShortDateRoundTrip(loc: Locale, d: Stamp, was: Stamp)
    requires loc.Usable() && d.f.Valid() && 0 <= d.wday < 7 && d.f.year <= 2069
    ensures FirstSame(loc.months, d.f.month, 0) <= d.f.month
    ensures var g := d.f.(month := FirstSame(loc.months, d.f.month, 0));
            ParseHttp(loc, HttpText(ShortParts(loc, d)), was) ==
              Parsed(true, Stamp(g, FirstSame(loc.days, d.wday, 0), DayOfYear(g), 0))
  {
    var p := ShortParts(loc, d);
    var s := HttpText(p);
    ShortNumbers(loc, d);
    ShortTextLayout(p);
    ShortShaped(loc, d, s);
    MatchIsSame(loc.days, d.wday, 0, s, 0);
    MatchIsSame(loc.months, d.f.month, 0, s, 8);
    FirstSameBelow(loc.months, d.f.month, 0);
    hide ParseHttp, HttpText, ShortParts, FirstMatch, FirstSame, MonthStart, Shaped, ShortLayout, IsYear, Number;
    DateAcceptedIff(loc, s, 2, was);
    SameCentury(d.f.year, ParseHttp(loc, s, was).d.f.year);
  }
}
