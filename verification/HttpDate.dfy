/**
 The HTTP date of section 7.1.1.1 of RFC 7231, as DateTime prints and parses it.

 Names of days and months come from the locale; the first three characters are used.
 */
module HttpDate {
  import opened Calendar
  import opened Machine
  import opened StringConversion
  import opened Wrappers

  /** Day names from Sunday on, month names from January on. */
  datatype Locale = Locale(days: seq<string>, months: seq<string>) {
    predicate Usable() {
      && |days| == 7 && |months| == 12
      && (forall i :: 0 <= i < 7 ==> |days[i]| >= 3 && ',' !in days[i][..3])
      && (forall i :: 0 <= i < 12 ==> |months[i]| >= 3)
    }
  }

  /** What a DateTime holds: a date with its day of the week and of the year, and milliseconds. */
  datatype Stamp = Stamp(f: Fields, wday: int, yday: int, ms: int)

  function Held(dt: DateTime): Stamp
    reads dt
  {
    Stamp(dt.fields, dt.dayOfWeek, dt.dayOfYear, dt.milliseconds)
  }

  function DayOfYear(f: Fields): int
    requires 0 <= f.month <= 12
  {
    MonthStart(f.month, f.year) + f.day
  }

  // ---------------------------------------------------------------- printing

  /** m_snprintf with "%02d" and "%04d". */
  function Pad(n: nat, width: nat): string {
    Padded(Decimal(n, 10), width, '0')
  }

  /** The texts of the fields: names cut to three characters, numbers filled with zeros. */
  datatype Parts = Parts(wday: string, day: string, month: string, year: string, hour: string, min: string, sec: string)

  function PartsOf(loc: Locale, d: Stamp): Parts
    requires loc.Usable() && d.f.Valid() && 0 <= d.wday < 7
  {
    Parts(loc.days[d.wday][..3], Pad(d.f.day, 2), loc.months[d.f.month][..3], Pad(d.f.year, 4),
          Pad(d.f.hour, 2), Pad(d.f.min, 2), Pad(d.f.sec, 2))
  }

  /** The conversions toHTTPDate uses; `other` stands for the remaining ones of format(). */
  function Conversion(p: Parts, other: char -> Option<string>): (char -> Option<string>) {
    (c: char) =>
      match c
      case 'Y' => Some(p.year)
      case 'b' => Some(p.month)
      case 'd' => Some(p.day)
      case 'a' => Some(p.wday)
      case 'H' => Some(p.hour)
      case 'M' => Some(p.min)
      case 'S' => Some(p.sec)
      case 'T' => Some(p.hour + ":" + p.min + ":" + p.sec)
      case _ => other(c)
  }

  /** format(): an unknown conversion only drops its '%', and so does a '%' at the end. */
  function Expand(fmt: string, conv: char -> Option<string>): string {
    if fmt == [] then []
    else if fmt[0] != '%' then [fmt[0]] + Expand(fmt[1..], conv)
    else if |fmt| == 1 then []
    else
      match conv(fmt[1])
      case Some(text) => text + Expand(fmt[2..], conv)
      case None => Expand(fmt[1..], conv)
  }

  method Format(fmt: string, conv: char -> Option<string>) returns (s: string)
    ensures s == Expand(fmt, conv)
  {
    s := "";
    var pos := 0;
    assert fmt[0..] == fmt;
    while pos < |fmt|
      invariant 0 <= pos <= |fmt|
      invariant s + Expand(fmt[pos..], conv) == Expand(fmt, conv)
    {
      if fmt[pos] == '%' {
        if pos < |fmt| - 1 {
          match conv(fmt[pos + 1]) {
            case Some(buf) => s := s + buf;
            case None => pos := pos - 1;
          }
          pos := pos + 1;
        }
      } else {
        s := s + [fmt[pos]];
      }
      pos := pos + 1;
    }
  }

  /** The format of toHTTPDate, "%a, %d %b %Y %T GMT", around its suffix. */
  function HttpFormat(suffix: string): string {
    "%a," + (" %d" + (" %b" + (" %Y" + (" %T" + suffix))))
  }

  /** The printed date. */
  function HttpText(p: Parts): string {
    p.wday + ", " + p.day + " " + p.month + " " + p.year + " " + p.hour + ":" + p.min + ":" + p.sec + " GMT"
  }

  lemma {:induction false} ExpandPlain(s: string, conv: char -> Option<string>)
    requires '%' !in s
    ensures Expand(s, conv) == s
  {
    if s != [] {
      ExpandPlain(s[1..], conv);
    }
  }

  /** A blank and a conversion. */
  lemma {:induction false} ExpandSpaced(c: char, rest: string, conv: char -> Option<string>)
    requires conv(c).Some?
    ensures Expand([' ', '%', c] + rest, conv) == " " + conv(c).value + Expand(rest, conv)
  {
    var f := [' ', '%', c] + rest;
    assert f[1..][2..] == rest;
    assert Expand(f, conv) == [f[0]] + Expand(f[1..], conv);
    assert Expand(f[1..], conv) == conv(c).value + Expand(rest, conv);
  }

  /** The day of the week and its comma. */
  lemma {:induction false} ExpandFirst(c: char, rest: string, conv: char -> Option<string>)
    requires conv(c).Some?
    ensures Expand(['%', c, ','] + rest, conv) == conv(c).value + ("," + Expand(rest, conv))
  {
    var f := ['%', c, ','] + rest;
    assert f[2..][1..] == rest;
    assert Expand(f, conv) == conv(c).value + Expand(f[2..], conv);
    assert Expand(f[2..], conv) == [f[2]] + Expand(rest, conv);
  }

  /** Joins the parts as Expand meets them. */
  function Joined(a: string, d: string, b: string, y: string, t: string, suffix: string): string {
    a + ("," + (" " + d + (" " + b + (" " + y + (" " + t + suffix)))))
  }

  lemma {:induction false} ExpandHttp(suffix: string, conv: char -> Option<string>)
    requires '%' !in suffix
    requires conv('a').Some? && conv('d').Some? && conv('b').Some? && conv('Y').Some? && conv('T').Some?
    ensures Expand(HttpFormat(suffix), conv) ==
            Joined(conv('a').value, conv('d').value, conv('b').value, conv('Y').value, conv('T').value, suffix)
  {
    ExpandPlain(suffix, conv);
    ExpandSpaced('T', suffix, conv);
    ExpandSpaced('Y', " %T" + suffix, conv);
    ExpandSpaced('b', " %Y" + (" %T" + suffix), conv);
    ExpandSpaced('d', " %b" + (" %Y" + (" %T" + suffix)), conv);
    ExpandFirst('a', " %d" + (" %b" + (" %Y" + (" %T" + suffix))), conv);
  }

  lemma {:induction false} TextAssociates(p: Parts)
    ensures HttpText(p) == Joined(p.wday, p.day, p.month, p.year, p.hour + ":" + p.min + ":" + p.sec, " GMT")
  {
  }

  /** toHTTPDate prints the parts in order. */
  lemma {:induction false} ExpandHttpDate(p: Parts, other: char -> Option<string>)
    ensures Expand(HttpFormat(" GMT"), Conversion(p, other)) == HttpText(p)
  {
    var suffix := " GMT";
    assert '%' !in suffix;
    ExpandHttp(suffix, Conversion(p, other));
    TextAssociates(p);
  }

  method ToHttpDate(loc: Locale, d: Stamp, other: char -> Option<string>) returns (s: string)
    requires loc.Usable() && d.f.Valid() && 0 <= d.wday < 7
    ensures s == HttpText(PartsOf(loc, d))
  {
    var p := PartsOf(loc, d);
    s := Format(HttpFormat(" GMT"), Conversion(p, other));
    ExpandHttpDate(p, other);
  }

  // ---------------------------------------------------------------- numbers in texts

  predicate IsSpace(c: char) {
    c == ' ' || '\t' <= c <= '\r'
  }

  /** A C string: a terminator follows the text. */
  function At(s: string, i: nat): char {
    if i < |s| then s[i] else '\0'
  }

  function SkipSpace(s: string, p: nat): (q: nat)
    ensures p <= q
    decreases |s| - p
  {
    if p < |s| && IsSpace(s[p]) then SkipSpace(s, p + 1) else p
  }

  function DigitEnd(s: string, p: nat): (q: nat)
    ensures p <= q && (p < q ==> q <= |s|)
    decreases |s| - p
  {
    if p < |s| && IsDigit(s[p]) then DigitEnd(s, p + 1) else p
  }

  /** A `long` has 32 bits, and strtol stops at its limits. */
  function Clamp(v: int): int {
    if v < -0x8000_0000 then -0x8000_0000 else if v > 0x7fff_ffff then 0x7fff_ffff else v
  }

  /** strtol with base 10: the number and where it ends; nothing is consumed without digits. */
  function Strtol(s: string, p: nat): (int, nat) {
    var q := SkipSpace(s, p);
    var r := if At(s, q) == '-' || At(s, q) == '+' then q + 1 else q;
    var e := DigitEnd(s, r);
    if e == r then (0, p)
    else (Clamp(if At(s, q) == '-' then -ValueOf(s[r..e], 10) else ValueOf(s[r..e], 10)), e)
  }

  ghost predicate AllDigits(s: string) {
    forall i :: 0 <= i < |s| ==> IsDigit(s[i])
  }

  lemma {:induction false} DigitEndFinds(s: string, p: nat, e: nat)
    requires p <= e <= |s| && AllDigits(s[p..e]) && (e == |s| || !IsDigit(s[e]))
    ensures DigitEnd(s, p) == e
    decreases e - p
  {
    if p < e {
      assert s[p..e][0] == s[p];
      assert s[p..e][1..] == s[p + 1..e];
      DigitEndFinds(s, p + 1, e);
    }
  }

  /** A number after at most one blank is read to its end. */
  lemma {:induction false} StrtolReads(s: string, p: nat, q: nat, e: nat)
    requires p <= q < e <= |s| && q <= p + 1 && (p < q ==> s[p] == ' ')
    requires AllDigits(s[q..e]) && (e == |s| || !IsDigit(s[e]))
    requires 0 <= ValueOf(s[q..e], 10) <= 0x7fff_ffff
    ensures Strtol(s, p) == (ValueOf(s[q..e], 10), e)
  {
    assert IsDigit(s[q..e][0]) && s[q..e][0] == s[q];
    DigitEndFinds(s, q, e);
    assert SkipSpace(s, q) == q;
    assert SkipSpace(s, p) == q;
  }

  function Pow10(k: nat): nat {
    if k == 0 then 1 else 10 * Pow10(k - 1)
  }

  lemma {:induction false} DigitsShort(n: nat, k: nat)
    requires n < Pow10(k)
    ensures |Digits(n, 10)| <= k && AllDigits(Digits(n, 10))
  {
    if n > 0 {
      DigitsShort(n / 10, k - 1);
    }
  }

  lemma {:induction false} LeadingZeros(k: int, t: string)
    ensures ValueOf(Repeat('0', k) + t, 10) == ValueOf(t, 10)
    decreases |t|, k
  {
    assert Unhex('0') == 0;
    hide Unhex;
    if t != [] {
      LeadingZeros(k, t[..|t| - 1]);
      ValueOfSnoc(Repeat('0', k) + t[..|t| - 1], t[|t| - 1], 10);
      assert Repeat('0', k) + t == Repeat('0', k) + t[..|t| - 1] + [t[|t| - 1]];
    } else if k > 0 {
      LeadingZeros(k - 1, []);
      ValueOfSnoc(Repeat('0', k - 1), '0', 10);
      assert Repeat('0', k) + [] == Repeat('0', k - 1) + ['0'] && Repeat('0', k - 1) + [] == Repeat('0', k - 1);
    }
  }

  lemma {:induction false} RepeatZeros(k: int)
    ensures |Repeat('0', k)| == (if k > 0 then k else 0) && AllDigits(Repeat('0', k))
    decreases k
  {
    if k > 0 {
      RepeatZeros(k - 1);
    }
  }

  /** A number that fits is printed with just `width` digits and reads back as itself. */
  lemma {:induction false} PadReadsBack(n: nat, width: nat)
    requires n < Pow10(width) && width > 0
    ensures |Pad(n, width)| == width && AllDigits(Pad(n, width)) && ValueOf(Pad(n, width), 10) == n
  {
    DigitsShort(n, width);
    DigitsRoundTrip(n, 10);
    var t := Decimal(n, 10);
    assert ValueOf(t, 10) == n && 1 <= |t| <= width && AllDigits(t) by {
      if n == 0 {
        ValueOfSnoc("", '0', 10);
      }
    }
    LeadingZeros(width - |t|, t);
    RepeatZeros(width - |t|);
  }

  // ---------------------------------------------------------------- parsing

  /** strncmp over three characters. */
  predicate Matches(name: string, s: string, p: nat)
    requires |name| >= 3
  {
    name[0] == At(s, p) && name[1] == At(s, p + 1) && name[2] == At(s, p + 2)
  }

  /** The first name from i on that matches the text at p, or the number of names. */
  function FirstMatch(names: seq<string>, s: string, p: nat, i: nat): (r: nat)
    requires i <= |names| && forall j :: 0 <= j < |names| ==> |names[j]| >= 3
    ensures i <= r <= |names|
    decreases |names| - i
  {
    if i == |names| || Matches(names[i], s, p) then i else FirstMatch(names, s, p, i + 1)
  }

  method FindName(names: seq<string>, s: string, p: nat) returns (i: nat)
    requires forall j :: 0 <= j < |names| ==> |names[j]| >= 3
    ensures i == FirstMatch(names, s, p, 0)
  {
    i := 0;
    while i < |names|
      invariant i <= |names| && FirstMatch(names, s, p, 0) == FirstMatch(names, s, p, i)
    {
      if Matches(names[i], s, p) {
        break;
      }
      i := i + 1;
    }
  }

  function IndexOf(s: string, c: char, p: nat): (r: int)
    ensures r == -1 || p <= r < |s|
    decreases |s| - p
  {
    if p >= |s| then -1 else if s[p] == c then p else IndexOf(s, c, p + 1)
  }

  /** Two-digit years are 1970 to 2069. */
  function WidenYear(year: int): int {
    if year < 70 then year + 2000 else if year < 100 then year + 1900 else year
  }

  /** Whether the text is accepted, and what the object holds afterwards: a failure keeps what was read before it. */
  datatype Parsed = Parsed(ok: bool, d: Stamp)

  /** The part of fromHttpDate after the month name. */
  function ParseTime(s: string, p: nat, d0: Stamp): Parsed
    requires 0 <= d0.f.month <= 11
  {
    var (year, p1) := Strtol(s, p);
    var d1 := d0.(f := d0.f.(year := I16(year)));
    if At(s, p1) == '\0' then Parsed(false, d1) else
    var (hour, p2) := Strtol(s, p1);
    var d2 := d1.(f := d1.f.(year := WidenYear(I16(year)), hour := I8(hour)));
    if At(s, p2) != ':' then Parsed(false, d2) else
    var (min, p3) := Strtol(s, p2 + 1);
    var d3 := d2.(f := d2.f.(min := I8(min)));
    if At(s, p3) != ':' then Parsed(false, d3) else
    var (sec, _) := Strtol(s, p3 + 1);
    var f := d3.f.(sec := I8(sec));
    Parsed(true, Stamp(f, d3.wday, DayOfYear(f), 0))
  }

  /** fromHttpDate, on an object that holds d. */
  function ParseHttp(loc: Locale, s: string, d: Stamp): Parsed
    requires loc.Usable()
  {
    var comma := IndexOf(s, ',', 0);
    if comma < 0 || |s| - comma < 20 then Parsed(false, d) else
    var wday := FirstMatch(loc.days, s, 0, 0);
    var d1 := d.(wday := wday);
    if wday > 6 then Parsed(false, d1) else
    var (day, p1) := Strtol(s, comma + 2);
    var d2 := d1.(f := d1.f.(day := I8(day)));
    if At(s, p1) == '\0' then Parsed(false, d2) else
    var month := FirstMatch(loc.months, s, p1 + 1, 0);
    var d3 := d2.(f := d2.f.(month := month));
    if month > 11 then Parsed(false, d3) else
    ParseTime(s, p1 + 5, d3)
  }

  method FromHttpDate(dt: DateTime, loc: Locale, s: string) returns (ok: bool)
    requires loc.Usable()
    modifies dt
    ensures Parsed(ok, Held(dt)) == ParseHttp(loc, s, old(Held(dt)))
  {
    hide Strtol, At, I8, FirstMatch, IndexOf, ParseTime;
    ok := false;
    var first := IndexOf(s, ',', 0);
    if first < 0 || |s| - first < 20 {
      return;
    }
    first := first + 2;
    dt.dayOfWeek := FindName(loc.days, s, 0);
    if dt.dayOfWeek > 6 {
      return;
    }
    var (day, p1) := Strtol(s, first);
    dt.fields := dt.fields.(day := I8(day));
    if At(s, p1) == '\0' {
      return;
    }
    var month := FindName(loc.months, s, p1 + 1);
    dt.fields := dt.fields.(month := month);
    if month > 11 {
      return;
    }
    ok := ReadTime(dt, s, p1 + 5);
  }

  /** The part of fromHttpDate after the month name. */
  method ReadTime(dt: DateTime, s: string, p: nat) returns (ok: bool)
    requires 0 <= dt.fields.month <= 11
    modifies dt
    ensures Parsed(ok, Held(dt)) == ParseTime(s, p, old(Held(dt)))
  {
    hide Strtol, At, I8, I16, MonthStart;
    ok := false;
    var (year, p1) := Strtol(s, p);
    dt.fields := dt.fields.(year := I16(year));
    if At(s, p1) == '\0' {
      return;
    }
    if dt.fields.year < 70 {
      dt.fields := dt.fields.(year := dt.fields.year + 2000);
    } else if dt.fields.year < 100 {
      dt.fields := dt.fields.(year := dt.fields.year + 1900);
    }
    var (hour, p2) := Strtol(s, p1);
    dt.fields := dt.fields.(hour := I8(hour));
    if At(s, p2) != ':' {
      return;
    }
    var (min, p3) := Strtol(s, p2 + 1);
    dt.fields := dt.fields.(min := I8(min));
    if At(s, p3) != ':' {
      return;
    }
    var (sec, _) := Strtol(s, p3 + 1);
    dt.fields := dt.fields.(sec := I8(sec));
    dt.milliseconds := 0;
    dt.CalcDayOfYear();
    ok := true;
  }

  // ---------------------------------------------------------------- round trip

  /** Names whose first three characters are the same. */
  predicate SameStart(a: string, b: string)
    requires |a| >= 3 && |b| >= 3
  {
    a[0] == b[0] && a[1] == b[1] && a[2] == b[2]
  }

  /** The first name with the same three characters as name i. */
  function FirstSame(names: seq<string>, i: nat, j: nat): nat
    requires j <= i < |names| && forall k :: 0 <= k < |names| ==> |names[k]| >= 3
    decreases i - j
  {
    if SameStart(names[j], names[i]) then j else if j == i then i else FirstSame(names, i, j + 1)
  }

  predicate WellSized(p: Parts) {
    |p.wday| == 3 && |p.day| == 2 && |p.month| == 3 && |p.year| == 4 && |p.hour| == 2 && |p.min| == 2 && |p.sec| == 2
  }

  /** Where the parts are. */
  predicate Layout(s: string, p: Parts) {
    && |s| == 29 && s[0..3] == p.wday && s[3] == ',' && s[5..7] == p.day && s[7] == ' ' && s[8..11] == p.month
    && s[12..16] == p.year && s[16] == ' ' && s[17..19] == p.hour && s[19] == ':' && s[20..22] == p.min
    && s[22] == ':' && s[23..25] == p.sec && s[25] == ' '
  }

  lemma {:induction false} TextLayout(p: Parts)
    requires WellSized(p)
    ensures Layout(HttpText(p), p)
  {
    var s := HttpText(p);
    var x := p.wday + ", " + p.day + " " + p.month + " ";
    var y := ":" + p.min + ":" + p.sec + " GMT";
    assert s == x + (p.year + " " + p.hour + y);
    assert (x + (p.year + " " + p.hour + y))[17..19] == p.hour;
  }

  lemma {:induction false} MatchIsSame(names: seq<string>, i: nat, j: nat, s: string, p: nat)
    requires j <= i < |names| && forall k :: 0 <= k < |names| ==> |names[k]| >= 3
    requires p + 3 <= |s| && s[p..p + 3] == names[i][..3]
    ensures FirstMatch(names, s, p, j) == FirstSame(names, i, j)
    decreases i - j
  {
    assert s[p..p + 3] == [s[p], s[p + 1], s[p + 2]];
    assert names[i][..3] == [names[i][0], names[i][1], names[i][2]];
    if !SameStart(names[j], names[i]) {
      MatchIsSame(names, i, j + 1, s, p);
    }
  }

  /** A printed number is read where it stands, or from the blank before it. */
  lemma {:induction false} FieldReadsBack(s: string, p: nat, q: nat, n: nat, width: nat)
    requires width in {2, 4} && n < Pow10(width) && q + width < |s| && s[q..q + width] == Pad(n, width)
    requires !IsDigit(s[q + width]) && p <= q <= p + 1 && (p < q ==> s[p] == ' ')
    ensures Strtol(s, p) == (n, q + width)
  {
    PadReadsBack(n, width);
    assert Pow10(2) == 100 && Pow10(4) == 10000;
    StrtolReads(s, p, q, q + width);
  }

  lemma {:induction false} TimeParses(s: string, d: Stamp, year: int, hour: int, min: int, sec: int)
    requires |s| == 29 && s[16] == ' ' && s[19] == ':' && s[22] == ':' && 0 <= d.f.month <= 11
    requires Strtol(s, 12) == (year, 16) && Strtol(s, 16) == (hour, 19)
    requires Strtol(s, 20) == (min, 22) && Strtol(s, 23) == (sec, 25)
    requires 100 <= year <= 9999 && 0 <= hour < 60 && 0 <= min < 60 && 0 <= sec < 60
    ensures var f := Fields(sec, min, hour, d.f.day, d.f.month, year);
            ParseTime(s, 12, d) == Parsed(true, Stamp(f, d.wday, DayOfYear(f), 0))
  {
    FitsI8(hour);
    FitsI8(min);
    FitsI8(sec);
    assert At(s, 16) == ' ' && At(s, 19) == At(s, 22) == ':';
    hide Strtol, At, I8, I16, MonthStart;
  }

  lemma FitsI8(v: int)
    requires 0 <= v < 0x80
    ensures I8(v) == v
  {
  }

  lemma DayFits(f: Fields)
    requires f.Valid()
    ensures f.day <= 31
  {
  }

  lemma {:induction false} PartsWellSized(loc: Locale, d: Stamp)
    requires loc.Usable() && d.f.Valid() && 0 <= d.wday < 7 && d.f.year <= 9999
    ensures WellSized(PartsOf(loc, d))
  {
    DayFits(d.f);
    PadReadsBack(d.f.day, 2);
    PadReadsBack(d.f.year, 4);
    PadReadsBack(d.f.hour, 2);
    PadReadsBack(d.f.min, 2);
    PadReadsBack(d.f.sec, 2);
  }

  lemma {:induction false} CommaFound(s: string)
    requires |s| >= 4 && s[3] == ',' && ',' !in s[0..3]
    ensures IndexOf(s, ',', 0) == 3
  {
    assert s[0..3] == [s[0], s[1], s[2]];
    assert IndexOf(s, ',', 2) == 3 && IndexOf(s, ',', 1) == 3;
  }

  lemma {:induction false} DateNumbersRead(s: string, p: Parts, f: Fields)
    requires Layout(s, p) && f.Valid() && f.year <= 9999 && p.day == Pad(f.day, 2) && p.year == Pad(f.year, 4)
    ensures Strtol(s, 5) == (f.day, 7) && Strtol(s, 12) == (f.year, 16)
  {
    assert Pow10(2) == 100 && Pow10(4) == 10000;
    DayFits(f);
    hide Strtol, Pad, Pow10, GetMonthDays;
    FieldReadsBack(s, 5, 5, f.day, 2);
    FieldReadsBack(s, 12, 12, f.year, 4);
  }

  lemma {:induction false} TimeNumbersRead(s: string, p: Parts, f: Fields)
    requires Layout(s, p) && f.Valid() && p.hour == Pad(f.hour, 2) && p.min == Pad(f.min, 2) && p.sec == Pad(f.sec, 2)
    ensures Strtol(s, 16) == (f.hour, 19) && Strtol(s, 20) == (f.min, 22) && Strtol(s, 23) == (f.sec, 25)
  {
    assert Pow10(2) == 100;
    hide Strtol, Pad, Pow10, GetMonthDays;
    FieldReadsBack(s, 16, 17, f.hour, 2);
    FieldReadsBack(s, 20, 20, f.min, 2);
    FieldReadsBack(s, 23, 23, f.sec, 2);
  }

  lemma {:induction false} HeadParses(loc: Locale, s: string, d: Stamp, wday: nat, day: int, month: nat)
    requires loc.Usable() && |s| == 29 && IndexOf(s, ',', 0) == 3 && s[7] == ' '
    requires FirstMatch(loc.days, s, 0, 0) == wday <= 6 && Strtol(s, 5) == (day, 7)
    requires FirstMatch(loc.months, s, 8, 0) == month <= 11
    requires 0 <= day < 0x80
    ensures ParseHttp(loc, s, d) == ParseTime(s, 12, d.(wday := wday, f := d.f.(day := day, month := month)))
  {
    FitsI8(day);
    assert At(s, 7) == ' ';
    hide Strtol, At, I8, FirstMatch, IndexOf, ParseTime;
  }

  lemma {:induction false} FirstSameBelow(names: seq<string>, i: nat, j: nat)
    requires j <= i < |names| && forall k :: 0 <= k < |names| ==> |names[k]| >= 3
    ensures j <= FirstSame(names, i, j) <= i
    decreases i - j
  {
    if j < i {
      FirstSameBelow(names, i, j + 1);
    }
  }

  lemma {:induction false} LayoutParses(loc: Locale, f: Fields, wday: int, p: Parts, s: string, was: Stamp)
    requires loc.Usable() && f.Valid() && 0 <= wday < 7 && f.year <= 9999 && Layout(s, p)
    requires p.wday == loc.days[wday][..3] && p.month == loc.months[f.month][..3]
    requires Strtol(s, 5) == (f.day, 7) && Strtol(s, 12) == (f.year, 16) && Strtol(s, 16) == (f.hour, 19)
    requires Strtol(s, 20) == (f.min, 22) && Strtol(s, 23) == (f.sec, 25)
    ensures FirstSame(loc.months, f.month, 0) <= f.month
    ensures var g := f.(month := FirstSame(loc.months, f.month, 0));
            ParseHttp(loc, s, was) == Parsed(true, Stamp(g, FirstSame(loc.days, wday, 0), DayOfYear(g), 0))
  {
    DayFits(f);
    CommaFound(s);
    MatchIsSame(loc.days, wday, 0, s, 0);
    MatchIsSame(loc.months, f.month, 0, s, 8);
    FirstSameBelow(loc.days, wday, 0);
    FirstSameBelow(loc.months, f.month, 0);
    var w, m := FirstSame(loc.days, wday, 0), FirstSame(loc.months, f.month, 0);
    hide ParseHttp, ParseTime, Strtol, FirstMatch, FirstSame, MonthStart;
    HeadParses(loc, s, was, w, f.day, m);
    TimeParses(s, was.(wday := w, f := was.f.(day := f.day, month := m)), f.year, f.hour, f.min, f.sec);
  }

  /**
   Parsing a printed date succeeds, whatever the object held, and restores every field, with each name
   read as the first one of the locale that has its three characters; the milliseconds become zero.
   */
  lemma {:induction false} HttpDateRoundTrip(loc: Locale, d: Stamp, was: Stamp)
    requires loc.Usable() && d.f.Valid() && 0 <= d.wday < 7 && d.f.year <= 9999
    ensures FirstSame(loc.months, d.f.month, 0) <= d.f.month
    ensures var g := d.f.(month := FirstSame(loc.months, d.f.month, 0));
            ParseHttp(loc, HttpText(PartsOf(loc, d)), was) ==
              Parsed(true, Stamp(g, FirstSame(loc.days, d.wday, 0), DayOfYear(g), 0))
  {
    var p := PartsOf(loc, d);
    var s := HttpText(p);
    PartsWellSized(loc, d);
    TextLayout(p);
    DateNumbersRead(s, p, d.f);
    TimeNumbersRead(s, p, d.f);
    LayoutParses(loc, d.f, d.wday, p, s, was);
  }

  /** No earlier name has the same three characters. */
  predicate Unshared(names: seq<string>, i: nat)
    requires i < |names| && forall k :: 0 <= k < |names| ==> |names[k]| >= 3
  {
    forall j :: 0 <= j < i ==> !SameStart(names[j], names[i])
  }

  lemma {:induction false} FirstSameIsSelf(names: seq<string>, i: nat, j: nat)
    requires j <= i < |names| && forall k :: 0 <= k < |names| ==> |names[k]| >= 3
    ensures FirstSame(names, i, j) == i <==> forall k :: j <= k < i ==> !SameStart(names[k], names[i])
    decreases i - j
  {
    if j < i {
      FirstSameIsSelf(names, i, j + 1);
    }
  }

  /**
   A date survives printing and parsing exactly when no earlier name begins like its day's or its month's
   and it has no milliseconds.
   */
  lemma RoundTripExact(loc: Locale, d: Stamp, was: Stamp)
    requires loc.Usable() && d.f.Valid() && 0 <= d.wday < 7 && d.f.year <= 9999 && d.yday == DayOfYear(d.f)
    ensures ParseHttp(loc, HttpText(PartsOf(loc, d)), was) == Parsed(true, d) <==>
            Unshared(loc.days, d.wday) && Unshared(loc.months, d.f.month) && d.ms == 0
  {
    HttpDateRoundTrip(loc, d, was);
    hide ParseHttp, HttpText, PartsOf, MonthStart;
    FirstSameIsSelf(loc.days, d.wday, 0);
    FirstSameIsSelf(loc.months, d.f.month, 0);
  }

  const ENGLISH: Locale := Locale(
    ["Sunday", "Monday", "Tuesday", "Wednesday", "Thursday", "Friday", "Saturday"],
    ["January", "February", "March", "April", "May", "June",
     "July", "August", "September", "October", "November", "December"])

  const FRENCH: Locale := Locale(
    ["dimanche", "lundi", "mardi", "mercredi", "jeudi", "vendredi", "samedi"],
    ["janvier", "f\U{e9}vrier", "mars", "avril", "mai", "juin",
     "juillet", "ao\U{fb}t", "septembre", "octobre", "novembre", "d\U{e9}cembre"])

  /** The default names keep every date. */
  lemma EnglishKeepsDates()
    ensures ENGLISH.Usable()
    ensures forall i :: 0 <= i < 7 ==> Unshared(ENGLISH.days, i)
    ensures forall i :: 0 <= i < 12 ==> Unshared(ENGLISH.months, i)
  {
    forall i | 0 <= i < 7
      ensures Unshared(ENGLISH.days, i)
    {
      EnglishDay(i);
    }
    forall i | 0 <= i < 12
      ensures Unshared(ENGLISH.months, i)
    {
      EnglishMonth(i);
    }
  }

  lemma EnglishDay(i: nat)
    requires i < 7
    ensures Unshared(ENGLISH.days, i)
  {
  }

  lemma EnglishMonth(i: nat)
    requires i < 12
    ensures Unshared(ENGLISH.months, i)
  {
  }

  /** The French ones turn July into June. */
  lemma FrenchLosesJuly()
    ensures FRENCH.Usable() && FirstSame(FRENCH.months, 6, 0) == 5
  {
  }

  /**
   Every time up to the year 9999 is restored, in any object, with all that a DateTime holds, by way of its
   HTTP date.
   */
  method PrintAndParse(t: nat, dt: DateTime, other: char -> Option<string>) returns (d: Stamp, ok: bool)
    modifies dt
    ensures d.f.Valid() && d.f.Seconds() == t && d.wday == d.f.Weekday() && d.yday == DayOfYear(d.f) && d.ms == 0
    ensures d.f.year <= 9999 ==> ok && Held(dt) == d
  {
    var now := new DateTime(t);
    d := Held(now);
    EnglishKeepsDates();
    WeekdayInRange(d.f);
    var s := ToHttpDate(ENGLISH, d, other);
    ghost var was := Held(dt);
    hide ParseHttp, HttpText, PartsOf, MonthStart;
    ok := FromHttpDate(dt, ENGLISH, s);
    if d.f.year <= 9999 {
      RoundTripExact(ENGLISH, d, was);
    }
  }

  lemma WeekdayInRange(f: Fields)
    requires f.Valid()
    ensures 0 <= f.Weekday() < 7
  {
  }
}
