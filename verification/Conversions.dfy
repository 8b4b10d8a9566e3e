/**
 What the conversions of m_vsnprintf print, said of the text alone: which digits stand where, what number
 they are in which base, how a string is cut and filled, and how the attributes of a conversion are read.
 */
module Conversions {
  import opened Arith
  import opened Machine
  import opened StringConversion
  import opened Printf

  // ---------------------------------------------------------------- numerals

  /** The number n in the given base, in the usual way: lower-case digits, and no zero in front. */
  predicate IsNumeral(t: string, base: nat, n: int)
    requires base <= 16
  {
    && t != [] && ValueOf(t, base) == n && (|t| > 1 ==> t[0] != '0')
    && forall i :: 0 <= i < |t| ==> t[i] in "0123456789abcdef"[..base]
  }

  lemma HexCharOf(d: nat, base: nat)
    requires d < base <= 16
    ensures HexChar(d) in "0123456789abcdef"[..base] && (HexChar(d) == '0' <==> d == 0)
  {
    assert "0123456789abcdef"[..base][d] == HexChar(d);
  }

  lemma {:induction false} DigitsOfBase(n: nat, base: nat)
    requires 2 <= base <= 16 && n > 0
    ensures Digits(n, base) != [] && Digits(n, base)[0] != '0'
    ensures forall i :: 0 <= i < |Digits(n, base)| ==> Digits(n, base)[i] in "0123456789abcdef"[..base]
  {
    hide Div, Mod, HexChar;
    var q, r := Div(n, base), Mod(n, base);
    DigitsStep(n, base);
    HexCharOf(r, base);
    DivZero(n, base);
    if q > 0 {
      DigitsOfBase(q, base);
    } else {
      NoDigits(base);
    }
  }

  lemma DecimalIsNumeral(n: nat, base: nat)
    requires 2 <= base <= 16
    ensures IsNumeral(Decimal(n, base), base, n)
  {
    hide Digits;
    if n == 0 {
      HexCharOf(0, base);
      ValueOfSnoc("", '0', base);
      assert "" + ['0'] == "0";
    } else {
      DigitsOfBase(n, base);
      DigitsRoundTrip(n, base);
    }
  }

  // ---------------------------------------------------------------- numbers

  predicate AllAre(s: string, c: char) {
    forall i :: 0 <= i < |s| ==> s[i] == c
  }

  lemma {:induction false} RepeatIs(c: char, n: int)
    ensures AllAre(Repeat(c, n), c) && |Repeat(c, n)| == Max(n, 0)
  {
    if n > 0 {
      RepeatIs(c, n - 1);
    }
  }

  lemma PaddedIs(text: string, width: int, pad: char) returns (fill: string)
    ensures Padded(text, width, pad) == fill + text && AllAre(fill, pad) && |fill + text| == Max(width, |text|)
  {
    fill := Repeat(pad, width - |text|);
    RepeatIs(pad, width - |text|);
  }

  /** The value of a 32-bit int as an unsigned one. */
  lemma UnsignedIs(v: int)
    requires IsI32(v)
    ensures Unsigned(v) == if v < 0 then v + 0x1_0000_0000 else v
  {
  }

  /** An int in decimal: a sign, unless it is not negative, and the numeral.  The least one is a bare sign. */
  predicate IsSignedNumeral(t: string, v: int) {
    if v == -0x8000_0000 then t == "-"
    else if v < 0 then t != [] && t[0] == '-' && IsNumeral(t[1..], 10, -v)
    else IsNumeral(t, 10, v)
  }

  lemma LongTextIs(v: int)
    requires IsI32(v)
    ensures IsSignedNumeral(LongText(v, 10), v)
  {
    hide Decimal;
    if v < 0 {
      DecimalIsNumeral(-v, 10);
      var t := "-" + Decimal(-v, 10);
      assert t[1..] == Decimal(-v, 10);
    } else {
      DecimalIsNumeral(v, 10);
    }
  }

  lemma ConvertsNumber(spec: Spec, f: char, v: int, rest: seq<Arg>)
    requires PadsNumber(f) && IsI32(v) && spec.width < 40
    ensures Convert(spec, f, [Int(v)] + rest) == Some((NumberText(spec, f, v), rest))
  {
    var args := [Int(v)] + rest;
    assert args[0] == Int(v) && args[1..] == rest;
    NumberFitsIff(spec, f, v);
    hide NumberText;
  }

  /**
   "%d" and "%i" print the signed number in decimal, "%u", "%o", "%x" and "%X" the unsigned one in decimal, octal
   and hexadecimal; the pad character fills on the left up to the width.
   */
  lemma NumberConversion(spec: Spec, f: char, v: int, rest: seq<Arg>) returns (fill: string, num: string)
    requires f in {'d', 'i', 'u', 'o', 'x', 'X'} && IsI32(v) && spec.width < 40
    ensures Convert(spec, f, [Int(v)] + rest) == Some((fill + num, rest))
    ensures AllAre(fill, spec.pad) && |fill + num| == Max(spec.width, |num|)
    ensures f in {'d', 'i'} ==> IsSignedNumeral(num, v)
    ensures f == 'u' ==> IsNumeral(num, 10, if v < 0 then v + 0x1_0000_0000 else v)
    ensures f == 'o' ==> IsNumeral(num, 8, if v < 0 then v + 0x1_0000_0000 else v)
    ensures f in {'x', 'X'} ==> IsNumeral(num, 16, if v < 0 then v + 0x1_0000_0000 else v)
  {
    hide Convert, Decimal, LongText, Padded, Unsigned, IsNumeral, IsSignedNumeral, AllAre;
    ConvertsNumber(spec, f, v, rest);
    UnsignedIs(v);
    if f == 'd' || f == 'i' {
      num := LongText(v, 10);
      LongTextIs(v);
    } else {
      num := Decimal(Unsigned(v), Base(f));
      DecimalIsNumeral(Unsigned(v), Base(f));
    }
    fill := PaddedIs(num, spec.width, spec.pad);
  }

  // ---------------------------------------------------------------- strings and the rest

  /** The n first characters of s from position `at` on in t, and blanks elsewhere. */
  predicate HoldsAt(t: string, at: int, s: string, n: nat) {
    && 0 <= at <= at + n <= |t| && n <= |s| && t[at..at + n] == s[..n]
    && forall i :: 0 <= i < |t| && (i < at || i >= at + n) ==> t[i] == ' '
  }

  lemma StringFilled(s: string, n: nat, fill: string)
    requires n <= |s| && AllAre(fill, ' ')
    ensures HoldsAt(s[..n] + fill, 0, s, n) && HoldsAt(fill + s[..n], |fill|, s, n)
  {
  }

  lemma ConvertsText(spec: Spec, a: Arg, rest: seq<Arg>)
    requires a.Str? || a.NullStr?
    ensures Convert(spec, 's', [a] + rest) == Some((StrPiece(spec, TextOf(a)), rest))
  {
    var args := [a] + rest;
    assert args[0] == a && args[1..] == rest;
    hide StrPiece, TextOf;
  }

  lemma PieceHolds(spec: Spec, s: string)
    ensures var t := StrPiece(spec, s);
            var n := if 0 <= spec.precision < |s| then spec.precision else |s|;
            |t| == Max(n, spec.width) && HoldsAt(t, if spec.minus then 0 else |t| - n, s, n)
  {
    hide HoldsAt, AllAre, Repeat;
    var n := if 0 <= spec.precision < |s| then spec.precision else |s|;
    var fill := Repeat(' ', spec.width - n);
    RepeatIs(' ', spec.width - n);
    StringFilled(s, n, fill);
  }

  /**
   "%s" prints as many characters as there are, or as the precision allows; blanks fill on the left, or with '-' on
   the right.
   */
  lemma TextConversion(spec: Spec, a: Arg, rest: seq<Arg>) returns (t: string)
    requires a.Str? || a.NullStr?
    ensures Convert(spec, 's', [a] + rest) == Some((t, rest))
    ensures var s := if a.Str? then a.s else "(null)";
            var n := if 0 <= spec.precision < |s| then spec.precision else |s|;
            |t| == Max(n, spec.width) && HoldsAt(t, if spec.minus then 0 else |t| - n, s, n)
  {
    hide Convert, StrPiece, HoldsAt;
    ConvertsText(spec, a, rest);
    t := StrPiece(spec, TextOf(a));
    PieceHolds(spec, TextOf(a));
  }

  /** "%c" prints one character, "%%" a percent sign and an unknown conversion itself. */
  lemma OtherConversions(spec: Spec, v: int, rest: seq<Arg>, f: char)
    requires IsI32(v)
    ensures Convert(spec, 'c', [Int(v)] + rest) == Some(([(v % 0x100) as char], rest))
    ensures Convert(spec, '%', rest) == Some(("%", rest))
    ensures f !in {'%', 'c', 's', 'p', 'd', 'i', 'f', 'o', 'u', 'x', 'X'} ==>
              Convert(spec, f, rest) == Some((['%', f], rest))
  {
    var args := [Int(v)] + rest;
    assert args[0] == Int(v) && args[1..] == rest;
  }

  lemma ConvertsAddress(spec: Spec, v: int, rest: seq<Arg>)
    requires IsI32(v)
    ensures Convert(spec, 'p', [Int(v)] + rest) == Some((Padded(Decimal(Unsigned(v), 16), 0, ' '), rest))
  {
    var args := [Int(v)] + rest;
    assert args[0] == Int(v) && args[1..] == rest;
    hide Decimal, Unsigned, Padded;
  }

  /** "%p" prints an address in hexadecimal, whatever the width. */
  lemma AddressConversion(spec: Spec, v: int, rest: seq<Arg>) returns (num: string)
    requires IsI32(v)
    ensures Convert(spec, 'p', [Int(v)] + rest) == Some((num, rest))
    ensures IsNumeral(num, 16, if v < 0 then v + 0x1_0000_0000 else v)
  {
    hide Convert, Decimal, Unsigned, IsNumeral, Padded;
    ConvertsAddress(spec, v, rest);
    UnsignedIs(v);
    num := Decimal(Unsigned(v), 16);
    DecimalIsNumeral(Unsigned(v), 16);
    NoPadding(num, ' ');
  }

  // ---------------------------------------------------------------- the attributes

  /** Digits read from the left. */
  function ReadOn(acc: nat, t: string): nat
    requires forall i :: 0 <= i < |t| ==> IsDigit(t[i])
    decreases |t|
  {
    if t == [] then acc else
    assert IsDigit(t[0]);
    ReadOn(acc * 10 + (t[0] - '0') as nat, t[1..])
  }

  lemma {:induction false} AtoiReads(t: string, rest: string, acc: nat)
    requires (forall i :: 0 <= i < |t| ==> IsDigit(t[i])) && (rest == [] || !IsDigit(rest[0]))
    ensures Atoi(t + rest, acc) == (ReadOn(acc, t), rest)
    decreases t
  {
    if t == [] {
      assert t + rest == rest;
    } else {
      assert (t + rest)[0] == t[0] && (t + rest)[1..] == t[1..] + rest;
      AtoiReads(t[1..], rest, acc * 10 + (t[0] - '0') as nat);
    }
  }

  lemma {:induction false} ReadOnSnoc(acc: nat, t: string, c: char)
    requires (forall i :: 0 <= i < |t| ==> IsDigit(t[i])) && IsDigit(c)
    ensures ReadOn(acc, t + [c]) == ReadOn(acc, t) * 10 + (c - '0') as nat
    decreases t
  {
    if t == [] {
      assert t + [c] == [c] && [c][1..] == [];
    } else {
      assert (t + [c])[0] == t[0] && (t + [c])[1..] == t[1..] + [c];
      ReadOnSnoc(acc * 10 + (t[0] - '0') as nat, t[1..], c);
    }
  }

  lemma {:induction false} ReadOnIsValue(t: string)
    requires forall i :: 0 <= i < |t| ==> IsDigit(t[i])
    ensures ReadOn(0, t) == ValueOf(t, 10)
  {
    if t != [] {
      var n := |t| - 1;
      ReadOnIsValue(t[..n]);
      ReadOnSnoc(0, t[..n], t[n]);
      assert t == t[..n] + [t[n]];
    }
  }

  /** A decimal numeral is read back by skip_atoi. */
  lemma NumeralReads(n: nat, rest: string)
    requires rest == [] || !IsDigit(rest[0])
    ensures Atoi(Decimal(n, 10) + rest, 0) == (n, rest)
    ensures IsDigit(Decimal(n, 10)[0]) && (n > 0 ==> Decimal(n, 10)[0] != '0')
  {
    var t := Decimal(n, 10);
    DecimalIsNumeral(n, 10);
    assert forall i :: 0 <= i < |t| ==> IsDigit(t[i]) by {
      assert "0123456789abcdef"[..10] == "0123456789";
    }
    if n > 0 {
      DigitsOfBase(n, 10);
    }
    hide Decimal, Atoi, ReadOn, ValueOf;
    AtoiReads(t, rest, 0);
    ReadOnIsValue(t);
  }

  /** A number that fits in an `int8_t`, or nothing for the default. */
  function NumberOrNot(n: int): string {
    if n < 0 then "" else Decimal(n, 10)
  }

  lemma NumberReads(n: int, default: int, rest: string)
    requires n < 0x80 && (rest == [] || !IsDigit(rest[0]))
    ensures ParseNumber(NumberOrNot(n) + rest, default) == (if n < 0 then default else n, rest)
  {
    if n < 0 {
      assert NumberOrNot(n) + rest == rest;
    } else {
      hide Decimal, Atoi;
      NumeralReads(n, rest);
      assert (Decimal(n, 10) + rest)[0] == Decimal(n, 10)[0];
    }
  }

  /** A conversion as it is written: flag, zero, width and precision, each of them there or not. */
  function SpecText(minus: bool, zero: bool, width: int, precision: int): string {
    (if minus then "-" else "") + ((if zero then "0" else "") + (NumberOrNot(width) + PrecisionText(precision)))
  }

  function PrecisionText(precision: int): string {
    if precision < 0 then "" else "." + Decimal(precision, 10)
  }

  /** What follows the attributes does not look like one. */
  predicate EndsSpec(tail: string) {
    tail != [] && !IsDigit(tail[0]) && tail[0] !in {'-', '+', ' ', '#', '.', 'l', 'h', 'L'}
  }

  lemma PrecisionReads(precision: int, tail: string)
    requires precision < 0x80 && EndsSpec(tail)
    ensures ParsePrecision(PrecisionText(precision) + tail) == (if precision < 0 then -1 else precision, tail)
  {
    if precision < 0 {
      assert PrecisionText(precision) + tail == tail;
    } else {
      var t := PrecisionText(precision) + tail;
      assert t[0] == '.' && t[1..] == NumberOrNot(precision) + tail;
      hide Decimal, ParseNumber, PrecisionText, NumberOrNot;
      NumberReads(precision, -1, tail);
    }
  }

  lemma PrecisionStarts(precision: int, tail: string)
    requires EndsSpec(tail)
    ensures var c := (PrecisionText(precision) + tail)[0]; !IsDigit(c) && c !in {'-', '+', ' ', '#'}
  {
    hide Decimal;
    if precision < 0 {
      assert PrecisionText(precision) + tail == tail;
    }
  }

  lemma WidthReads(width: int, rest: string)
    requires 0 != width < 0x80 && rest != [] && !IsDigit(rest[0]) && rest[0] !in {'-', '+', ' ', '#'}
    ensures ParseNumber(NumberOrNot(width) + rest, 0) == (if width < 0 then 0 else width, rest)
    ensures (NumberOrNot(width) + rest)[0] !in {'0', '-', '+', ' ', '#'}
  {
    NumberReads(width, 0, rest);
    if width < 0 {
      assert NumberOrNot(width) + rest == rest;
    } else {
      hide Decimal, ParseNumber;
      NumeralReads(width, rest);
      assert (Decimal(width, 10) + rest)[0] == Decimal(width, 10)[0];
    }
  }

  lemma PadReads(zero: bool, rest: string)
    requires rest != [] && rest[0] !in {'0', '-', '+', ' ', '#'}
    ensures ParsePad((if zero then "0" else "") + rest) == (if zero then '0' else ' ', rest)
    ensures ((if zero then "0" else "") + rest)[0] !in {'-', '+', ' ', '#'}
  {
    if zero {
      assert ("0" + rest)[1..] == rest;
    } else {
      assert "" + rest == rest;
    }
  }

  lemma FlagReads(minus: bool, rest: string)
    requires rest != [] && rest[0] !in {'-', '+', ' ', '#'}
    ensures SkipFlags((if minus then "-" else "") + rest, false) == (minus, rest)
  {
    if minus {
      assert ("-" + rest)[1..] == rest;
      assert SkipFlags(rest, true) == (true, rest);
    } else {
      assert "" + rest == rest;
    }
  }

  /** What is meant by them. */
  function SpecOf(minus: bool, zero: bool, width: int, precision: int): Spec {
    Spec(minus, if zero then '0' else ' ', if width < 0 then 0 else width, if precision < 0 then -1 else precision)
  }

  /** The attributes are read as they are written. */
  lemma SpecReads(minus: bool, zero: bool, width: int, precision: int, tail: string)
    requires 0 != width < 0x80 && precision < 0x80 && EndsSpec(tail)
    ensures ParseSpec(SpecText(minus, zero, width, precision) + tail) == (SpecOf(minus, zero, width, precision), tail)
  {
    var s3 := PrecisionText(precision) + tail;
    var s2 := NumberOrNot(width) + s3;
    var s1 := (if zero then "0" else "") + s2;
    PrecisionReads(precision, tail);
    PrecisionStarts(precision, tail);
    WidthReads(width, s3);
    PadReads(zero, s2);
    FlagReads(minus, s1);
    assert SkipLength(tail) == tail;
    hide SkipFlags, ParsePad, ParseNumber, ParsePrecision, SkipLength, NumberOrNot, PrecisionText;
    SameText(if minus then "-" else "", if zero then "0" else "", NumberOrNot(width), PrecisionText(precision), tail);
  }

  lemma SameText(a: string, b: string, c: string, d: string, e: string)
    ensures a + (b + (c + d)) + e == a + (b + (c + (d + e)))
  {
    assert c + d + e == c + (d + e);
    assert b + (c + d) + e == b + (c + d + e);
    assert a + (b + (c + d)) + e == a + (b + (c + d) + e);
  }

  /** A format of one conversion prints just what the conversion does. */
  lemma OneConversion(minus: bool, zero: bool, width: int, precision: int, f: char, args: seq<Arg>)
    requires 0 != width < 0x80 && precision < 0x80 && EndsSpec([f])
    ensures var c := Convert(SpecOf(minus, zero, width, precision), f, args);
            Render("%" + SpecText(minus, zero, width, precision) + [f], args) ==
              if c.Some? then Some(c.value.0) else if c.Overrun? then Overrun else Malformed
  {
    var spec := SpecOf(minus, zero, width, precision);
    var text := SpecText(minus, zero, width, precision);
    SpecReads(minus, zero, width, precision, [f]);
    var fmt := "%" + text + [f];
    assert fmt[0] == '%' && fmt[1..] == text + [f] && [f][1..] == "";
    hide ParseSpec, SpecText, Convert;
    var c := Convert(spec, f, args);
    if c.Some? {
      RenderEnd(c.value.0, c.value.1);
    }
  }

  /** The six integer conversions without attributes. */
  lemma PlainNumber(f: char, v: int) returns (num: string)
    requires f in {'d', 'i', 'u', 'o', 'x', 'X'} && IsI32(v)
    ensures Render(['%', f], [Int(v)]) == Some(num)
    ensures f in {'d', 'i'} ==> IsSignedNumeral(num, v)
    ensures f == 'u' ==> IsNumeral(num, 10, if v < 0 then v + 0x1_0000_0000 else v)
    ensures f == 'o' ==> IsNumeral(num, 8, if v < 0 then v + 0x1_0000_0000 else v)
    ensures f in {'x', 'X'} ==> IsNumeral(num, 16, if v < 0 then v + 0x1_0000_0000 else v)
  {
    hide Render, Convert, IsNumeral, IsSignedNumeral;
    OneConversion(false, false, -1, -1, f, [Int(v)]);
    assert "%" + SpecText(false, false, -1, -1) + [f] == ['%', f];
    var fill;
    fill, num := NumberConversion(Spec(false, ' ', 0, -1), f, v, []);
    assert [Int(v)] + [] == [Int(v)] && fill == "" && fill + num == num;
  }

  /** Text without a percent sign is printed as it is. */
  lemma {:induction false} PlainText(fmt: string, args: seq<Arg>)
    requires '%' !in fmt
    ensures Render(fmt, args) == Some(fmt)
  {
    if fmt != [] {
      PlainText(fmt[1..], args);
      assert [fmt[0]] + fmt[1..] == fmt;
    }
  }
}
