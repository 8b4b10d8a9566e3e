/**
 m_vsnprintf and Print::printf.

 `Render` is the unbounded output of a format; the code stores as much of it as the
 buffer holds, returns its whole length, and printf uses that length for a second try.
 */
module Printf {
  import opened Arith
  import opened Machine
  import opened StringConversion

  /** The arguments of a call; a floating-point one is given by its converted text. */
  datatype Arg = Int(v: int) | Str(s: string) | NullStr | Float(text: string)

  /**
   Text, or none: a number with its padding does not fit in the buffer for one conversion, or the format
   ends inside a conversion or asks for an argument that is not there.
   */
  datatype Outcome<T> = Malformed | Overrun | Some(value: T)

  /** The attributes of a conversion. */
  datatype Spec = Spec(minus: bool, pad: char, width: int, precision: int)

  // ---------------------------------------------------------------- the format

  /** The flags: '-', and '+', ' ' and '#', which are ignored. */
  function SkipFlags(s: string, minus: bool): (r: (bool, string))
    ensures |r.1| <= |s|
  {
    if s != [] && s[0] in {'-', '+', ' ', '#'} then SkipFlags(s[1..], minus || s[0] == '-') else (minus, s)
  }

  /** skip_atoi */
  function Atoi(s: string, acc: nat): (r: (nat, string))
    ensures |r.1| <= |s|
    ensures r.1 == [] || !IsDigit(r.1[0])
  {
    if s != [] && IsDigit(s[0]) then Atoi(s[1..], acc * 10 + (s[0] - '0') as nat) else (acc, s)
  }

  function SkipLength(s: string): (r: string)
    ensures |r| <= |s|
  {
    if s != [] && s[0] in {'l', 'h', 'L'} then SkipLength(s[1..]) else s
  }

  function ParsePad(s: string): (r: (char, string))
    ensures |r.1| <= |s|
  {
    if s != [] && s[0] == '0' then ('0', s[1..]) else (' ', s)
  }

  /** A number stored in an `int8_t`, or the default. */
  function ParseNumber(s: string, default: int): (r: (int, string))
    ensures |r.1| <= |s|
  {
    if s != [] && IsDigit(s[0]) then (I8(Atoi(s, 0).0), Atoi(s, 0).1) else (default, s)
  }

  function ParsePrecision(s: string): (r: (int, string))
    ensures |r.1| <= |s|
  {
    if s != [] && s[0] == '.' then ParseNumber(s[1..], -1) else (-1, s)
  }

  /** Everything between '%' and the conversion character. */
  function ParseSpec(s: string): (r: (Spec, string))
    ensures |r.1| <= |s|
  {
    var flags := SkipFlags(s, false);
    var pad := ParsePad(flags.1);
    var width := ParseNumber(pad.1, 0);
    var precision := ParsePrecision(width.1);
    (Spec(flags.0, pad.0, width.0, precision.0), SkipLength(precision.1))
  }

  function TextOf(a: Arg): string {
    if a.Str? then a.s else "(null)"
  }

  /** "%s": cut to the precision, filled with blanks on the left or, with '-', on the right. */
  function StrPiece(spec: Spec, s: string): string {
    var len := if spec.precision >= 0 && |s| > spec.precision then spec.precision else |s|;
    var fill := Repeat(' ', spec.width - len);
    if spec.minus then s[..len] + fill else fill + s[..len]
  }

  function Unsigned(v: int): nat {
    v % 0x1_0000_0000
  }

  function Base(f: char): nat {
    if f == 'o' then 8 else if f == 'u' then 10 else 16
  }

  /** tempNum */
  const NUMBER_BUFFER: nat := 40

  /** The text of a number, if it fits in its buffer with the terminator. */
  function Number(text: string, rest: seq<Arg>): Outcome<(string, seq<Arg>)> {
    if |text| + 1 <= NUMBER_BUFFER then Some((text, rest)) else Overrun
  }

  /** The conversions that pad a number to the width. */
  predicate PadsNumber(f: char) {
    f in {'d', 'i', 'o', 'x', 'X', 'u'}
  }

  function NumberText(spec: Spec, f: char, v: int): string {
    if f == 'd' || f == 'i' then Padded(LongText(v, 10), spec.width, spec.pad)
    else Padded(Decimal(Unsigned(v), Base(f)), spec.width, spec.pad)
  }

  /** One conversion: its text and the arguments left. */
  function Convert(spec: Spec, f: char, args: seq<Arg>): Outcome<(string, seq<Arg>)> {
    if f == '%' then Some(("%", args))
    else if PadsNumber(f) || f in {'c', 's', 'p', 'f'} then
      if args == [] then Malformed
      else
        var a, rest := args[0], args[1..];
        if f == 's' then (if a.Str? || a.NullStr? then Some((StrPiece(spec, TextOf(a)), rest)) else Malformed)
        else if f == 'f' then (if a.Float? then Some((a.text, rest)) else Malformed)
        else if !a.Int? || !IsI32(a.v) then Malformed
        else if f == 'c' then Some(([(a.v % 0x100) as char], rest))
        else if f == 'p' then Some((Padded(Decimal(Unsigned(a.v), 16), 0, ' '), rest))
        else Number(NumberText(spec, f, a.v), rest)
    else Some((['%', f], args))
  }

  /** The whole output. */
  function Render(fmt: string, args: seq<Arg>): Outcome<string>
    decreases |fmt|
  {
    if fmt == [] then Some("")
    else if fmt[0] != '%' then Prepend([fmt[0]], Render(fmt[1..], args))
    else
      var (spec, s) := ParseSpec(fmt[1..]);
      if s == [] then Malformed
      else
        match Convert(spec, s[0], args)
        case Malformed => Malformed
        case Overrun => Overrun
        case Some((text, rest)) => Prepend(text, Render(s[1..], rest))
  }

  function Prepend(a: string, b: Outcome<string>): Outcome<string> {
    if b.Some? then Some(a + b.value) else b
  }

  // ---------------------------------------------------------------- what does not fit

  /** No number is padded to 40 characters or more; widths count as the code stores them. */
  predicate WidthsFit(fmt: string)
    decreases |fmt|
  {
    if fmt == [] then true
    else if fmt[0] != '%' then WidthsFit(fmt[1..])
    else
      var (spec, s) := ParseSpec(fmt[1..]);
      s == [] || ((PadsNumber(s[0]) ==> spec.width < NUMBER_BUFFER) && WidthsFit(s[1..]))
  }

  lemma RepeatLength(c: char, n: int)
    ensures |Repeat(c, n)| == if n <= 0 then 0 else n
  {
  }

  lemma PaddedFitsIff(text: string, width: int, pad: char)
    requires |text| + 1 <= NUMBER_BUFFER
    ensures |Padded(text, width, pad)| + 1 <= NUMBER_BUFFER <==> width < NUMBER_BUFFER
  {
    hide Repeat;
    RepeatLength(pad, width - |text|);
  }

  lemma NumbersShort(v: int, base: nat)
    requires IsI32(v) && 2 <= base <= 16
    ensures |LongText(v, base)| <= 33 && |Decimal(Unsigned(v), base)| <= 33
  {
    hide Digits, Decimal;
    AtMost32Digits(if v < 0 then -v else v, base);
    AtMost32Digits(Unsigned(v), base);
  }

  /** Unpadded numbers are short, so only the width decides. */
  lemma NumberFitsIff(spec: Spec, f: char, v: int)
    requires PadsNumber(f) && IsI32(v)
    ensures |NumberText(spec, f, v)| + 1 <= NUMBER_BUFFER <==> spec.width < NUMBER_BUFFER
  {
    hide LongText, Decimal, Padded, Unsigned;
    NumbersShort(v, 10);
    NumbersShort(v, Base(f));
    PaddedFitsIff(LongText(v, 10), spec.width, spec.pad);
    PaddedFitsIff(Decimal(Unsigned(v), Base(f)), spec.width, spec.pad);
  }

  lemma ConvertOverrunsIff(spec: Spec, f: char, args: seq<Arg>)
    requires !Convert(spec, f, args).Malformed?
    ensures Convert(spec, f, args).Overrun? <==> PadsNumber(f) && spec.width >= NUMBER_BUFFER
  {
    if PadsNumber(f) {
      NumberFitsIff(spec, f, args[0].v);
      hide NumberText;
    }
  }

  /** A call whose arguments match its format overruns the number buffer if and only if some width is 40 or more. */
  lemma {:induction false} OverrunsIffWide(fmt: string, args: seq<Arg>)
    requires !Render(fmt, args).Malformed?
    ensures Render(fmt, args).Overrun? <==> !WidthsFit(fmt)
    decreases |fmt|
  {
    hide ParseSpec, Convert;
    if fmt != [] && fmt[0] != '%' {
      OverrunsIffWide(fmt[1..], args);
    } else if fmt != [] {
      var (spec, s) := ParseSpec(fmt[1..]);
      ConvertOverrunsIff(spec, s[0], args);
      if Convert(spec, s[0], args).Some? {
        OverrunsIffWide(s[1..], Convert(spec, s[0], args).value.1);
      }
    }
  }

  lemma NoPadding(text: string, pad: char)
    ensures Padded(text, 0, pad) == text
  {
    assert [] + text == text;
  }

  /** "%d" prints the least int as a bare sign. */
  lemma LeastIntIsBareSign()
    ensures Render("%d", [Int(-0x8000_0000)]) == Some("-") && Signed(-0x8000_0000, 10) != "-"
  {
    var spec, fmt, args := Spec(false, ' ', 0, -1), "%d", [Int(-0x8000_0000)];
    assert fmt[1..] == "d" && fmt[0] == '%';
    assert ParseSpec("d") == (spec, "d");
    NoPadding("-", ' ');
    assert NumberText(spec, 'd', -0x8000_0000) == "-";
    assert args[1..] == [];
    assert Convert(spec, 'd', args) == Some(("-", []));
    assert "d"[1..] == "" && Render("", []) == Some("");
    var sign := "-";
    assert sign + "" == sign;
    assert Prepend(sign, Some("")) == Some(sign);
    DecimalInBase(0x8000_0000, 10);
  }

  /** "%40d" overruns for every argument. */
  lemma WideNumberOverruns(v: int)
    requires IsI32(v)
    ensures Render("%40d", [Int(v)]).Overrun?
  {
    var fmt := "%40d";
    assert fmt[1..] == "40d" && "40d"[1..] == "0d" && "0d"[1..] == "d";
    assert Atoi("40d", 0) == (40, "d");
    var spec := Spec(false, ' ', 40, -1);
    assert ParseSpec("40d") == (spec, "d");
    NumberFitsIff(spec, 'd', v);
    hide NumberText;
    assert Convert(spec, 'd', [Int(v)]) == Overrun;
  }

  // ---------------------------------------------------------------- the output buffer

  /** The buffer with the lambda `add`: it counts every character and stores those that fit. */
  class Output {
    const buf: array<char>
    const maxLen: nat
    var size: nat
    ghost var text: string  // everything added

    ghost predicate Valid()
      reads this, buf
    {
      && 1 <= maxLen == buf.Length
      && size == |text|
      && buf[..Min(size, maxLen - 1)] == text[..Min(size, maxLen - 1)]
    }

    constructor (maxLen: nat)
      requires maxLen >= 1
      ensures Valid() && text == "" && this.maxLen == maxLen && fresh(buf)
    {
      buf := new char[maxLen](_ => ' ');
      this.maxLen := maxLen;
      size, text := 0, "";
    }

    method Add(c: char)
      requires Valid()
      modifies this, buf
      ensures Valid() && text == old(text) + [c]
    {
      size := size + 1;
      if size < maxLen {
        buf[size - 1] := c;
      }
      text := text + [c];
    }

    method AddAll(s: string)
      requires Valid()
      modifies this, buf
      ensures Valid() && text == old(text) + s
    {
      var i := 0;
      while i < |s|
        invariant 0 <= i <= |s| && Valid() && text == old(text) + s[..i]
      {
        Add(s[i]);
        i := i + 1;
      }
    }

    method AddFill(n: int)
      requires Valid()
      modifies this, buf
      ensures Valid() && text == old(text) + Repeat(' ', n)
    {
      var i := 0;
      while i < n
        invariant 0 <= i && (i <= n || i == 0) && Valid() && text == old(text) + Repeat(' ', i)
      {
        Add(' ');
        i := i + 1;
      }
    }
  }

  // ---------------------------------------------------------------- m_vsnprintf

  /** skip_atoi from position p on. */
  method SkipAtoi(fmt: string, p0: nat) returns (i: nat, p: nat)
    requires p0 <= |fmt|
    ensures p0 <= p <= |fmt| && Atoi(fmt[p0..], 0) == (i, fmt[p..])
  {
    i, p := 0, p0;
    while p < |fmt| && IsDigit(fmt[p])
      invariant p0 <= p <= |fmt| && Atoi(fmt[p..], i) == Atoi(fmt[p0..], 0)
    {
      i, p := i * 10 + (fmt[p] - '0') as nat, p + 1;
    }
  }

  method ScanFlags(fmt: string, p0: nat) returns (minus: bool, p: nat)
    requires p0 <= |fmt|
    ensures p0 <= p <= |fmt| && SkipFlags(fmt[p0..], false) == (minus, fmt[p..])
  {
    minus, p := false, p0;
    while p < |fmt| && fmt[p] in {'-', '+', ' ', '#'}
      invariant p0 <= p <= |fmt| && SkipFlags(fmt[p..], minus) == SkipFlags(fmt[p0..], false)
    {
      minus, p := minus || fmt[p] == '-', p + 1;
    }
  }

  method ScanLength(fmt: string, p0: nat) returns (p: nat)
    requires p0 <= |fmt|
    ensures p0 <= p <= |fmt| && SkipLength(fmt[p0..]) == fmt[p..]
  {
    p := p0;
    while p < |fmt| && fmt[p] in {'l', 'h', 'L'}
      invariant p0 <= p <= |fmt| && SkipLength(fmt[p..]) == SkipLength(fmt[p0..])
    {
      p := p + 1;
    }
  }

  method ScanNumber(fmt: string, p0: nat, default: int) returns (v: int, p: nat)
    requires p0 <= |fmt|
    ensures p0 <= p <= |fmt| && ParseNumber(fmt[p0..], default) == (v, fmt[p..])
  {
    v, p := default, p0;
    if p < |fmt| && IsDigit(fmt[p]) {
      v, p := SkipAtoi(fmt, p);
      v := I8(v);
    }
  }

  /** The attributes of a conversion, from the character after '%' on. */
  method ScanSpec(fmt: string, p0: nat) returns (spec: Spec, p: nat)
    requires p0 <= |fmt|
    ensures p0 <= p <= |fmt| && ParseSpec(fmt[p0..]) == (spec, fmt[p..])
  {
    var minus, pad, width, precision := false, ' ', 0, -1;
    minus, p := ScanFlags(fmt, p0);
    ghost var s1 := fmt[p..];
    if p < |fmt| && fmt[p] == '0' {
      pad, p := '0', p + 1;
    }
    assert ParsePad(s1) == (pad, fmt[p..]);
    width, p := ScanNumber(fmt, p, 0);
    ghost var s2 := fmt[p..];
    if p < |fmt| && fmt[p] == '.' {
      assert fmt[p..][1..] == fmt[p + 1..];
      precision, p := ScanNumber(fmt, p + 1, -1);
    }
    assert ParsePrecision(s2) == (precision, fmt[p..]);
    p := ScanLength(fmt, p);
    spec := Spec(minus, pad, width, precision);
  }

  /** The switch on the conversion character. */
  method AddPiece(out: Output, spec: Spec, f: char, args: seq<Arg>) returns (rest: seq<Arg>, ghost piece: string)
    requires out.Valid() && Convert(spec, f, args).Some?
    modifies out, out.buf
    ensures out.Valid()
    ensures Convert(spec, f, args) == Some((piece, rest)) && out.text == old(out.text) + piece
  {
    var text := "";
    rest := args;
    if f == '%' {
      text := "%";
    } else if PadsNumber(f) || f in {'c', 's', 'p', 'f'} {
      var a := args[0];
      rest := args[1..];
      if f == 's' {
        AddString(out, spec, TextOf(a));
        piece := StrPiece(spec, TextOf(a));
        return;
      } else if f == 'f' {
        text := a.text;
      } else if f == 'c' {
        text := [(a.v % 0x100) as char];
      } else if f == 'p' {
        text := UltoaWp(Unsigned(a.v), 16, 0, ' ');
      } else if f == 'd' || f == 'i' {
        text := LtoaWp(a.v, 10, spec.width, spec.pad);
      } else {
        text := UltoaWp(Unsigned(a.v), Base(f), spec.width, spec.pad);
      }
    } else {
      text := ['%', f];
    }
    out.AddAll(text);
    piece := text;
  }

  method AddString(out: Output, spec: Spec, s: string)
    requires out.Valid()
    modifies out, out.buf
    ensures out.Valid() && out.text == old(out.text) + StrPiece(spec, s)
  {
    var len := |s|;
    if spec.precision >= 0 && len > spec.precision {
      len := spec.precision;
    }
    var padding := spec.width - len;
    if !spec.minus {
      out.AddFill(padding);
    }
    out.AddAll(s[..len]);
    if spec.minus {
      out.AddFill(padding);
    }
    assert out.text == old(out.text) + StrPiece(spec, s);
  }

  lemma RenderStart(fmt: string, args: seq<Arg>)
    ensures Prepend("", Render(fmt[0..], args)) == Render(fmt, args)
  {
    assert fmt[0..] == fmt;
    PrependTwice("", "", Render(fmt, args));
    assert Render(fmt, args).Some? ==> "" + Render(fmt, args).value == Render(fmt, args).value;
  }

  lemma RenderEnd(text: string, args: seq<Arg>)
    ensures Prepend(text, Render("", args)) == Some(text)
  {
    assert text + "" == text;
  }

  lemma RenderPlain(text: string, fmt: string, p: nat, args: seq<Arg>)
    requires p < |fmt| && fmt[p] != '%'
    ensures Prepend(text + [fmt[p]], Render(fmt[p + 1..], args)) == Prepend(text, Render(fmt[p..], args))
  {
    assert fmt[p..][1..] == fmt[p + 1..];
    PrependTwice(text, [fmt[p]], Render(fmt[p + 1..], args));
  }

  lemma RenderConversion(text: string, fmt: string, p: nat, args: seq<Arg>, spec: Spec, q: nat)
    requires p < |fmt| && fmt[p] == '%' && p < q <= |fmt| && ParseSpec(fmt[p + 1..]) == (spec, fmt[q..])
    requires Prepend(text, Render(fmt[p..], args)).Some?
    ensures q < |fmt| && Convert(spec, fmt[q], args).Some?
    ensures var (piece, rest) := Convert(spec, fmt[q], args).value;
            Prepend(text + piece, Render(fmt[q + 1..], rest)) == Prepend(text, Render(fmt[p..], args))
  {
    assert fmt[p..][1..] == fmt[p + 1..];
    hide ParseSpec, Convert;
    assert q < |fmt| && fmt[q..][0] == fmt[q] && fmt[q..][1..] == fmt[q + 1..];
    var (piece, rest) := Convert(spec, fmt[q], args).value;
    PrependTwice(text, piece, Render(fmt[q + 1..], rest));
  }

  /**
   m_vsnprintf: the first min(n, maxLen - 1) characters of the output, a terminator after
   them, and n, the whole length, whatever the size of the buffer.
   */
  method Vsnprintf(maxLen: nat, fmt: string, args0: seq<Arg>) returns (buf: array<char>, n: nat)
    requires maxLen >= 1 && Render(fmt, args0).Some?
    ensures fresh(buf) && buf.Length == maxLen && n == |Render(fmt, args0).value|
    ensures var k := Min(n, maxLen - 1); buf[..k] == Render(fmt, args0).value[..k] && buf[k] == '\0'
  {
    var out := new Output(maxLen);
    var p, args := 0, args0;
    RenderStart(fmt, args0);
    hide Render, ParseSpec, Convert, Prepend;
    while p < |fmt|
      invariant 0 <= p <= |fmt| && out.Valid() && fresh(out) && fresh(out.buf) && out.maxLen == maxLen
      invariant Prepend(out.text, Render(fmt[p..], args)) == Render(fmt, args0)
    {
      ghost var before := out.text;
      if fmt[p] != '%' {
        out.Add(fmt[p]);
        RenderPlain(before, fmt, p, args);
        p := p + 1;
      } else {
        var spec, q := ScanSpec(fmt, p + 1);
        RenderConversion(before, fmt, p, args, spec, q);
        var rest;
        ghost var piece;
        rest, piece := AddPiece(out, spec, fmt[q], args);
        p, args := q + 1, rest;
      }
    }
    RenderEnd(out.text, args);
    assert fmt[p..] == "";
    buf, n := out.buf, out.size;
    buf[Min(n, maxLen - 1)] := '\0';
  }

  lemma PrependTwice(a: string, b: string, c: Outcome<string>)
    ensures Prepend(a, Prepend(b, c)) == Prepend(a + b, c)
  {
    if c.Some? {
      assert a + (b + c.value) == (a + b) + c.value;
    }
  }

  // ---------------------------------------------------------------- Print::printf

  const INITIAL_PRINTF_BUFFSIZE: nat := 128

  /** The whole text is written, in at most two passes over the format. */
  method PrintfTo(fmt: string, args: seq<Arg>) returns (written: string, sz: nat, passes: nat)
    requires Render(fmt, args).Some?
    ensures written == Render(fmt, args).value && sz == |written|
    ensures passes == if sz < INITIAL_PRINTF_BUFFSIZE then 1 else 2
  {
    var buffSize := INITIAL_PRINTF_BUFFSIZE;
    ghost var text := Render(fmt, args).value;
    sz, passes, written := 0, 0, "";
    while true
      invariant passes <= 1 && written == ""
      invariant buffSize == if passes == 0 then INITIAL_PRINTF_BUFFSIZE else |text| + 1
      invariant passes == 1 ==> |text| >= INITIAL_PRINTF_BUFFSIZE
      decreases 1 - passes
    {
      var buf;
      buf, sz := Vsnprintf(buffSize, fmt, args);
      passes := passes + 1;
      if sz > buffSize - 1 {
        buffSize := sz + 1;
      } else {
        if sz > 0 {
          written := buf[..sz];
        }
        assert written == text;
        return;
      }
    }
  }
}
