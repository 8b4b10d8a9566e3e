/** Number to text: the digit generation and padding behind m_printf. */
module StringConversion {
  import opened Arith
  import opened Machine

  predicate IsDigit(c: char) {
    '0' <= c <= '9'
  }

  function HexChar(d: nat): char
    requires d < 16
  {
    if d < 10 then '0' + d as char else 'a' + (d - 10) as char
  }

  function Unhex(c: char): int {
    if '0' <= c <= '9' then (c - '0') as int
    else if 'a' <= c <= 'f' then 10 + (c - 'a') as int
    else if 'A' <= c <= 'F' then 10 + (c - 'A') as int
    else -1
  }

  /** The digits of n, most significant first; none for zero. */
  function Digits(n: nat, base: nat): string
    requires 2 <= base <= 16
  {
    if n == 0 then [] else Digits(Div(n, base), base) + [HexChar(Mod(n, base))]
  }

  function Decimal(n: nat, base: nat): string
    requires 2 <= base <= 16
  {
    if n == 0 then "0" else Digits(n, base)
  }

  /** What digits stand for. */
  function ValueOf(s: string, base: nat): int {
    if s == [] then 0 else ValueOf(s[..|s| - 1], base) * base + Unhex(s[|s| - 1])
  }

  lemma ValueOfSnoc(s: string, c: char, base: nat)
    ensures ValueOf(s + [c], base) == ValueOf(s, base) * base + Unhex(c)
  {
    assert (s + [c])[..|s + [c]| - 1] == s;
  }

  lemma HexRoundTrip(d: nat)
    requires d < 16
    ensures Unhex(HexChar(d)) == d && HexChar(d) != '\0'
  {
  }

  lemma DigitsStep(n: nat, base: nat)
    requires 2 <= base <= 16 && n > 0
    ensures Digits(n, base) == Digits(Div(n, base), base) + [HexChar(Mod(n, base))]
  {
    hide Div, Mod;
  }

  /** Reading the digits back gives the number. */
  lemma {:induction false} DigitsRoundTrip(n: nat, base: nat)
    requires 2 <= base <= 16
    ensures ValueOf(Digits(n, base), base) == n
  {
    if n > 0 {
      hide Div, Mod;
      var q, r := Div(n, base), Mod(n, base);
      DigitsRoundTrip(q, base);
      ValueOfSnoc(Digits(q, base), HexChar(r), base);
      HexRoundTrip(r);
    }
  }

  /** They are digits of the base. */
  lemma {:induction false} DigitsInBase(n: nat, base: nat)
    requires 2 <= base <= 16
    ensures forall i :: 0 <= i < |Digits(n, base)| ==>
        0 <= Unhex(Digits(n, base)[i]) < base && Digits(n, base)[i] != '\0'
  {
    if n > 0 {
      hide Div, Mod;
      DigitsInBase(Div(n, base), base);
      HexRoundTrip(Mod(n, base));
    }
  }

  /** Numbers below 2^k have at most k digits. */
  lemma {:induction false} DigitsLength(n: nat, base: nat, k: nat)
    requires 2 <= base <= 16 && n < PowerOfTwo(k)
    ensures |Digits(n, base)| <= k
  {
    if n > 0 {
      hide Div, Mod;
      DigitsLength(Div(n, base), base, k - 1);
    }
  }

  lemma Pow32()
    ensures PowerOfTwo(32) == 0x1_0000_0000
  {
    assert PowerOfTwo(8) == 256;
    assert PowerOfTwo(16) == 65536;
    assert PowerOfTwo(24) == 0x100_0000;
  }

  function Repeat(c: char, n: int): string {
    if n <= 0 then [] else Repeat(c, n - 1) + [c]
  }

  lemma AtMost32Digits(n: nat, base: nat)
    requires 2 <= base <= 16 && n < 0x1_0000_0000
    ensures |Digits(n, base)| <= 32 && Digits(0, base) == []
    ensures Decimal(n, base) == if n == 0 then "0" else Digits(n, base)
  {
    Pow32();
    DigitsLength(n, base, 32);
  }

  /** Padding goes to the left of everything, the sign included. */
  function Padded(text: string, width: int, pad: char): string {
    Repeat(pad, width - |text|) + text
  }

  function Signed(val: int, base: nat): string
    requires 2 <= base <= 16
  {
    if val < 0 then "-" + Decimal(-val, base) else Decimal(val, base)
  }

  /** hexchar: its argument is an unsigned char, and only digits have a character. */
  function Hex(d: int): char {
    var c := d % 0x100;
    if c < 16 then HexChar(c) else '\0'
  }

  /** The characters before the terminator, as strlen and strcpy see them. */
  function CString(s: string): string {
    if s == [] || s[0] == '\0' then [] else [s[0]] + CString(s[1..])
  }

  lemma {:induction false} CStringStops(t: string, rest: string)
    requires forall i :: 0 <= i < |t| ==> t[i] != '\0'
    ensures CString(t + ['\0'] + rest) == t
  {
    var s := t + ['\0'] + rest;
    if t == [] {
      assert s[0] == '\0';
    } else {
      assert s[0] == t[0] && s[1..] == t[1..] + ['\0'] + rest;
      CStringStops(t[1..], rest);
    }
  }

  lemma DecimalInBase(n: nat, base: nat)
    requires 2 <= base <= 16
    ensures forall i :: 0 <= i < |Decimal(n, base)| ==> Decimal(n, base)[i] != '\0'
    ensures Decimal(n, base) != [] && 0 <= Unhex(Decimal(n, base)[|Decimal(n, base)| - 1])
  {
    hide Digits, Unhex;
    DigitsInBase(n, base);
    HexRoundTrip(0);
    if n > 0 {
      DigitsStep(n, base);
    }
  }

  lemma DivZero(m: nat, d: nat)
    requires d >= 2
    ensures Div(m, d) == 0 ==> Mod(m, d) == m
  {
  }

  lemma QuotIsDiv(val: int, base: nat)
    requires 2 <= base
    ensures Abs(Quot(val, base)) == Div(Abs(val), base) && Abs(Rem(val, base)) == Mod(Abs(val), base)
    ensures val >= 0 ==> Quot(val, base) >= 0 && Rem(val, base) >= 0
    ensures val <= 0 ==> Quot(val, base) <= 0 && Rem(val, base) <= 0
  {
  }

  /** One round of the digit loop, on a number that is not negative and on a negative one. */
  lemma DigitRound(val: int, base: nat)
    requires 2 <= base <= 16 && val != 0
    ensures |Digits(Abs(val), base)| == |Digits(Abs(Quot(val, base)), base)| + 1
    ensures val > 0 ==> Quot(val, base) >= 0
    ensures val > 0 ==> Digits(val, base) == Digits(Quot(val, base), base) + [Hex(Rem(val, base))]
    ensures val < 0 ==> Quot(val, base) <= 0 && (Quot(val, base) == 0 ==> Hex(Rem(val, base)) == '\0')
  {
    hide Digits, Div, Mod, Quot, Rem;
    QuotIsDiv(val, base);
    DigitsStep(Abs(val), base);
    DivZero(Abs(val), base);
  }

  /**
   The digit loop: from the back of a buffer of 40 characters; i is the last free place.  Of a negative number
   the remainders are negative, and the leading one leaves a terminator.
   */
  method MakeDigits(buf: array<char>, n: int, base: nat) returns (i: nat)
    requires 2 <= base <= 16 && -0x8000_0000 <= n < 0x1_0000_0000 && buf.Length == 40
    modifies buf
    ensures 5 <= i <= 38 && buf[39] == old(buf[39])
    ensures n >= 0 ==> buf[i + 1..39] == Decimal(n, base)
    ensures n < 0 ==> buf[i + 1] == '\0'
  {
    AbsOf(n);
    hide *;
    AtMost32Digits(Abs(n), base);
    NoDigits(base);
    var val, p := n, 0;
    i := 38;
    while val != 0 && i != 0
      invariant i + p == 38 && buf[39] == old(buf[39]) && (n >= 0 ==> val >= 0) && (n <= 0 ==> val <= 0)
      invariant |Digits(Abs(val), base)| + p == |Digits(Abs(n), base)|
      invariant n >= 0 ==> Digits(val, base) + buf[i + 1..39] == Digits(n, base)
      invariant p == 0 ==> val == n
      invariant p > 0 ==> n != 0
      invariant n < 0 && val == 0 ==> buf[i + 1] == '\0'
      decreases i
    {
      DigitRound(val, base);
      AbsOf(val);
      buf[i] := Hex(Rem(val, base));
      assert buf[i..39] == [Hex(Rem(val, base))] + buf[i + 1..39];
      i, p, val := i - 1, p + 1, Quot(val, base);
    }
    AbsOf(val);
    if p == 0 {
      buf[i] := '0';
      i := i - 1;
    }
  }

  lemma NoDigits(base: nat)
    requires 2 <= base <= 16
    ensures Digits(0, base) == []
  {
  }

  lemma AbsOf(v: int)
    ensures Abs(v) == if v < 0 then -v else v
  {
  }

  /** The text of a `long`.  Of the least one the negation is itself, and after the sign comes a terminator. */
  function LongText(val: int, base: nat): string
    requires 2 <= base <= 16
  {
    if val == -0x8000_0000 then "-" else Signed(val, base)
  }

  lemma Negated(v: int)
    requires IsI32(v)
    ensures I32(-v) == if v == -0x8000_0000 then v else -v
  {
  }

  /** The characters from the first digit to the end of the buffer, and the sign before them. */
  lemma TextOfTail(val0: int, val: int, base: nat, tail: string)
    requires 2 <= base <= 16 && IsI32(val0) && val == (if val0 < 0 then I32(-val0) else val0)
    requires tail != [] && (val < 0 ==> tail[0] == '\0') && (val >= 0 ==> tail == Decimal(val, base) + ['\0'])
    ensures CString(if val0 < 0 then ['-'] + tail else tail) == LongText(val0, base)
  {
    Negated(val0);
    if val >= 0 {
      DecimalInBase(val, base);
    }
    hide Decimal, CString, I32;
    if val >= 0 {
      Terminated(Decimal(val, base));
    } else {
      CStringStops("-", tail[1..]);
      assert ['-'] + tail == "-" + ['\0'] + tail[1..];
    }
  }

  lemma Terminated(d: string)
    requires forall i :: 0 <= i < |d| ==> d[i] != '\0'
    ensures CString(d + ['\0']) == d && CString(['-'] + (d + ['\0'])) == "-" + d
  {
    hide CString;
    CStringStops(d, []);
    CStringStops("-" + d, []);
    assert d + ['\0'] + [] == d + ['\0'] && "-" + d + ['\0'] + [] == ['-'] + (d + ['\0']);
  }

  /** ltoa_wp */
  method LtoaWp(val0: int, base: nat, width0: int, pad: char) returns (s: string)
    requires 2 <= base <= 16 && IsI32(val0)
    ensures s == Padded(LongText(val0, base), width0, pad)
  {
    hide Decimal, CString, Repeat, I32, LongText;
    var buf := new char[40](_ => '\0');
    var ngt, val := val0 < 0, val0;
    if ngt {
      val := I32(-val);
    }
    var i := MakeDigits(buf, val, base);
    ghost var tail := buf[i + 1..];
    assert tail == buf[i + 1..39] + ['\0'];
    TextOfTail(val0, val, base, tail);
    if ngt {
      buf[i] := '-';
      i := i - 1;
      assert buf[i + 1..] == ['-'] + tail;
    }
    s := PadLeft(CString(buf[i + 1..]), width0, pad);
  }

  /** The sign and the digits are printed for every `long` but the least. */
  lemma LongTextExactIff(val: int, base: nat, width: int, pad: char)
    requires 2 <= base <= 16 && IsI32(val)
    ensures Padded(LongText(val, base), width, pad) == Padded(Signed(val, base), width, pad) <==> val != -0x8000_0000
  {
    if val == -0x8000_0000 {
      DecimalInBase(-val, base);
      hide Decimal;
      var a, b := Padded("-", width, pad), Padded(Signed(val, base), width, pad);
      assert a[|a| - 1] == '-' && Unhex('-') == -1;
      assert b[|b| - 1] == Signed(val, base)[|Signed(val, base)| - 1];
    }
  }

  /** ultoa_wp */
  method UltoaWp(val: nat, base: nat, width0: int, pad: char) returns (s: string)
    requires 2 <= base <= 16 && val < 0x1_0000_0000
    ensures s == Padded(Decimal(val, base), width0, pad)
  {
    hide Decimal, CString, Repeat;
    var buf := new char[40](_ => '\0');
    var i := MakeDigits(buf, val, base);
    DecimalInBase(val, base);
    assert buf[i + 1..] == buf[i + 1..39] + ['\0'] + [];
    CStringStops(buf[i + 1..39], []);
    s := PadLeft(CString(buf[i + 1..]), width0, pad);
  }

  method PadLeft(text: string, width0: int, pad: char) returns (s: string)
    ensures s == Padded(text, width0, pad)
  {
    var width := width0;
    if width != 0 {
      width := width - |text|;
      if width <= 0 {
        width := 0;
      }
    }
    s := Repeat(pad, width) + text;
  }
}
