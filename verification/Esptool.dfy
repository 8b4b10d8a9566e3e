/** The firmware image builder, and the loader that reads such an image back. */
module Esptool {
  import opened Arith
  import opened Machine
  import opened Wrappers

  const IMAGE_PADDING := 16
  const SECTION_PADDING := 4
  const CHECKSUM_INIT: Uint8 := 0xEF
  const BIN_MAGIC_IROM: Uint8 := 0xEA
  const BIN_MAGIC_FLASH: Uint8 := 0xE9
  const IROM := ".irom0.text"

  type Uint32 = x: nat | x < 0x1_0000_0000
  type Bytes = seq<Uint8>

  // ---------------------------------------------------------------- bytes and words

  /** Exclusive or, on the k low bits. */
  function XorBits(a: nat, b: nat, k: nat): (r: nat)
    ensures r < PowerOfTwo(k)
  {
    if k == 0 then 0 else (if a % 2 != b % 2 then 1 else 0) + 2 * XorBits(a / 2, b / 2, k - 1)
  }

  /** Inclusive or, on the k low bits. */
  function OrBits(a: nat, b: nat, k: nat): (r: nat)
    ensures r < PowerOfTwo(k)
  {
    if k == 0 then 0 else (if a % 2 + b % 2 > 0 then 1 else 0) + 2 * OrBits(a / 2, b / 2, k - 1)
  }

  lemma TwoToTheEight()
    ensures PowerOfTwo(8) == 0x100
  {
    assert PowerOfTwo(4) == 16;
  }

  function Xor(a: Uint8, b: Uint8): (r: Uint8) {
    TwoToTheEight();
    XorBits(a, b, 8)
  }

  lemma {:induction false} XorBitsZero(a: nat, k: nat)
    requires a < PowerOfTwo(k)
    ensures XorBits(a, 0, k) == a
  {
    if k > 0 { XorBitsZero(a / 2, k - 1); }
  }

  /** Values of k bits that differ still differ after the same value was added to both. */
  lemma {:induction false} XorBitsInjective(a: nat, b: nat, c: nat, k: nat)
    requires a < PowerOfTwo(k) && b < PowerOfTwo(k) && a != b
    ensures XorBits(a, c, k) != XorBits(b, c, k)
    ensures XorBits(c, a, k) != XorBits(c, b, k)
  {
    assert a == 2 * (a / 2) + a % 2 && b == 2 * (b / 2) + b % 2;
    if k > 0 && a / 2 != b / 2 { XorBitsInjective(a / 2, b / 2, c / 2, k - 1); }
  }

  lemma XorInjective(a: Uint8, b: Uint8, c: Uint8)
    requires a != b
    ensures Xor(a, c) != Xor(b, c) && Xor(c, a) != Xor(c, b)
  {
    TwoToTheEight();
    XorBitsInjective(a, b, c, 8);
  }

  /** A word as its four bytes, least significant first. */
  function Word(n: Uint32): (r: Bytes)
    ensures |r| == 4
  {
    var a := n / 0x100;
    var b := a / 0x100;
    [n % 0x100, a % 0x100, b % 0x100, b / 0x100]
  }

  function ReadWord(b: Bytes): (n: Uint32)
    requires |b| >= 4
  {
    var b0: int, b1: int, b2: int, b3: int := b[0], b[1], b[2], b[3];
    b0 + 0x100 * (b1 + 0x100 * (b2 + 0x100 * b3))
  }

  lemma WordRoundTrip(n: Uint32, rest: Bytes)
    ensures ReadWord(Word(n) + rest) == n
  {
  }

  function Zeros(n: nat): (r: Bytes)
    ensures |r| == n
  {
    seq(n, _ => 0)
  }

  function PadLength(n: nat, unit: nat): (r: nat)
    ensures r <= unit
  {
    if unit > 0 && n % unit > 0 then unit - n % unit else 0
  }

  lemma PadFills(n: nat, unit: nat)
    requires unit > 0
    ensures PadLength(n, unit) < unit && (n + PadLength(n, unit)) % unit == 0
  {
    var q := n / unit;
    if n % unit > 0 {
      assert (q + 1) * unit == n + PadLength(n, unit);
      DivUnique((q + 1) * unit, unit, q + 1);
    }
  }

  // ---------------------------------------------------------------- the checksum

  function Sum(acc: Uint8, b: Bytes): (r: Uint8)
    decreases b
  {
    if b == [] then acc else Sum(Xor(acc, b[0]), b[1..])
  }

  lemma {:induction false} SumAppend(acc: Uint8, a: Bytes, b: Bytes)
    ensures Sum(acc, a + b) == Sum(Sum(acc, a), b)
    decreases a
  {
    if a == [] {
      assert a + b == b;
    } else {
      assert (a + b)[1..] == a[1..] + b;
      SumAppend(Xor(acc, a[0]), a[1..], b);
    }
  }

  /** Padding bytes leave the checksum alone. */
  lemma {:induction false} SumZeros(acc: Uint8, n: nat)
    ensures Sum(acc, Zeros(n)) == acc
  {
    if n > 0 {
      TwoToTheEight();
      XorBitsZero(acc, 8);
      assert Zeros(n)[1..] == Zeros(n - 1);
      SumZeros(acc, n - 1);
    }
  }

  lemma {:induction false} SumInjective(a: Uint8, c: Uint8, b: Bytes)
    requires a != c
    ensures Sum(a, b) != Sum(c, b)
    decreases b
  {
    if b != [] {
      XorInjective(a, c, b[0]);
      SumInjective(Xor(a, b[0]), Xor(c, b[0]), b[1..]);
    }
  }

  /** One changed byte changes the checksum. */
  lemma SumCatches(acc: Uint8, b: Bytes, i: nat, v: Uint8)
    requires i < |b| && v != b[i]
    ensures Sum(acc, b[i := v]) != Sum(acc, b)
  {
    var c := Sum(acc, b[..i]);
    assert b == b[..i] + ([b[i]] + b[i + 1..]) && b[i := v] == b[..i] + ([v] + b[i + 1..]);
    SumAppend(acc, b[..i], [b[i]] + b[i + 1..]);
    SumAppend(acc, b[..i], [v] + b[i + 1..]);
    XorInjective(v, b[i], c);
    SumInjective(Xor(c, v), Xor(c, b[i]), b[i + 1..]);
    assert ([b[i]] + b[i + 1..])[1..] == b[i + 1..] == ([v] + b[i + 1..])[1..];
  }

  // ---------------------------------------------------------------- what an image holds

  /** A section of the image: its load address and its bytes, padding included. */
  datatype Segment = Segment(address: Uint32, bytes: Bytes)

  datatype Program = Program(byte2: Uint8, byte3: Uint8, entry: Uint32, segments: seq<Segment>)

  predicate Sized(x: Segment) {
    |x.bytes| < 0x1_0000_0000
  }

  predicate AllSized(xs: seq<Segment>) {
    forall i :: 0 <= i < |xs| ==> Sized(xs[i])
  }

  function Encode(x: Segment): (r: Bytes)
    requires Sized(x)
  {
    Word(x.address) + (Word(|x.bytes|) + x.bytes)
  }

  function EncodeAll(xs: seq<Segment>): (r: Bytes)
    requires AllSized(xs)
  {
    if xs == [] then [] else Encode(xs[0]) + EncodeAll(xs[1..])
  }

  function SumAll(acc: Uint8, xs: seq<Segment>): (r: Uint8)
    decreases xs
  {
    if xs == [] then acc else SumAll(Sum(acc, xs[0].bytes), xs[1..])
  }

  function Header(magic: Uint8, count: Uint8, byte2: Uint8, byte3: Uint8, entry: Uint32): (r: Bytes)
    ensures |r| == 8
  {
    [magic, count, byte2, byte3] + Word(entry)
  }

  /** The standard image of p with the checksum sum, padded so that it ends on a multiple of 16. */
  function Image(p: Program, sum: Uint8): (r: Bytes)
    requires AllSized(p.segments)
  {
    var code := EncodeAll(p.segments);
    Header(BIN_MAGIC_FLASH, |p.segments| % 0x100, p.byte2, p.byte3, p.entry) + (code + Tail(8 + |code|, sum))
  }

  /** The padding and the checksum that follow n bytes. */
  function Tail(n: nat, sum: Uint8): (r: Bytes)
    ensures |r| == PadLength(n + 1, IMAGE_PADDING) + 1 && r[|r| - 1] == sum
  {
    Zeros(PadLength(n + 1, IMAGE_PADDING)) + [sum]
  }

  lemma {:induction false} EncodeAllAppend(xs: seq<Segment>, x: Segment)
    requires AllSized(xs) && Sized(x)
    ensures AllSized(xs + [x]) && EncodeAll(xs + [x]) == EncodeAll(xs) + Encode(x)
  {
    hide Encode;
    assert AllSized(xs + [x]);
    if xs == [] {
      assert xs + [x] == [x] && [x][1..] == [];
    } else {
      assert (xs + [x])[1..] == xs[1..] + [x];
      EncodeAllAppend(xs[1..], x);
    }
  }

  lemma {:induction false} SumAllAppend(acc: Uint8, xs: seq<Segment>, x: Segment)
    ensures SumAll(acc, xs + [x]) == Sum(SumAll(acc, xs), x.bytes)
    decreases xs
  {
    if xs == [] {
      assert [x][1..] == [];
    } else {
      assert (xs + [x])[1..] == xs[1..] + [x];
      SumAllAppend(Sum(acc, xs[0].bytes), xs[1..], x);
    }
  }

  lemma {:induction false} SumAllInjective(a: Uint8, c: Uint8, xs: seq<Segment>)
    requires a != c
    ensures SumAll(a, xs) != SumAll(c, xs)
    decreases xs
  {
    if xs != [] {
      SumInjective(a, c, xs[0].bytes);
      SumAllInjective(Sum(a, xs[0].bytes), Sum(c, xs[0].bytes), xs[1..]);
    }
  }

  // ---------------------------------------------------------------- the loader

  datatype Walk = Truncated | Walked(segments: seq<Segment>, rest: Bytes)

  /** Read n section headers and the bytes that each of them announces. */
  function ReadSegments(b: Bytes, n: nat): (w: Walk)
    ensures w.Walked? ==> |w.rest| <= |b| && |w.segments| == n
    decreases n
  {
    if n == 0 then Walked([], b)
    else if |b| < 8 then Truncated
    else
      var size := ReadWord(b[4..]);
      if |b| < 8 + size then Truncated
      else
        var w := ReadSegments(b[8 + size..], n - 1);
        if w.Truncated? then Truncated
        else Walked([Segment(ReadWord(b), b[8..8 + size])] + w.segments, w.rest)
  }

  datatype Loaded = Rejected | Accepted(p: Program)

  /** Boot a standard image: the magic number, the sections, the padding and the checksum have to fit. */
  function Load(b: Bytes, acc: Uint8): (r: Loaded) {
    if |b| < 8 || b[0] != BIN_MAGIC_FLASH then Rejected
    else
      var w := ReadSegments(b[8..], b[1]);
      if w.Truncated? then Rejected
      else
        var pad := PadLength(|b| - |w.rest| + 1, IMAGE_PADDING);
        if |w.rest| != pad + 1 || w.rest[pad] != SumAll(acc, w.segments) then Rejected
        else Accepted(Program(b[2], b[3], ReadWord(b[4..]), w.segments))
  }

  datatype LoadedRom = RejectedRom | AcceptedRom(rom: Segment, p: Program)

  /** Boot an image of the second boot loader: the library's own header comes first. */
  function LoadRom(b: Bytes, iromchksum: bool): (r: LoadedRom) {
    if |b| < 8 || b[0] != BIN_MAGIC_IROM || b[1] != 4 then RejectedRom
    else
      var w := ReadSegments(b[8..], 1);
      if w.Truncated? then RejectedRom
      else
        var r := Load(w.rest, if iromchksum then Sum(CHECKSUM_INIT, w.segments[0].bytes) else CHECKSUM_INIT);
        if r.Rejected? then RejectedRom else AcceptedRom(w.segments[0], r.p)
  }

  lemma EncodedHead(x: Segment, rest: Bytes)
    requires Sized(x)
    ensures
      var b := Encode(x) + rest;
      && |b| == 8 + |x.bytes| + |rest| && ReadWord(b) == x.address && ReadWord(b[4..]) == |x.bytes|
      && b[8..8 + |x.bytes|] == x.bytes && b[8 + |x.bytes|..] == rest
  {
    var b := Encode(x) + rest;
    WordRoundTrip(x.address, Word(|x.bytes|) + x.bytes + rest);
    WordRoundTrip(|x.bytes|, x.bytes + rest);
    assert b == Word(x.address) + (Word(|x.bytes|) + x.bytes + rest);
    assert b[4..] == Word(|x.bytes|) + (x.bytes + rest);
  }

  /** The loader walks over exactly the sections that were written. */
  lemma {:induction false} SegmentsRoundTrip(xs: seq<Segment>, rest: Bytes)
    requires AllSized(xs)
    ensures ReadSegments(EncodeAll(xs) + rest, |xs|) == Walked(xs, rest)
  {
    if xs == [] {
      assert EncodeAll(xs) + rest == rest;
    } else {
      assert EncodeAll(xs) + rest == Encode(xs[0]) + (EncodeAll(xs[1..]) + rest);
      EncodedHead(xs[0], EncodeAll(xs[1..]) + rest);
      SegmentsRoundTrip(xs[1..], rest);
      assert xs == [xs[0]] + xs[1..];
    }
  }

  lemma HeaderReads(magic: Uint8, count: Uint8, byte2: Uint8, byte3: Uint8, entry: Uint32, rest: Bytes)
    ensures
      var b := Header(magic, count, byte2, byte3, entry) + rest;
      && b[0] == magic && b[1] == count && b[2] == byte2 && b[3] == byte3
      && ReadWord(b[4..]) == entry && b[8..] == rest
  {
    var b := Header(magic, count, byte2, byte3, entry) + rest;
    assert b[4..] == Word(entry) + rest;
    WordRoundTrip(entry, rest);
  }

  lemma LoadsWhatItWalks(b: Bytes, xs: seq<Segment>, sum: Uint8, acc: Uint8, n: nat)
    requires |b| >= 8 && b[0] == BIN_MAGIC_FLASH && ReadSegments(b[8..], b[1]) == Walked(xs, Tail(n, sum))
    requires |b| == n + |Tail(n, sum)|
    ensures Load(b, acc) ==
      if sum == SumAll(acc, xs) then Accepted(Program(b[2], b[3], ReadWord(b[4..]), xs)) else Rejected
  {
    hide ReadSegments, ReadWord, SumAll, PadLength, Tail;
  }

  lemma ImageParts(p: Program, sum: Uint8)
    requires AllSized(p.segments) && |p.segments| <= 255
    ensures
      var code := EncodeAll(p.segments);
      Image(p, sum) == Header(BIN_MAGIC_FLASH, |p.segments|, p.byte2, p.byte3, p.entry) + (code + Tail(8 + |code|, sum))
  {
  }

  /** An image boots exactly if its last byte is the checksum of its sections. */
  lemma ImageLoads(p: Program, sum: Uint8, acc: Uint8)
    requires AllSized(p.segments) && |p.segments| <= 255
    ensures Load(Image(p, sum), acc) == if sum == SumAll(acc, p.segments) then Accepted(p) else Rejected
  {
    hide *;
    var code := EncodeAll(p.segments);
    var n := 8 + |code|;
    ImageParts(p, sum);
    HeaderReads(BIN_MAGIC_FLASH, |p.segments|, p.byte2, p.byte3, p.entry, code + Tail(n, sum));
    SegmentsRoundTrip(p.segments, Tail(n, sum));
    LoadsWhatItWalks(Image(p, sum), p.segments, sum, acc, n);
  }

  lemma ImageAligned(p: Program, sum: Uint8)
    requires AllSized(p.segments)
    ensures |Image(p, sum)| % IMAGE_PADDING == 0
  {
    hide EncodeAll, PadLength, Tail, Header;
    PadFills(8 + |EncodeAll(p.segments)| + 1, IMAGE_PADDING);
  }

  /** The loader gives back the program that was written if and only if the section count fits in its byte. */
  lemma LoadsIffCountFits(p: Program, acc: Uint8)
    requires AllSized(p.segments)
    ensures Load(Image(p, SumAll(acc, p.segments)), acc) == Accepted(p) <==> |p.segments| <= 255
  {
    if |p.segments| <= 255 {
      ImageLoads(p, SumAll(acc, p.segments), acc);
    } else {
      var b := Image(p, SumAll(acc, p.segments));
      assert b[1] == |p.segments| % 0x100;
    }
  }

  lemma {:induction false} SumAllCatches(acc: Uint8, xs: seq<Segment>, j: nat, i: nat, v: Uint8)
    requires j < |xs| && i < |xs[j].bytes| && v != xs[j].bytes[i]
    ensures SumAll(acc, xs[j := xs[j].(bytes := xs[j].bytes[i := v])]) != SumAll(acc, xs)
    decreases j
  {
    var x := xs[j].(bytes := xs[j].bytes[i := v]);
    if j == 0 {
      assert xs[0 := x][1..] == xs[1..];
      SumCatches(acc, xs[0].bytes, i, v);
      SumAllInjective(Sum(acc, x.bytes), Sum(acc, xs[0].bytes), xs[1..]);
    } else {
      assert xs[j := x][1..] == xs[1..][j - 1 := x];
      SumAllCatches(Sum(acc, xs[0].bytes), xs[1..], j - 1, i, v);
    }
  }

  /** An image in which one byte of one section was changed after the checksum was taken does not boot. */
  lemma CorruptionCaught(p: Program, acc: Uint8, j: nat, i: nat, v: Uint8)
    requires AllSized(p.segments) && |p.segments| <= 255
    requires j < |p.segments| && i < |p.segments[j].bytes| && v != p.segments[j].bytes[i]
    ensures
      var x := p.segments[j].(bytes := p.segments[j].bytes[i := v]);
      && AllSized(p.segments[j := x])
      && Load(Image(p.(segments := p.segments[j := x]), SumAll(acc, p.segments)), acc) == Rejected
  {
    var x := p.segments[j].(bytes := p.segments[j].bytes[i := v]);
    assert AllSized(p.segments[j := x]);
    hide Load, Image, SumAll;
    SumAllCatches(acc, p.segments, j, i, v);
    ImageLoads(p.(segments := p.segments[j := x]), SumAll(acc, p.segments), acc);
  }

  /** The image for the second boot loader: the library, then the standard image. */
  function RomImage(rom: Segment, p: Program, sum: Uint8): (r: Bytes)
    requires Sized(rom) && AllSized(p.segments)
  {
    Header(BIN_MAGIC_IROM, 4, p.byte2, p.byte3, p.entry) + (Encode(rom) + Image(p, sum))
  }

  lemma RomImageLoads(rom: Segment, p: Program, iromchksum: bool)
    requires Sized(rom) && AllSized(p.segments) && |p.segments| <= 255
    ensures
      var acc := if iromchksum then Sum(CHECKSUM_INIT, rom.bytes) else CHECKSUM_INIT;
      LoadRom(RomImage(rom, p, SumAll(acc, p.segments)), iromchksum) == AcceptedRom(rom, p)
  {
    var acc := if iromchksum then Sum(CHECKSUM_INIT, rom.bytes) else CHECKSUM_INIT;
    var rest := Image(p, SumAll(acc, p.segments));
    HeaderReads(BIN_MAGIC_IROM, 4, p.byte2, p.byte3, p.entry, Encode(rom) + rest);
    assert EncodeAll([rom]) == Encode(rom);
    SegmentsRoundTrip([rom], rest);
    ImageLoads(p, SumAll(acc, p.segments), acc);
    hide Load, Image, SumAll, Sum, ReadSegments, EncodeAll, Encode, Header, ReadWord, AllSized;
  }

  lemma RomImageAligned(rom: Segment, p: Program, sum: Uint8)
    requires Sized(rom) && AllSized(p.segments) && |rom.bytes| % IMAGE_PADDING == 0
    ensures |RomImage(rom, p, sum)| % IMAGE_PADDING == 0
  {
    ImageAligned(p, sum);
    hide Image;
  }

  // ---------------------------------------------------------------- the builder

  /** A section of the input file; without an offset it has no bytes there. */
  datatype RawSection = RawSection(name: string, address: Uint32, offset: nat, data: Bytes)

  /** Sections whose padded size fits in a positive int. */
  type Section = s: RawSection | |s.data| < 0x7FFF_FFF0 witness RawSection("", 0, 0, [])

  datatype Elf = Elf(entry: Uint32, sections: seq<Section>)

  function FirstNamed(ss: seq<Section>, name: string): (r: Option<Section>) {
    if ss == [] then None else if ss[0].name == name then Some(ss[0]) else FirstNamed(ss[1..], name)
  }

  /** The section that a name stands for: the first of that name, if it has bytes. */
  function Lookup(elf: Elf, name: string): (r: Option<Section>) {
    var r := FirstNamed(elf.sections, name);
    if r.Some? && (r.value.data == [] || r.value.offset == 0) then None else r
  }

  /** What becomes of a section in the image. */
  function Padded(s: Section, zeroaddr: bool, padto: nat): (x: Segment)
    requires padto <= IMAGE_PADDING
    ensures Sized(x)
  {
    Segment(if zeroaddr then 0 else s.address, s.data + Zeros(PadLength(|s.data|, padto)))
  }

  lemma PaddedSum(s: Section, zeroaddr: bool, padto: nat, acc: Uint8)
    requires padto <= IMAGE_PADDING
    ensures Sum(acc, Padded(s, zeroaddr, padto).bytes) == Sum(acc, s.data)
  {
    SumAppend(acc, s.data, Zeros(PadLength(|s.data|, padto)));
    SumZeros(Sum(acc, s.data), PadLength(|s.data|, padto));
  }

  /** Every name stands for a section. */
  predicate AllFound(elf: Elf, names: seq<string>) {
    forall i :: 0 <= i < |names| ==> Lookup(elf, names[i]).Some?
  }

  /** The segments that the named sections become. */
  function Chosen(elf: Elf, names: seq<string>): (xs: seq<Segment>)
    requires AllFound(elf, names)
    ensures |xs| == |names| && AllSized(xs)
  {
    if names == [] then []
    else
      var n := |names| - 1;
      Chosen(elf, names[..n]) + [Padded(Lookup(elf, names[n]).value, false, SECTION_PADDING)]
  }

  lemma ChosenNone(elf: Elf, acc: Uint8)
    ensures AllFound(elf, []) && EncodeAll(Chosen(elf, [])) == [] && SumAll(acc, Chosen(elf, [])) == acc
  {
  }

  lemma ChosenMore(elf: Elf, names: seq<string>, name: string, acc: Uint8)
    requires AllFound(elf, names) && Lookup(elf, name).Some?
    ensures AllFound(elf, names + [name])
    ensures
      var x := Padded(Lookup(elf, name).value, false, SECTION_PADDING);
      var xs, ys := Chosen(elf, names), Chosen(elf, names + [name]);
      && ys == xs + [x] && EncodeAll(ys) == EncodeAll(xs) + Encode(x)
      && SumAll(acc, ys) == Sum(SumAll(acc, xs), x.bytes)
  {
    var x, xs := Padded(Lookup(elf, name).value, false, SECTION_PADDING), Chosen(elf, names);
    assert (names + [name])[..|names|] == names;
    hide Lookup, EncodeAll, SumAll, Encode, Sum, Padded;
    EncodeAllAppend(xs, x);
    SumAllAppend(acc, xs, x);
  }

  lemma PaddedAligned(s: Section, zeroaddr: bool, padto: nat)
    requires 0 < padto <= IMAGE_PADDING
    ensures |Padded(s, zeroaddr, padto).bytes| % padto == 0
    ensures |Encode(Padded(s, zeroaddr, padto))| == 8 + |Padded(s, zeroaddr, padto).bytes|
  {
    PadFills(|s.data|, padto);
  }

  lemma RomImageParts(rom: Segment, p: Program, sum: Uint8, before: Bytes)
    requires Sized(rom) && AllSized(p.segments)
    requires before == Header(BIN_MAGIC_IROM, 4, p.byte2, p.byte3, p.entry) + Encode(rom)
    ensures before + Image(p, sum) == RomImage(rom, p, sum)
  {
    hide Header, Encode, Image, AllSized;
  }

  /** Where the library of a boot 1 image begins. */
  const LIBRARY: nat := 0x10000

  function Ones(n: nat): (r: Bytes)
    ensures |r| == n
  {
    seq(n, _ => 0xff)
  }

  /** The length of a standard image. */
  function ImageLength(xs: seq<Segment>): nat
    requires AllSized(xs)
  {
    8 + |EncodeAll(xs)| + PadLength(8 + |EncodeAll(xs)| + 1, IMAGE_PADDING) + 1
  }

  /** The image ends before the place of the library. */
  predicate SpacerFits(xs: seq<Segment>, emptyAlloc: bool)
    requires AllSized(xs)
  {
    ImageLength(xs) < LIBRARY || (ImageLength(xs) == LIBRARY && emptyAlloc)
  }

  lemma ImageSize(p: Program, sum: Uint8)
    requires AllSized(p.segments)
    ensures |Image(p, sum)| == ImageLength(p.segments)
  {
    hide EncodeAll, PadLength, Tail, Header;
  }

  lemma UnpaddedIsData(s: Section)
    ensures Padded(s, false, 0).bytes == s.data
  {
    assert Zeros(0) == [];
  }

  /** The flash size in the high half of the byte, the clock in the low half. */
  function Byte3(size: Uint8, clock: Uint8): (r: Uint8) {
    TwoToTheEight();
    OrBits(size * 16, clock, 8)
  }

  lemma {:induction false} OrBitsZero(a: nat, k: nat)
    requires a < PowerOfTwo(k)
    ensures OrBits(a, 0, k) == a
  {
    if k > 0 { OrBitsZero(a / 2, k - 1); }
  }

  lemma OrBitsDouble(a: nat, b: nat, k: nat)
    ensures OrBits(2 * a, b, k + 1) == b % 2 + 2 * OrBits(a, b / 2, k)
  {
    assert (2 * a) % 2 == 0 && (2 * a) / 2 == a;
  }

  /** Size and clock are its two halves. */
  lemma Byte3Halves(size: Uint8, clock: Uint8)
    requires size < 16 && clock < 16
    ensures Byte3(size, clock) / 16 == size && Byte3(size, clock) % 16 == clock
  {
    hide OrBits;
    OrBitsDouble(size * 8, clock, 7);
    OrBitsDouble(size * 4, clock / 2, 6);
    OrBitsDouble(size * 2, clock / 2 / 2, 5);
    OrBitsDouble(size, clock / 2 / 2 / 2, 4);
    assert PowerOfTwo(4) == 16;
    OrBitsZero(size, 4);
  }

  /** An image, place by place: magic number, count, two bytes of options, entry point, and the checksum last. */
  lemma ImageLayout(p: Program, sum: Uint8)
    requires AllSized(p.segments)
    ensures var b := Image(p, sum);
            && |b| >= 9 && b[0] == 0xE9 && b[1] == |p.segments| % 0x100 && b[2] == p.byte2 && b[3] == p.byte3
            && b[4] == p.entry % 0x100 && b[5] == p.entry / 0x100 % 0x100 && b[6] == p.entry / 0x1_0000 % 0x100
            && b[7] == p.entry / 0x100_0000 && b[|b| - 1] == sum
  {
    hide Tail, EncodeAll;
  }

  /** The checksum starts at 0xEF and is an exclusive or: a byte takes itself back. */
  lemma ChecksumStarts(b: Bytes)
    ensures SumAll(CHECKSUM_INIT, []) == 0xEF
    ensures Sum(CHECKSUM_INIT, [0xEF] + b) == Sum(0, b)
  {
    assert ([0xEF] + b)[0] == 0xEF && ([0xEF] + b)[1..] == b;
    assert Xor(0xEF, 0xEF) == 0 by {
      TwoToTheEight();
      XorBitsSame(0xEF, 8);
    }
  }

  lemma {:induction false} XorBitsSame(a: nat, k: nat)
    ensures XorBits(a, a, k) == 0
  {
    if k > 0 { XorBitsSame(a / 2, k - 1); }
  }

  /** What comes before in whole units does not matter for the padding. */
  lemma PadShift(b: nat, n: nat)
    requires b % IMAGE_PADDING == 0
    ensures var pad := (b + n + 1) % IMAGE_PADDING;
            PadLength(n + 1, IMAGE_PADDING) == if pad > 0 then IMAGE_PADDING - pad else pad
  {
  }

  lemma SectionBytes(base: Bytes, address: Uint32, data: Bytes, pad: nat)
    requires |data| + pad < 0x1_0000_0000
    ensures base + Word(address) + Word(|data| + pad) + data + Zeros(pad) ==
        base + Encode(Segment(address, data + Zeros(pad)))
    ensures base + data + Zeros(pad) == base + (data + Zeros(pad))
  {
    hide Word, Zeros;
  }

  /** A standard image that was written to an empty file. */
  lemma StandardDone(out: Bytes, p: Program)
    requires AllSized(p.segments) && out == [] + Image(p, SumAll(CHECKSUM_INIT, p.segments))
    ensures |out| == ImageLength(p.segments) && |out| % IMAGE_PADDING == 0
    ensures |p.segments| <= 255 ==> Load(out, CHECKSUM_INIT) == Accepted(p)
  {
    hide AllSized, SumAll, Image, Load, ImageLength;
    var sum := SumAll(CHECKSUM_INIT, p.segments);
    assert out == Image(p, sum);
    ImageAligned(p, sum);
    ImageSize(p, sum);
    if |p.segments| <= 255 { ImageLoads(p, sum, CHECKSUM_INIT); }
  }

  /** One that was written after the library and its header. */
  lemma RomDone(out: Bytes, before: Bytes, rom: Segment, p: Program, acc: Uint8, iromchksum: bool)
    requires Sized(rom) && AllSized(p.segments) && |rom.bytes| % IMAGE_PADDING == 0
    requires before == Header(BIN_MAGIC_IROM, 4, p.byte2, p.byte3, p.entry) + Encode(rom)
    requires acc == if iromchksum then Sum(CHECKSUM_INIT, rom.bytes) else CHECKSUM_INIT
    requires out == before + Image(p, SumAll(acc, p.segments))
    ensures |out| % IMAGE_PADDING == 0
    ensures |p.segments| <= 255 ==> LoadRom(out, iromchksum) == AcceptedRom(rom, p)
  {
    hide AllSized, SumAll, Sum, Image, RomImage, LoadRom, Header, Encode;
    RomImageParts(rom, p, SumAll(acc, p.segments), before);
    RomImageAligned(rom, p, SumAll(acc, p.segments));
    if |p.segments| <= 255 { RomImageLoads(rom, p, iromchksum); }
  }

  class Builder {
    const elf: Elf
    var outfile: Bytes
    var chksum: Uint8

    constructor (input: Elf)
      ensures elf == input && outfile == [] && chksum == CHECKSUM_INIT
    {
      elf, outfile, chksum := input, [], CHECKSUM_INIT;
    }

    method GetElfSection(name: string) returns (r: Option<Section>)
      ensures r == FirstNamed(elf.sections, name)
    {
      for i := 0 to |elf.sections|
        invariant FirstNamed(elf.sections, name) == FirstNamed(elf.sections[i..], name)
      {
        if elf.sections[i].name == name {
          return Some(elf.sections[i]);
        }
      }
      return None;
    }

    method WriteElfSection(name: string, headed: bool, zeroaddr: bool, padto: nat, summed: bool) returns (ok: bool)
      requires padto <= IMAGE_PADDING
      modifies this
      ensures ok <==> Lookup(elf, name).Some?
      ensures !ok ==> outfile == old(outfile) && chksum == old(chksum)
      ensures ok ==>
        var x := Padded(Lookup(elf, name).value, zeroaddr, padto);
        && Sized(x) && outfile == old(outfile) + (if headed then Encode(x) else x.bytes)
        && chksum == if summed then Sum(old(chksum), x.bytes) else old(chksum)
    {
      var found := GetElfSection(name);
      if found.None? || found.value.data == [] || found.value.offset == 0 {
        return false;
      }
      var sect := found.value;
      var size, pad := |sect.data|, 0;
      if padto > 0 {
        pad := size % padto;
        if pad > 0 {
          pad := padto - pad;
          size := size + pad;
        }
      }
      ghost var x := Padded(sect, zeroaddr, padto);
      assert pad == PadLength(|sect.data|, padto) && size == |x.bytes|;
      PaddedSum(sect, zeroaddr, padto, chksum);
      SectionBytes(outfile, x.address, sect.data, pad);
      hide Sum, Word, Lookup, Encode, PadLength, Zeros;
      if headed {
        outfile := outfile + Word(if zeroaddr then 0 else sect.address) + Word(size);
      }
      outfile := outfile + sect.data + Zeros(pad);
      if summed {
        AddToChecksum(sect.data);
      }
      return true;
    }

    method AddToChecksum(data: Bytes)
      modifies `chksum
      ensures chksum == Sum(old(chksum), data)
    {
      for i := 0 to |data|
        invariant Sum(chksum, data[i..]) == Sum(old(chksum), data)
      {
        assert data[i..][1..] == data[i + 1..];
        chksum := Xor(chksum, data[i]);
      }
    }

    method WriteSections(sections: seq<string>) returns (ok: bool)
      modifies this
      ensures ok <==> AllFound(elf, sections)
      ensures ok ==> outfile == old(outfile) + EncodeAll(Chosen(elf, sections))
      ensures ok ==> chksum == SumAll(old(chksum), Chosen(elf, sections))
    {
      hide Lookup, EncodeAll, SumAll, Sum, Encode, Padded;
      ChosenNone(elf, old(chksum));
      for i := 0 to |sections|
        invariant AllFound(elf, sections[..i])
        invariant outfile == old(outfile) + EncodeAll(Chosen(elf, sections[..i]))
        invariant chksum == SumAll(old(chksum), Chosen(elf, sections[..i]))
      {
        ok := WriteElfSection(sections[i], true, false, SECTION_PADDING, true);
        if !ok {
          return false;
        }
        ChosenMore(elf, sections[..i], sections[i], old(chksum));
        assert sections[..i + 1] == sections[..i] + [sections[i]];
      }
      assert sections[..|sections|] == sections;
      return true;
    }

    /** The standard part of an image: header, sections, padding and checksum. */
    method WriteImage(byte2: Uint8, byte3: Uint8, sections: seq<string>) returns (ok: bool)
      requires |outfile| % IMAGE_PADDING == 0
      modifies this
      ensures ok <==> AllFound(elf, sections)
      ensures ok ==>
        var p := Program(byte2, byte3, elf.entry, Chosen(elf, sections));
        outfile == old(outfile) + Image(p, SumAll(old(chksum), p.segments))
    {
      hide Lookup, AllFound, EncodeAll, SumAll, Header, Chosen, AllSized;
      var head := Header(BIN_MAGIC_FLASH, |sections| % 0x100, byte2, byte3, elf.entry);
      outfile := outfile + head;
      ok := WriteSections(sections);
      if !ok {
        return false;
      }
      ghost var code := EncodeAll(Chosen(elf, sections));
      assert |outfile| == |old(outfile)| + (8 + |code|);
      PadShift(|old(outfile)|, 8 + |code|);
      hide PadLength;
      var pad := (|outfile| + 1) % IMAGE_PADDING;
      if pad > 0 {
        pad := IMAGE_PADDING - pad;
      }
      outfile := outfile + Zeros(pad);
      outfile := outfile + [chksum];
      assert outfile == old(outfile) + (head + (code + Tail(8 + |code|, chksum)));
      return true;
    }

    /**
     `n` bytes are the image proper.  `emptyAlloc` says whether an allocation of no bytes succeeds; one of a
     negative number, taken as unsigned, does not.
     */
    method CreateBinFile(bootver: nat, mode: Uint8, clock: Uint8, size: Uint8, iromchksum: bool, sections: seq<string>,
                         emptyAlloc: bool)
      returns (ok: bool, ghost n: nat)
      requires outfile == [] && chksum == CHECKSUM_INIT
      modifies this
      ensures ok <==> AllFound(elf, sections) && (bootver in {1, 2} ==> Lookup(elf, IROM).Some?) &&
                      (bootver == 1 ==> SpacerFits(Chosen(elf, sections), emptyAlloc))
      ensures ok ==> n <= |outfile| && n % IMAGE_PADDING == 0 && (bootver != 1 ==> n == |outfile|)
      ensures ok && |sections| <= 255 ==>
        var p := Program(mode, Byte3(size, clock), elf.entry, Chosen(elf, sections));
        if bootver == 2
        then LoadRom(outfile, iromchksum) == AcceptedRom(Padded(Lookup(elf, IROM).value, true, IMAGE_PADDING), p)
        else Load(outfile[..n], CHECKSUM_INIT) == Accepted(p)
      ensures ok && bootver == 1 ==>
        n <= LIBRARY && outfile == outfile[..n] + Ones(LIBRARY - n) + Lookup(elf, IROM).value.data
    {
      hide Lookup, AllFound, Chosen, AllSized, Padded, Encode, SumAll, Sum, Header, Image, Load, LoadRom, ImageLength;
      n := 0;
      var byte3 := Byte3(size, clock);
      if bootver == 2 {
        outfile := outfile + Header(BIN_MAGIC_IROM, 4, mode, byte3, elf.entry);
        ok := WriteElfSection(IROM, true, true, IMAGE_PADDING, iromchksum);
        if !ok {
          return false, n;
        }
        PaddedAligned(Lookup(elf, IROM).value, true, IMAGE_PADDING);
      }
      ghost var before, acc := outfile, chksum;
      ok := WriteImage(mode, byte3, sections);
      if !ok {
        return false, n;
      }
      n := |outfile|;
      ghost var image, p := outfile, Program(mode, byte3, elf.entry, Chosen(elf, sections));
      assert outfile[..n] == outfile;
      if bootver == 2 {
        RomDone(outfile, before, Padded(Lookup(elf, IROM).value, true, IMAGE_PADDING), p, acc, iromchksum);
      } else {
        StandardDone(outfile, p);
        if bootver == 1 {
          ok := AppendLibrary(emptyAlloc, n);
          assert ok ==> outfile[..n] == image;
        }
      }
    }

    /** The part of a boot 1 image after the checksum: the library at its fixed place. */
    method AppendLibrary(emptyAlloc: bool, ghost n: nat) returns (ok: bool)
      requires n == |outfile|
      modifies this
      ensures ok <==> (n < LIBRARY || (n == LIBRARY && emptyAlloc)) && Lookup(elf, IROM).Some?
      ensures ok ==> outfile == old(outfile) + Ones(LIBRARY - n) + Lookup(elf, IROM).value.data
      ensures ok ==> |outfile| >= 0x1_0000 && outfile[0x1_0000..] == Lookup(elf, IROM).value.data
      ensures ok ==> forall i :: n <= i < 0x1_0000 ==> outfile[i] == 0xff
    {
      hide Lookup;
      var len := LIBRARY - |outfile|;
      if len < 0 || (len == 0 && !emptyAlloc) {
        return false;
      }
      outfile := outfile + Ones(len);
      ok := WriteElfSection(IROM, false, false, 0, false);
      if ok {
        UnpaddedIsData(Lookup(elf, IROM).value);
      }
    }
  }
}
