/**
 The bit-banged I2C master.

 Every transaction is a trace of line changes made by the master and of levels it
 read.  A decoder that knows nothing of the code, only sections 3.1.3 (data validity),
 3.1.4 (START and STOP) and 3.1.6 (acknowledge) of UM10204, reads the trace.
 */
module Twi {
  import opened Machine
  import opened Wrappers

  /** A register write that drives or releases a line, or a data bit read from SDA. */
  datatype Event = Scl(level: bool) | Sda(level: bool) | Sample(level: bool)

  // ---------------------------------------------------------------- the decoder

  datatype Symbol = Start | Stop | Bit(value: bool)

  /** Line levels, the bit on the line since SCL rose, and the symbols seen before it. */
  datatype Decoder = Decoder(scl: bool, sda: bool, pending: Option<bool>, symbols: seq<Symbol>) {
    /** All symbols, the one whose clock pulse still lasts included. */
    function Seen(): seq<Symbol> {
      symbols + if pending.Some? then [Bit(pending.value)] else []
    }

    predicate Idle() {
      scl && sda && pending.None?
    }

    /**
     SDA changing while SCL is high is a START or a STOP and no data bit; a bit is valid
     while SCL is high, with the level on the bus when someone samples it.
     */
    function Next(e: Event): Decoder {
      match e
      case Scl(level) =>
        if level && !scl then this.(scl := true, pending := Some(sda))
        else if !level && scl then this.(scl := false, pending := None, symbols := Seen())
        else this
      case Sda(level) =>
        if scl && level != sda
        then this.(sda := level, pending := None, symbols := symbols + [if level then Stop else Start])
        else this.(sda := level)
      case Sample(level) =>
        if scl && pending.Some? then this.(pending := Some(level)) else this
    }
  }

  /** A byte on the bus and the acknowledge bit after it. */
  datatype Transfer = Transfer(value: Uint8, nack: bool)

  function Symbols(ts: seq<Transfer>): seq<Symbol> {
    if ts == [] then []
    else Symbols(ts[..|ts| - 1]) + ByteBits(ts[|ts| - 1].value) + [Bit(ts[|ts| - 1].nack)]
  }

  lemma OneSymbol(base: seq<Symbol>, t: Transfer)
    ensures base + Symbols([t]) == base + ByteBits(t.value) + [Bit(t.nack)]
  {
    hide ByteBits;
    assert [t][..0] == [];
    assert Symbols([]) == [];
  }

  lemma {:induction false} SymbolsGrow(base: seq<Symbol>, ts: seq<Transfer>, t: Transfer)
    ensures base + Symbols(ts + [t]) == base + Symbols(ts) + ByteBits(t.value) + [Bit(t.nack)]
  {
    hide ByteBits;
    assert (ts + [t])[..|ts + [t]| - 1] == ts;
  }

  function Ending(sendStop: bool): seq<Symbol> {
    if sendStop then [Stop] else []
  }

  function Pulses(k: nat): seq<Symbol> {
    if k == 0 then [] else Pulses(k - 1) + [Bit(true)]
  }

  /** The byte that addresses a slave: seven bits of address, and the direction in the lowest. */
  predicate Addresses(t: Uint8, address: Uint8, read: bool) {
    t / 2 == address % 0x80 && t % 2 == if read then 1 else 0
  }

  lemma AddressBytes(address: Uint8)
    ensures Addresses((address * 2 + 1) % 0x100, address, true)
    ensures Addresses(address * 2 % 0x100, address, false)
  {
  }

  /** Received bytes: acknowledged by the master, all but the last of `len`. */
  function Received(buf: seq<Uint8>, len: nat): seq<Transfer> {
    seq(|buf|, i requires 0 <= i < |buf| => Transfer(buf[i], i == len - 1))
  }

  /**
   How many bytes a read of `len` bytes clocks: the loop counts up to len - 1 in 32 unsigned bits, and one
   follows it.
   */
  function Clocked(len: nat): nat {
    (len - 1) % 0x1_0000_0000 + 1
  }

  /** As many as were asked for, if and only if that was at least one; for none it is 2^32. */
  lemma ClockedExactIff(len: nat)
    requires len < 0x1_0000_0000
    ensures Clocked(len) == len <==> len >= 1
    ensures Clocked(0) == 0x1_0000_0000
  {
  }

  lemma ReceivedGrows(base: seq<Symbol>, ts: seq<Transfer>, buf: seq<Uint8>, b: Uint8, len: nat)
    ensures base + Symbols(ts + Received(buf + [b], len)) ==
            base + Symbols(ts + Received(buf, len)) + ByteBits(b) + [Bit(|buf| == len - 1)]
  {
    var t := Transfer(b, |buf| == len - 1);
    assert ts + Received(buf + [b], len) == ts + Received(buf, len) + [t];
    hide Symbols, Received, ByteBits;
    SymbolsGrow(base, ts + Received(buf, len), t);
  }

  predicate AllAcked(ts: seq<Transfer>) {
    forall i :: 0 <= i < |ts| ==> !ts[i].nack
  }

  /** The bytes are the address with the write bit and then a first part of the buffer. */
  predicate Sent(address: Uint8, buf: seq<Uint8>, ts: seq<Transfer>) {
    && 0 < |ts| <= |buf| + 1
    && Addresses(ts[0].value, address, false)
    && forall i :: 1 <= i < |ts| ==> ts[i].value == buf[i - 1]
  }

  /** What the codes 0, 2 and 3 say: all acknowledged, or just the last byte sent was not. */
  predicate WriteResult(code: nat, address: Uint8, buf: seq<Uint8>, ts: seq<Transfer>) {
    && Sent(address, buf, ts)
    && AllAcked(ts[..|ts| - 1])
    && ts[|ts| - 1].nack == (code != 0)
    && (code == 0 ==> |ts| == |buf| + 1)
    && (code == 2 <==> ts[0].nack)
    && code in {0, 2, 3}
  }

  /** The next byte of the buffer, acknowledged or not. */
  lemma SentGrows(address: Uint8, buf: seq<Uint8>, ts: seq<Transfer>, nack: bool)
    requires Sent(address, buf, ts) && AllAcked(ts) && |ts| <= |buf|
    ensures var ts' := ts + [Transfer(buf[|ts| - 1], nack)];
            Sent(address, buf, ts') && if nack then WriteResult(3, address, buf, ts') else AllAcked(ts')
  {
    assert (ts + [Transfer(buf[|ts| - 1], nack)])[..|ts|] == ts;
  }

  /** The address alone, acknowledged or not. */
  lemma AddressSent(address: Uint8, buf: seq<Uint8>, sla: Uint8)
    requires sla == address * 2 % 0x100
    ensures var ts := [Transfer(sla, false)]; AllAcked(ts) && Sent(address, buf, ts)
    ensures WriteResult(2, address, buf, [Transfer(sla, true)])
  {
    AddressBytes(address);
  }

  lemma AllSent(address: Uint8, buf: seq<Uint8>, ts: seq<Transfer>)
    requires Sent(address, buf, ts) && AllAcked(ts) && |ts| == |buf| + 1
    ensures WriteResult(0, address, buf, ts)
  {
  }

  /** An idle bus: both lines released. */
  const IDLE: Decoder := Decoder(true, true, None, [])

  function Decode(trace: seq<Event>): Decoder {
    if trace == [] then IDLE else Decode(trace[..|trace| - 1]).Next(trace[|trace| - 1])
  }

  // ---------------------------------------------------------------- bytes

  /** The bits of a byte, most significant first. */
  function BitsOf(b: nat, n: nat): seq<Symbol> {
    if n == 0 then [] else BitsOf(b / 2, n - 1) + [Bit(b % 2 == 1)]
  }

  function ByteBits(b: Uint8): seq<Symbol> {
    BitsOf(b, 8)
  }

  /** `b << k` without truncation */
  function Shifted(b: nat, k: nat): nat {
    if k == 0 then b else 2 * Shifted(b, k - 1)
  }

  lemma ShiftedByEight(b: nat)
    ensures Shifted(b, 8) == 256 * b
  {
    assert Shifted(b, 1) == 2 * b;
    assert Shifted(b, 2) == 4 * b;
    assert Shifted(b, 3) == 8 * b;
    assert Shifted(b, 4) == 16 * b;
    assert Shifted(b, 6) == 64 * b;
  }

  lemma ShiftedByNone(b: nat)
    ensures Shifted(b, 0) == b
  {
  }

  /** Shifting a byte to the left, its top bit going to the bits shifted out. */
  lemma NextShift(b: nat, k: nat, hi: nat, lo: Uint8)
    requires hi * 0x100 + lo == Shifted(b, k)
    ensures (2 * hi + if lo >= 0x80 then 1 else 0) * 0x100 + lo * 2 % 0x100 == Shifted(b, k + 1)
  {
  }

  lemma ShiftBelow(k: nat)
    requires k < 8
    ensures Shifted(1, k) <= 128
  {
    assert Shifted(1, 1) == 2 && Shifted(1, 3) == 8 && Shifted(1, 5) == 32 && Shifted(1, 7) == 128;
  }

  /** Shifting a bit in at the bottom, as `(byte << 1) | bit` does. */
  lemma ShiftIn(byte: Uint8, k: nat, bit: bool)
    requires k < 8 && byte < Shifted(1, k)
    ensures (byte * 2) % 0x100 + (if bit then 1 else 0) ==
        2 * byte + (if bit then 1 else 0) < Shifted(1, k + 1) <= 0x100
    ensures BitsOf(2 * byte + (if bit then 1 else 0), k + 1) == BitsOf(byte, k) + [Bit(bit)]
  {
    ShiftBelow(k);
    OneMoreBit(byte, k, bit);
  }

  lemma BitsOfNone()
    ensures forall b {:trigger BitsOf(b, 0)} :: BitsOf(b, 0) == []
  {
  }

  lemma OneMoreBit(hi: nat, n: nat, bit: bool)
    ensures BitsOf(2 * hi + (if bit then 1 else 0), n + 1) == BitsOf(hi, n) + [Bit(bit)]
  {
  }

  // ---------------------------------------------------------------- a receiver

  /** The number that bits, most significant first, stand for. */
  function ValueOf(bits: seq<Symbol>): nat {
    if bits == [] then 0
    else 2 * ValueOf(bits[..|bits| - 1]) + if bits[|bits| - 1] == Bit(true) then 1 else 0
  }

  /** A receiver takes nine bits at a time: a byte and its acknowledge. */
  function Parse(symbols: seq<Symbol>): seq<Transfer>
    decreases |symbols|
  {
    var n := |symbols|;
    if n < 9 then [] else
      Parse(symbols[..n - 9]) + [Transfer(ValueOf(symbols[n - 9..n - 1]) % 0x100, symbols[n - 1] == Bit(true))]
  }

  lemma {:induction false} ValueOfBits(b: nat, n: nat)
    requires b < Shifted(1, n)
    ensures |BitsOf(b, n)| == n && ValueOf(BitsOf(b, n)) == b
    ensures forall s :: s in BitsOf(b, n) ==> s.Bit?
  {
    if n > 0 {
      ValueOfBits(b / 2, n - 1);
      assert BitsOf(b, n)[..n - 1] == BitsOf(b / 2, n - 1);
    }
  }

  lemma ParseStep(all: seq<Symbol>, before: seq<Symbol>, bits: seq<Symbol>, t: Transfer)
    requires |bits| == 8 && ValueOf(bits) == t.value && all == before + bits + [Bit(t.nack)]
    ensures Parse(all) == Parse(before) + [t]
  {
    assert all[..|all| - 9] == before && all[|all| - 9..|all| - 1] == bits;
  }

  lemma ByteRecovers(b: Uint8)
    ensures |ByteBits(b)| == 8 && ValueOf(ByteBits(b)) == b
    ensures forall s :: s in ByteBits(b) ==> s.Bit?
  {
    ShiftedByEight(1);
    ValueOfBits(b, 8);
  }

  /** What the master put between START and STOP is recovered by a receiver. */
  lemma {:induction false} ParseRecovers(ts: seq<Transfer>)
    ensures Parse(Symbols(ts)) == ts
  {
    if ts != [] {
      var before, t := ts[..|ts| - 1], ts[|ts| - 1];
      ParseRecovers(before);
      ByteRecovers(t.value);
      ParseStep(Symbols(ts), Symbols(before), ByteBits(t.value), t);
      assert ts == before + [t];
    }
  }

  /** It holds no other START or STOP: SDA never changes inside a byte while SCL is high. */
  lemma {:induction false} NoConditionInside(ts: seq<Transfer>)
    ensures forall s :: s in Symbols(ts) ==> s.Bit?
  {
    if ts != [] {
      NoConditionInside(ts[..|ts| - 1]);
      ByteRecovers(ts[|ts| - 1].value);
    }
  }

  class Master {
    var trace: seq<Event>
    ghost var dec: Decoder   // Decode(trace)
    var sdaReads: nat
    const bus: nat -> bool   // what successive reads of SDA return
    const clock: nat -> bool // what successive reads of SCL return
    var clockReads: nat
    var stretchLimit: nat

    ghost predicate Valid()
      reads this
    {
      dec == Decode(trace)
    }

    ghost predicate Ready()
      reads this
    {
      Valid() && dec.scl
    }

    ghost function Seen(): seq<Symbol>
      reads this
    {
      dec.Seen()
    }

    constructor (bus: nat -> bool, clock: nat -> bool, stretchLimit: nat)
      ensures Ready() && dec == IDLE && trace == [] && sdaReads == 0
    {
      trace, dec, sdaReads, clockReads := [], IDLE, 0, 0;
      this.bus, this.clock, this.stretchLimit := bus, clock, stretchLimit;
    }

    method Drive(e: Event)
      requires Valid()
      modifies `trace, `dec
      ensures Valid() && trace == old(trace) + [e] && dec == old(dec).Next(e)
    {
      trace := trace + [e];
      dec := dec.Next(e);
      assert trace[..|trace| - 1] == old(trace);
    }

    method ReadSda() returns (level: bool)
      modifies `sdaReads
      ensures level == bus(old(sdaReads)) && sdaReads == old(sdaReads) + 1
    {
      level := bus(sdaReads);
      sdaReads := sdaReads + 1;
    }

    /** Clock stretching: wait for SCL to rise, but not beyond the limit. */
    method AwaitClock()
      modifies `clockReads
    {
      var i := 0;
      var high := clock(clockReads);
      clockReads := clockReads + 1;
      while !high && i < stretchLimit {
        i := i + 1;
        high := clock(clockReads);
        clockReads := clockReads + 1;
      }
    }

    method WriteStart() returns (ok: bool)
      requires Ready() && dec.sda
      modifies `trace, `dec, `sdaReads
      ensures ok == bus(old(sdaReads)) && sdaReads == old(sdaReads) + 1
      ensures Valid() && dec == if ok then Decoder(true, false, None, old(dec).symbols + [Start]) else old(dec)
    {
      Drive(Scl(true));
      Drive(Sda(true));
      ok := ReadSda();
      if !ok {
        return;
      }
      Drive(Sda(false));
    }

    method WriteStop()
      requires Ready()
      modifies `trace, `dec, `clockReads
      ensures Ready() && dec == Decoder(true, true, None, old(Seen()) + [Stop])
    {
      Drive(Scl(false));
      Drive(Sda(false));
      Drive(Scl(true));
      AwaitClock();
      Drive(Sda(true));
    }

    method WriteBit(bit: bool)
      requires Ready()
      modifies `trace, `dec, `clockReads
      ensures Ready() && dec.sda == bit && Seen() == old(Seen()) + [Bit(bit)]
    {
      Drive(Scl(false));
      Drive(Sda(bit));
      Drive(Scl(true));
      AwaitClock();
    }

    method ReadBit() returns (bit: bool)
      requires Ready()
      modifies `trace, `dec, `sdaReads, `clockReads
      ensures bit == bus(old(sdaReads)) && sdaReads == old(sdaReads) + 1
      ensures Ready() && dec.sda && Seen() == old(Seen()) + [Bit(bit)]
    {
      Drive(Scl(false));
      Drive(Sda(true));
      Drive(Scl(true));
      AwaitClock();
      bit := ReadSda();
      Drive(Sample(bit));
    }

    method WriteByte(byte0: Uint8) returns (acked: bool)
      requires Ready()
      modifies `trace, `dec, `sdaReads, `clockReads
      ensures Ready() && dec.sda && acked == !bus(old(sdaReads)) && sdaReads == old(sdaReads) + 1
      ensures Seen() == old(Seen()) + ByteBits(byte0) + [Bit(!acked)]
    {
      hide Decode, BitsOf, Shifted;
      BitsOfNone();
      ShiftedByNone(byte0);
      var byte: Uint8, bit := byte0, 0;
      ghost var hi: nat := 0;  // the bits shifted out
      ShiftedByEight(byte0);
      while bit < 8
        invariant bit <= 8
        invariant Ready() && sdaReads == old(sdaReads)
        invariant Seen() == old(Seen()) + BitsOf(hi, bit)
        invariant hi * 0x100 + byte == Shifted(byte0, bit)
      {
        OneMoreBit(hi, bit, byte >= 0x80);
        NextShift(byte0, bit, hi, byte);
        hi := 2 * hi + if byte >= 0x80 then 1 else 0;
        WriteBit(byte >= 0x80);
        byte := byte * 2 % 0x100;
        bit := bit + 1;
      }
      var level := ReadBit();
      acked := !level;
    }

    method ReadByte(nack: bool) returns (byte: Uint8)
      requires Ready()
      modifies `trace, `dec, `sdaReads, `clockReads
      ensures Ready() && dec.sda == nack && sdaReads == old(sdaReads) + 8
      ensures Seen() == old(Seen()) + ByteBits(byte) + [Bit(nack)]
    {
      hide Decode, BitsOf, Shifted;
      BitsOfNone();
      ShiftedByNone(1);
      byte := 0;
      var bit := 0;
      ShiftedByEight(1);
      while bit < 8
        invariant bit <= 8 && byte < Shifted(1, bit)
        invariant Ready() && sdaReads == old(sdaReads) + bit
        invariant Seen() == old(Seen()) + BitsOf(byte, bit)
      {
        var level := ReadBit();
        ShiftIn(byte, bit, level);
        byte := (byte * 2) % 0x100 + if level then 1 else 0;
        bit := bit + 1;
      }
      WriteBit(nack);
    }

    /** k pulses, from read number `first` of SDA on: as long as it reads low, and at most ten. */
    ghost predicate Released(first: nat, k: nat) {
      k <= 10 && (forall i :: first <= i < first + k ==> !bus(i)) && (k < 10 ==> bus(first + k))
    }

    /** The pulses sent while SDA reads low after a transaction, at most ten. */
    method Recover() returns (ghost k: nat)
      requires Ready() && dec.sda
      modifies `trace, `dec, `sdaReads
      ensures Ready() && dec.sda && (k == 0 ==> dec == old(dec))
      ensures Seen() == old(Seen()) + Pulses(k) && Released(old(sdaReads), k)
    {
      hide Decode;
      k := 0;
      var i := 0;
      var level := ReadSda();
      while !level && i < 10
        invariant 0 <= i == k <= 10 && sdaReads == old(sdaReads) + k + 1 && level == bus(old(sdaReads) + k)
        invariant Ready() && dec.sda && Seen() == old(Seen()) + Pulses(k) && (k == 0 ==> dec == old(dec))
        invariant forall i :: old(sdaReads) <= i < old(sdaReads) + k ==> !bus(i)
      {
        i := i + 1;
        Drive(Scl(false));
        Drive(Scl(true));
        k := k + 1;
        level := ReadSda();
      }
    }

    /** The end of a transaction. */
    method Finish(recover: bool, sendStop: bool) returns (ghost k: nat)
      requires Ready() && dec.sda
      modifies `trace, `dec, `sdaReads, `clockReads
      ensures Ready() && Seen() == old(Seen()) + Ending(sendStop) + Pulses(k)
      ensures if recover then Released(old(sdaReads), k) else k == 0
      ensures sendStop && k == 0 ==> dec.Idle()
    {
      k := 0;
      if sendStop {
        WriteStop();
      }
      ghost var s := old(Seen()) + Ending(sendStop);
      assert Seen() == s;
      assert s + Pulses(0) == s;
      if recover {
        k := Recover();
      }
    }

    /** The acknowledge bits of `ts` are what SDA read, from read number `first` on. */
    ghost predicate Acked(ts: seq<Transfer>, first: nat) {
      forall i :: 0 <= i < |ts| ==> ts[i].nack == bus(first + i)
    }

    /** Since `base` was seen just the bytes `ts` were sent, each acknowledged as the bus read. */
    ghost predicate Wrote(base: seq<Symbol>, ts: seq<Transfer>, first: nat)
      reads this
    {
      && Ready() && dec.sda
      && Seen() == base + Symbols(ts)
      && sdaReads == first + |ts|
      && Acked(ts, first)
    }

    method SendByte(byte: Uint8, ghost base: seq<Symbol>, ghost ts0: seq<Transfer>, ghost first: nat)
      returns (acked: bool, ghost ts: seq<Transfer>)
      requires Ready() && (ts0 == [] || dec.sda)
      requires Seen() == base + Symbols(ts0) && sdaReads == first + |ts0|
      requires Acked(ts0, first)
      modifies `trace, `dec, `sdaReads, `clockReads
      ensures ts == ts0 + [Transfer(byte, !acked)] && Wrote(base, ts, first)
    {
      hide Decode, Symbols, ByteBits;
      acked := WriteByte(byte);
      ts := ts0 + [Transfer(byte, !acked)];
      SymbolsGrow(base, ts0, Transfer(byte, !acked));
    }

    /** The loop of twi_writeTo over the data bytes. */
    method SendData(address: Uint8, buf: seq<Uint8>, ghost base: seq<Symbol>, ghost ts0: seq<Transfer>,
                    ghost first: nat)
      returns (code: nat, ghost ts: seq<Transfer>)
      requires Wrote(base, ts0, first) && |ts0| == 1 && AllAcked(ts0) && Sent(address, buf, ts0)
      modifies `trace, `dec, `sdaReads, `clockReads
      ensures Wrote(base, ts, first) && WriteResult(code, address, buf, ts) && code in {0, 3}
    {
      ts := ts0;
      var i := 0;
      hide Symbols, AllAcked, Sent, WriteResult;
      while i < |buf|
        invariant 0 <= i <= |buf| && |ts| == i + 1
        invariant Wrote(base, ts, first) && AllAcked(ts) && Sent(address, buf, ts)
      {
        SentGrows(address, buf, ts, true);
        SentGrows(address, buf, ts, false);
        var acked;
        acked, ts := SendByte(buf[i], base, ts, first);
        if !acked {
          return 3, ts;
        }
        i := i + 1;
      }
      code := 0;
      AllSent(address, buf, ts);
    }

    /** twi_writeTo.  `ts` are the bytes put on the bus, k the recovery pulses after them. */
    method WriteTo(address: Uint8, buf: seq<Uint8>, sendStop: bool)
      returns (code: nat, ghost ts: seq<Transfer>, ghost k: nat)
      requires Valid() && dec.Idle()
      modifies `trace, `dec, `sdaReads, `clockReads
      ensures code == 4 <==> !bus(old(sdaReads))
      ensures Valid() && (code == 4 ==> dec == old(dec))
      ensures code != 4 ==> Seen() == old(Seen()) + [Start] + Symbols(ts) + Ending(sendStop) + Pulses(k)
      ensures code != 4 ==> WriteResult(code, address, buf, ts)
      ensures if code == 0 then Released(old(sdaReads) + 1 + |ts|, k) else k == 0
      ensures code != 4 ==> Acked(ts, old(sdaReads) + 1)
      ensures sendStop && k == 0 ==> dec.Idle()
    {
      ts, k := [], 0;
      var ok := WriteStart();
      if !ok {
        return 4, ts, k;
      }
      assert Seen() == old(Seen()) + [Start];
      hide Symbols, WriteResult, Acked, Released, Pulses, Ending;
      code, ts, k := WriteAfterStart(address, buf, sendStop);
    }

    /** twi_writeTo after the START condition. */
    method WriteAfterStart(address: Uint8, buf: seq<Uint8>, sendStop: bool)
      returns (code: nat, ghost ts: seq<Transfer>, ghost k: nat)
      requires Ready()
      modifies `trace, `dec, `sdaReads, `clockReads
      ensures Valid() && Seen() == old(Seen()) + Symbols(ts) + Ending(sendStop) + Pulses(k)
      ensures code in {0, 2, 3} && WriteResult(code, address, buf, ts) && Acked(ts, old(sdaReads))
      ensures if code == 0 then Released(old(sdaReads) + |ts|, k) else k == 0
      ensures sendStop && k == 0 ==> dec.Idle()
    {
      ghost var base, first := Seen(), sdaReads;
      var sla := address * 2 % 0x100;
      AddressSent(address, buf, sla);
      var acked := AddressSlave(sla);
      ts := [Transfer(sla, !acked)];
      assert Wrote(base, ts, first);
      hide Symbols, WriteResult, AllAcked, Sent, Acked, Released, Pulses, Ending;
      if acked {
        code, ts := SendData(address, buf, base, ts, first);
      } else {
        code := 2;
      }
      k := Finish(code == 0, sendStop);
    }

    /** twi_readFrom */
    method ReadFrom(address: Uint8, len: nat, sendStop: bool)
      returns (code: nat, buf: seq<Uint8>, ghost first: Uint8, ghost k: nat)
      requires Valid() && dec.Idle() && len < 0x1_0000_0000
      modifies `trace, `dec, `sdaReads, `clockReads
      ensures code == 4 <==> !bus(old(sdaReads))
      ensures Valid() && (code == 4 ==> dec == old(dec))
      ensures Addresses(first, address, true)
      ensures code != 4 ==> code == if bus(old(sdaReads) + 1) then 2 else 0
      ensures if code == 0 then Released(old(sdaReads) + 2 + 8 * |buf|, k) else k == 0
      ensures code == 2 ==>
                Seen() == old(Seen()) + [Start] + Symbols([Transfer(first, true)]) + Ending(sendStop)
      ensures code == 0 ==> |buf| == Clocked(len)
      ensures code == 0 ==>
                Seen() == old(Seen()) + [Start] + Symbols([Transfer(first, false)] + Received(buf, Clocked(len)))
                          + Ending(sendStop) + Pulses(k)
      ensures sendStop && k == 0 ==> dec.Idle()
    {
      var sla := (address * 2 + 1) % 0x100;
      AddressBytes(address);
      buf, first, k := [], sla, 0;
      var ok := WriteStart();
      if !ok {
        return 4, buf, first, k;
      }
      assert Seen() == old(Seen()) + [Start];
      hide Symbols, Received, Released, Pulses, Ending, Addresses;
      code, buf, k := ReadAfterStart(sla, len, sendStop);
    }

    /** twi_readFrom after the START condition. */
    method ReadAfterStart(sla: Uint8, len: nat, sendStop: bool) returns (code: nat, buf: seq<Uint8>, ghost k: nat)
      requires Ready() && len < 0x1_0000_0000
      modifies `trace, `dec, `sdaReads, `clockReads
      ensures Valid() && code == (if bus(old(sdaReads)) then 2 else 0)
      ensures if code == 0 then Released(old(sdaReads) + 1 + 8 * |buf|, k) else k == 0
      ensures code == 2 ==> Seen() == old(Seen()) + Symbols([Transfer(sla, true)]) + Ending(sendStop)
      ensures code == 0 ==> |buf| == Clocked(len)
      ensures code == 0 ==>
                Seen() == old(Seen()) + Symbols([Transfer(sla, false)] + Received(buf, Clocked(len)))
                          + Ending(sendStop) + Pulses(k)
      ensures sendStop && k == 0 ==> dec.Idle()
    {
      ghost var base := Seen();
      buf := [];
      var acked := AddressSlave(sla);
      if acked {
        code := 0;
        buf := ReceiveData(len, base, [Transfer(sla, false)]);
      } else {
        code := 2;
      }
      k := Finish(code == 0, sendStop);
    }

    /** The address byte and its acknowledge bit. */
    method AddressSlave(sla: Uint8) returns (acked: bool)
      requires Ready()
      modifies `trace, `dec, `sdaReads, `clockReads
      ensures Ready() && dec.sda && acked == !bus(old(sdaReads)) && sdaReads == old(sdaReads) + 1
      ensures Seen() == old(Seen()) + Symbols([Transfer(sla, !acked)])
    {
      hide Symbols, ByteBits;
      acked := WriteByte(sla);
      OneSymbol(old(Seen()), Transfer(sla, !acked));
    }

    /** The loop of twi_readFrom and the last byte after it. */
    method ReceiveData(len: nat, ghost base: seq<Symbol>, ghost ts: seq<Transfer>) returns (buf: seq<Uint8>)
      requires len < 0x1_0000_0000 && Ready() && Seen() == base + Symbols(ts)
      modifies `trace, `dec, `sdaReads, `clockReads
      ensures Ready() && dec.sda && |buf| == Clocked(len) && sdaReads == old(sdaReads) + 8 * |buf|
      ensures Seen() == base + Symbols(ts + Received(buf, Clocked(len)))
    {
      buf := [];
      var i, last := 0, (len - 1) % 0x1_0000_0000;
      assert ts + Received([], Clocked(len)) == ts;
      hide Symbols, ByteBits, Received, Decode;
      while i < last
        invariant 0 <= i <= last && |buf| == i && sdaReads == old(sdaReads) + 8 * i
        invariant Ready() && Seen() == base + Symbols(ts + Received(buf, Clocked(len)))
      {
        var b := ReadByte(false);
        ReceivedGrows(base, ts, buf, b, Clocked(len));
        buf := buf + [b];
        i := i + 1;
      }
      var b := ReadByte(true);
      ReceivedGrows(base, ts, buf, b, Clocked(len));
      buf := buf + [b];
    }
  }
}
