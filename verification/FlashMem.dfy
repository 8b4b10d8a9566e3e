/**
 Byte-addressed access to SPI flash over primitives that only move whole aligned words.

 Programming NOR flash can only clear bits, so a programmed byte is the old byte
 AND the new one.  A primitive may fail at any call; a failing one may already have
 moved some of its bytes.
 */
module FlashMem {
  import opened Arith
  import opened Bits

  const UNIT: nat := 4
  const FLASH_BUFFERS: nat := 32

  /** A number of whole units, or the address of one. */
  predicate Units(n: int) {
    n % UNIT == 0
  }

  /** A first part, p bytes, of `from` was programmed at address `a`, and nothing else changed. */
  ghost predicate Wrote(start: seq<Byte>, cells: seq<Byte>, a: nat, from: seq<Byte>, p: nat) {
    && |cells| == |start|
    && p <= |from|
    && forall j :: 0 <= j < |cells| ==> cells[j] == if a <= j < a + p then And(start[j], from[j - a]) else start[j]
  }

  /** What the device makes of it. */
  function Programmed(cells: seq<Byte>, from: seq<Byte>, a: nat, p: nat): (now: seq<Byte>)
    requires p <= |from| && (p > 0 ==> a + p <= |cells|)
    ensures |now| == |cells| && Wrote(cells, now, a, from, p)
  {
    seq(|cells|, j requires 0 <= j < |cells| => if a <= j < a + p then And(cells[j], from[j - a]) else cells[j])
  }

  lemma SliceOfSlice(s: seq<Byte>, t: seq<Byte>, x: nat, r: nat, n: nat)
    requires x + |t| <= |s| && t == s[x..x + |t|] && r + n <= |t|
    ensures t[r..r + n] == s[x + r..x + r + n]
  {
    assert forall k :: 0 <= k < |t| ==> t[k] == s[x..x + |t|][k] == s[x + k];
    forall k {:trigger t[r..r + n][k]} | 0 <= k < n
      ensures t[r..r + n][k] == s[x + r..x + r + n][k]
    {
      assert t[r + k] == s[x + (r + k)];
    }
  }

  lemma AndSame(b: Byte)
    ensures And(b, b) == b
  {
  }

  lemma WroteMore(start: seq<Byte>, mid: seq<Byte>, cells: seq<Byte>, a: nat, from: seq<Byte>, p: nat,
                  part: seq<Byte>, k: nat)
    requires Wrote(start, mid, a, from, p) && p + |part| <= |from| && part == from[p..p + |part|]
    requires Wrote(mid, cells, a + p, part, k)
    ensures Wrote(start, cells, a, from, p + k)
  {
  }

  lemma WroteSize(start: seq<Byte>, cells: seq<Byte>, a: nat, from: seq<Byte>, p: nat)
    requires Wrote(start, cells, a, from, p)
    ensures |cells| == |start| && p <= |from|
  {
  }

  lemma WrotePart(start: seq<Byte>, cells: seq<Byte>, a: nat, from: seq<Byte>, n: nat, p: nat)
    requires n <= |from| && Wrote(start, cells, a, from[..n], p)
    ensures Wrote(start, cells, a, from, p)
  {
  }

  /** How many bytes of `data` at `a` the first k bytes of a unit at `base` cover. */
  function Covered(base: nat, k: nat, a: nat, n: nat): nat {
    if base + k <= a then 0 else Min(base + k - a, n)
  }

  /** A unit that holds `data` where it overlaps it and the present contents elsewhere. */
  ghost predicate Overlays(unit: seq<Byte>, base: nat, cells: seq<Byte>, a: nat, data: seq<Byte>) {
    && base + |unit| <= |cells|
    && base <= a
    && a + |data| <= base + |unit|
    && forall j :: 0 <= j < |unit| ==>
         unit[j] == if a <= base + j < a + |data| then data[base + j - a] else cells[base + j]
  }

  /** Programming any first part of such a unit programs just the covered part of `data`. */
  lemma OverlayWrites(unit: seq<Byte>, base: nat, k: nat, start: seq<Byte>, cells: seq<Byte>, a: nat, data: seq<Byte>)
    requires Overlays(unit, base, start, a, data) && Wrote(start, cells, base, unit, k)
    ensures Wrote(start, cells, a, data, Covered(base, k, a, |data|))
  {
    forall j | 0 <= j < |cells|
      ensures cells[j] == if a <= j < a + Covered(base, k, a, |data|) then And(start[j], data[j - a]) else start[j]
    {
      AndSame(start[j]);
      if base <= j < base + k {
        assert unit[j - base] == if a <= j < a + |data| then data[j - a] else start[j];
      }
    }
  }

  ghost predicate Erased(cells: seq<Byte>, a: nat, n: nat) {
    a + n <= |cells| && forall j :: a <= j < a + n ==> cells[j] == Not(Octet(0))
  }

  /** On erased flash a programmed range holds the data. */
  lemma ErasedHoldsData(start: seq<Byte>, cells: seq<Byte>, a: nat, data: seq<Byte>)
    requires Erased(start, a, |data|) && Wrote(start, cells, a, data, |data|)
    ensures cells[a..a + |data|] == data
  {
    forall j | 0 <= j < |data|
      ensures cells[a + j] == data[j]
    {
      assert forall k {:trigger Not(Octet(0))[k]} :: 0 <= k < 8 ==> Not(Octet(0))[k];
      assert And(start[a + j], data[j]) == data[j];
    }
  }

  /** The bytes before the first unit boundary, and those after the last one. */
  function HeadLen(a: nat, n: nat): nat {
    if a % UNIT == 0 then 0 else Min(UNIT - a % UNIT, n)
  }

  function TailLen(a: nat, n: nat): nat {
    (n - HeadLen(a, n)) % UNIT
  }

  /** The byte count returned when completed primitives have moved `done` of n bytes at a. */
  function Reported(a: nat, n: nat, ok: bool, done: nat): nat {
    if ok then n else if done < HeadLen(a, n) then 0 else done + TailLen(a, n)
  }

  /** Places lo to hi of the buffer hold the flash contents from `a` + lo on; the others are as before. */
  ghost predicate Got(was: seq<Byte>, now: seq<Byte>, cells: seq<Byte>, a: nat, lo: nat, hi: nat) {
    && |now| == |was|
    && lo <= hi <= |now|
    && (lo < hi ==> a + hi <= |cells|)
    && forall j :: 0 <= j < |now| ==> now[j] == if lo <= j < hi then cells[a + j] else was[j]
  }

  lemma GotNothing(now: seq<Byte>, cells: seq<Byte>, a: nat, lo: nat)
    requires lo <= |now|
    ensures Got(now, now, cells, a, lo, lo)
  {
  }

  lemma GotMore(was: seq<Byte>, mid: seq<Byte>, now: seq<Byte>, cells: seq<Byte>, a: nat, lo: nat, m: nat, hi: nat)
    requires Got(was, mid, cells, a, lo, m) && Got(mid, now, cells, a, m, hi)
    ensures Got(was, now, cells, a, lo, hi)
  {
  }

  /** How a primitive ends: done, or failed after moving `progress` bytes. */
  datatype Outcome = Done | Failed(progress: nat)

  // ---------------------------------------------------------------- which primitives fail

  /** The next k primitives from call c on all succeed. */
  predicate AllDone(outcome: nat -> Outcome, c: nat, k: nat) {
    forall i :: c <= i < c + k ==> outcome(i).Done?
  }

  /** What the block loop completes of n bytes, from call c on. */
  function BlocksDone(outcome: nat -> Outcome, c: nat, n: nat): (d: nat)
    ensures d <= n
    decreases n
  {
    if n == 0 || !outcome(c).Done? then 0
    else
      var count := Min(n, FLASH_BUFFERS * UNIT);
      count + BlocksDone(outcome, c + 1, n - count)
  }

  /** A block is whole units, and so is what is left of n after it. */
  lemma BlockSize(a: nat, n: nat)
    requires Units(a) && Units(n)
    ensures var count := Min(n, FLASH_BUFFERS * UNIT);
            0 <= count <= n && Units(count) && Units(n - count) && Units(a + count)
  {
  }

  lemma BlocksNone(outcome: nat -> Outcome, c: nat)
    ensures BlocksDone(outcome, c, 0) == BlockCalls(0) == 0
  {
  }

  /** One round of the loop, if its primitive succeeds. */
  lemma BlocksStep(outcome: nat -> Outcome, c: nat, n: nat)
    requires n > 0
    ensures var count := Min(n, FLASH_BUFFERS * UNIT);
            && (outcome(c).Done? ==> BlocksDone(outcome, c, n) == count + BlocksDone(outcome, c + 1, n - count))
            && (!outcome(c).Done? ==> BlocksDone(outcome, c, n) == 0)
            && BlockCalls(n) == 1 + BlockCalls(n - count)
  {
  }

  function BlockCalls(n: nat): (k: nat)
    decreases n
  {
    if n == 0 then 0 else 1 + BlockCalls(n - Min(n, FLASH_BUFFERS * UNIT))
  }

  /** Whether everything succeeds, and how many bytes completed primitives have moved. */
  datatype Tally = Tally(ok: bool, done: nat)

  /** The part after the head, from call c on: blocks and tail; a part of a unit takes k primitives. */
  function AlignedAccount(outcome: nat -> Outcome, c: nat, head: nat, n: nat, k: nat): (t: Tally)
    requires head <= n
  {
    var mid := n - head - (n - head) % UNIT;
    var blocks := BlocksDone(outcome, c, mid);
    if blocks < mid then Tally(false, head + blocks)
    else TailAccount(outcome, c + BlockCalls(mid), head + mid, n, k)
  }

  /** The last whole unit ends at mid, and what follows is less than a unit. */
  lemma AlignedEnds(a: nat, head: nat, n: nat)
    requires head <= n && (a + head) % UNIT == 0
    ensures var mid := n - (n - head) % UNIT;
            head <= mid <= n < mid + UNIT && (mid - head) % UNIT == 0 && (a + mid) % UNIT == 0
  {
  }

  lemma AlignedNothing(outcome: nat -> Outcome, c: nat, n: nat, k: nat)
    ensures AlignedAccount(outcome, c, n, n, k) == Tally(true, n)
  {
  }

  function TailAccount(outcome: nat -> Outcome, c: nat, mid: nat, n: nat, k: nat): (t: Tally) {
    if mid < n && !AllDone(outcome, c, k) then Tally(false, mid) else Tally(true, n)
  }

  /**
   Access to n bytes at `a` inside the device, from call c on: at once if `direct`, else the head, the
   blocks and the tail; a part of a unit takes one primitive to read it, or two to overlay it.
   */
  function Account(outcome: nat -> Outcome, c: nat, a: nat, n: nat, direct: bool, k: nat): (t: Tally) {
    var head := HeadLen(a, n);
    if direct && a % UNIT == 0 && n % UNIT == 0 then Tally(outcome(c).Done?, if outcome(c).Done? then n else 0)
    else if a % UNIT == 0 then AlignedAccount(outcome, c, 0, n, k)
    else if !AllDone(outcome, c, k) then Tally(false, 0)
    else AlignedAccount(outcome, c + k, head, n, k)
  }

  /** Whatever fails, the returned count is the number of bytes that completed primitives have moved. */
  ghost predicate CountExact(a: nat, n: nat, direct: bool, k: nat) {
    forall outcome: nat -> Outcome, c: nat ::
      Reported(a, n, Account(outcome, c, a, n, direct, k).ok, Account(outcome, c, a, n, direct, k).done)
        == Account(outcome, c, a, n, direct, k).done
  }

  /** The primitive numbered c fails at once, and no other. */
  function OnlyFails(c: nat): nat -> Outcome {
    i => if i == c then Failed(0) else Done
  }

  /** The primitive after the head fails: the tail is counted although nothing after the head was moved. */
  lemma TailCounted(a: nat, n: nat, direct: bool, k: nat)
    requires TailLen(a, n) > 0 && k > 0
    ensures
      var t := Account(OnlyFails(if a % UNIT == 0 then 0 else k), 0, a, n, direct, k);
      !t.ok && t.done == HeadLen(a, n) && Reported(a, n, t.ok, t.done) == t.done + TailLen(a, n)
  {
    var c := if a % UNIT == 0 then 0 else k;
    assert AllDone(OnlyFails(c), 0, c);
    assert !OnlyFails(c)(c).Done?;
    FailsAfterHead(OnlyFails(c), c, HeadLen(a, n), n, k);
  }

  lemma FailsAfterHead(outcome: nat -> Outcome, c: nat, head: nat, n: nat, k: nat)
    requires head <= n && !outcome(c).Done? && k > 0 && (n - head) % UNIT > 0
    ensures AlignedAccount(outcome, c, head, n, k) == Tally(false, head)
  {
    assert !AllDone(outcome, c, k);
  }

  lemma DoneWithinHead(outcome: nat -> Outcome, c: nat, a: nat, n: nat, direct: bool, k: nat)
    requires TailLen(a, n) == 0
    ensures var t := Account(outcome, c, a, n, direct, k);
            Reported(a, n, t.ok, t.done) == t.done
  {
  }

  /**
   The count is exact for every pattern of failures if and only if the range ends on a unit boundary or in its
   first unit.
   */
  lemma CountExactIff(a: nat, n: nat, direct: bool, k: nat)
    requires k > 0
    ensures CountExact(a, n, direct, k) <==> TailLen(a, n) == 0
  {
    if TailLen(a, n) > 0 {
      TailCounted(a, n, direct, k);
    } else {
      forall outcome: nat -> Outcome, c: nat
        ensures Reported(a, n, Account(outcome, c, a, n, direct, k).ok, Account(outcome, c, a, n, direct, k).done)
                  == Account(outcome, c, a, n, direct, k).done
      {
        DoneWithinHead(outcome, c, a, n, direct, k);
      }
    }
  }

  /** Five bytes to an aligned address while the first primitive fails: nothing was written, 1 is returned. */
  lemma CountExample()
    ensures TailLen(0, 5) == 1 && Account(OnlyFails(0), 0, 0, 5, false, 2) == Tally(false, 0)
    ensures Reported(0, 5, false, 0) == 1
  {
    TailCounted(0, 5, false, 2);
  }

  /** The copying loop over the temporary buffer. */
  method CopyOver(tmpdata: array<Byte>, at: nat, data: seq<Byte>)
    requires at + |data| <= tmpdata.Length
    modifies tmpdata
    ensures forall j :: 0 <= j < tmpdata.Length ==>
              tmpdata[j] == if at <= j < at + |data| then data[j - at] else old(tmpdata[j])
  {
    var i := 0;
    while i < |data|
      invariant i <= |data|
      invariant forall j :: 0 <= j < tmpdata.Length ==>
                  tmpdata[j] == if at <= j < at + i then data[j - at] else old(tmpdata[j])
    {
      tmpdata[at + i] := data[i];
      i := i + 1;
    }
  }

  class Flash {
    var cells: seq<Byte>
    var calls: nat
    const outcome: nat -> Outcome

    ghost predicate Valid()
      reads this
    {
      |cells| % UNIT == 0
    }

    constructor (cells: seq<Byte>, outcome: nat -> Outcome)
      requires |cells| % UNIT == 0
      ensures Valid() && this.cells == cells && calls == 0 && this.outcome == outcome
    {
      this.cells := cells;
      this.calls := 0;
      this.outcome := outcome;
    }

    /** How many of n bytes at `addr` the next primitive moves; none outside the device. */
    function Progress(addr: nat, n: nat): (k: nat)
      reads this
      ensures k <= n && (k > 0 ==> addr + k <= |cells|)
    {
      if addr + n > |cells| then 0 else if outcome(calls).Done? then n else Min(outcome(calls).progress, n)
    }

    predicate Works(addr: nat, n: nat)
      reads this
    {
      addr + n <= |cells| && outcome(calls).Done?
    }

    /** No primitive failed since the call numbered `since`. */
    ghost predicate NoneFailed(since: nat)
      reads this
    {
      forall i :: since <= i < calls ==> outcome(i).Done?
    }

    method WriteInternal(from: seq<Byte>, toaddr: nat) returns (written: nat)
      requires Valid() && Units(toaddr) && Units(|from|)
      modifies this
      ensures Valid() && calls == old(calls) + 1
      ensures Wrote(old(cells), cells, toaddr, from, old(Progress(toaddr, |from|)))
      ensures written == if old(Works(toaddr, |from|)) then |from| else 0
    {
      hide Units, Wrote, Programmed;
      var k := Progress(toaddr, |from|);
      written := if Works(toaddr, |from|) then |from| else 0;
      cells := Programmed(cells, from, toaddr, k);
      calls := calls + 1;
    }

    /** `data` is what reached the destination buffer. */
    method ReadInternal(fromaddr: nat, n: nat) returns (read: nat, data: seq<Byte>)
      requires Valid() && Units(fromaddr) && Units(n)
      modifies `calls
      ensures calls == old(calls) + 1
      ensures |data| == old(Progress(fromaddr, n)) && (data == [] || data == cells[fromaddr..fromaddr + |data|])
      ensures read == if old(Works(fromaddr, n)) then n else 0
    {
      var k := Progress(fromaddr, n);
      read := if Works(fromaddr, n) then n else 0;
      data := if k == 0 then [] else cells[fromaddr..fromaddr + k];
      calls := calls + 1;
    }

    /** Read a unit, lay the data over it and write it back: the first and the last part of a write. */
    method OverlayUnit(data: seq<Byte>, addr: nat) returns (ok: bool, ghost p: nat)
      requires Valid() && addr % UNIT + |data| <= UNIT
      modifies this
      ensures Valid() && old(calls) < calls && |cells| == |old(cells)|
      ensures Wrote(old(cells), cells, addr, data, p)
      ensures ok ==> p == |data| && NoneFailed(old(calls)) && addr - addr % UNIT + UNIT <= |cells|
      ensures addr - addr % UNIT + UNIT <= |cells| && NoneFailed(old(calls)) ==> ok
      ensures addr - addr % UNIT + UNIT <= |cells| ==> ok == AllDone(outcome, old(calls), 2)
      ensures ok ==> calls == old(calls) + 2
    {
      var base := addr - addr % UNIT;
      var read, unit := ReadInternal(base, UNIT);
      if read != UNIT {
        return false, 0;
      }
      var tmpdata := new Byte[UNIT](i requires 0 <= i < UNIT => unit[i]);
      CopyOver(tmpdata, addr % UNIT, data);
      ghost var k, before := Progress(base, UNIT), cells;
      assert Overlays(tmpdata[..], base, before, addr, data);
      hide Wrote, Overlays;
      p := Covered(base, k, addr, |data|);
      var written := WriteInternal(tmpdata[..], base);
      OverlayWrites(tmpdata[..], base, k, before, cells, addr, data);
      ok := written == UNIT;
    }

    /** Whole units through the temporary buffer; `done` counts the bytes of completed primitives. */
    method WriteBlocks(from: seq<Byte>, addr: nat) returns (done: nat, ghost p: nat)
      requires Valid() && Units(addr) && Units(|from|)
      modifies this
      ensures Valid() && old(calls) <= calls && |cells| == |old(cells)|
      ensures done <= p && Wrote(old(cells), cells, addr, from, p)
      ensures done == |from| ==> NoneFailed(old(calls))
      ensures addr + |from| <= |cells| && NoneFailed(old(calls)) ==> done == |from|
      ensures addr + |from| <= |cells| ==> done == BlocksDone(outcome, old(calls), |from|)
      ensures addr + |from| <= |cells| && done == |from| ==> calls == old(calls) + BlockCalls(|from|)
    {
      ghost var start, since := cells, calls;
      done, p := 0, 0;
      assert Wrote(start, cells, addr, from, 0);
      hide Wrote, BlocksDone, BlockCalls, Units;
      while done < |from|
        invariant Valid() && since <= calls && |cells| == |start|
        invariant done == p <= |from| && Units(|from| - done) && Units(addr + done)
        invariant Wrote(start, cells, addr, from, done)
        invariant NoneFailed(since)
        invariant addr + |from| <= |cells| ==>
          && done + BlocksDone(outcome, calls, |from| - done) == BlocksDone(outcome, since, |from|)
          && calls + BlockCalls(|from| - done) == since + BlockCalls(|from|)
      {
        BlocksStep(outcome, calls, |from| - done);
        BlockSize(addr + done, |from| - done);
        var count: nat := Min(|from| - done, FLASH_BUFFERS * UNIT);
        var written;
        written, p := WriteBlock(from, start, addr, done, count);
        if written != count {
          return;
        }
        done := done + count;
      }
      BlocksNone(outcome, calls);
    }

    /** One round of that loop. */
    method WriteBlock(from: seq<Byte>, ghost start: seq<Byte>, addr: nat, done: nat, count: nat)
      returns (written: nat, ghost p: nat)
      requires Valid() && Units(addr + done) && Units(count) && done + count <= |from|
      requires Wrote(start, cells, addr, from, done)
      modifies this
      ensures Valid() && calls == old(calls) + 1 && |cells| == |old(cells)|
      ensures written == (if old(Works(addr + done, count)) then count else 0)
      ensures done <= p && Wrote(start, cells, addr, from, p) && (written == count ==> p == done + count)
    {
      hide Wrote, Units;
      var tmpdata := from[done..done + count];
      ghost var k, mid := Progress(addr + done, count), cells;
      written := WriteInternal(tmpdata, addr + done);
      WroteMore(start, mid, cells, addr, from, done, tmpdata, k);
      WroteSize(mid, cells, addr + done, tmpdata, k);
      p := done + k;
    }

    /**
     flashmem_write.  `p` bytes are programmed, `done` of them by completed primitives.
     */
    method Write(from: seq<Byte>, fromAligned: bool, toaddr: nat)
      returns (r: nat, ghost ok: bool, ghost done: nat, ghost p: nat)
      requires Valid()
      modifies this
      ensures Valid() && old(calls) <= calls
      // nothing outside the range changes, and inside it just a first part, by old AND new
      ensures Wrote(old(cells), cells, toaddr, from, p)
      // without a failure everything is programmed
      ensures ok ==> p == done == |from|
      ensures ok ==> NoneFailed(old(calls))
      ensures toaddr + |from| <= |cells| && NoneFailed(old(calls)) ==> ok
      // which primitives succeed decides how far it comes
      ensures toaddr + |from| <= |cells| ==>
          Tally(ok, done) == Account(outcome, old(calls), toaddr, |from|, fromAligned, 2)
      // the returned count: a failure past the head is reported with the tail counted in
      ensures done <= p && (done < HeadLen(toaddr, |from|) ==> done == 0)
      ensures r == Reported(toaddr, |from|, ok, done)
      ensures r == done <==> ok || done < HeadLen(toaddr, |from|) || TailLen(toaddr, |from|) == 0
    {
      ghost var start := cells;
      var size := |from|;
      if fromAligned && toaddr % UNIT == 0 && size % UNIT == 0 {
        p := Progress(toaddr, size);
        ok := Works(toaddr, size);
        r := WriteInternal(from, toaddr);
        done := r;
        return;
      }
      var head := 0;
      if toaddr % UNIT != 0 {
        head := HeadLen(toaddr, size);
        var unitOk;
        unitOk, p := OverlayUnit(from[..head], toaddr);
        WrotePart(start, cells, toaddr, from, head, p);
        ok, done := unitOk, if unitOk then head else 0;
        if !unitOk || head == size {
          return if unitOk then size else 0, ok, done, p;
        }
      }
      r, ok, done, p := WriteAligned(from, start, toaddr, head, old(calls));
    }

    /** The part of flashmem_write after the start is aligned. */
    method WriteAligned(from: seq<Byte>, ghost start: seq<Byte>, toaddr: nat, head: nat, ghost since: nat)
      returns (r: nat, ghost ok: bool, ghost done: nat, ghost p: nat)
      requires Valid() && |start| == |cells| && head <= |from| && (toaddr + head) % UNIT == 0
      requires since <= calls && NoneFailed(since)
      requires Wrote(start, cells, toaddr, from, head)
      modifies this
      ensures Valid() && since <= calls && |cells| == |start|
      ensures head <= done <= p && Wrote(start, cells, toaddr, from, p)
      ensures ok ==> p == done == |from| && NoneFailed(since)
      ensures toaddr + |from| <= |cells| && NoneFailed(since) ==> ok
      ensures toaddr + |from| <= |cells| ==> Tally(ok, done) == AlignedAccount(outcome, old(calls), head, |from|, 2)
      ensures r == if ok then |from| else done + (|from| - head) % UNIT
    {
      var size := |from|;
      var rest := (size - head) % UNIT;
      var addr, mid := toaddr + head, size - rest;
      var blocks := from[head..mid];
      var n;
      ghost var before := cells;
      n, p := WriteBlocks(blocks, addr);
      WroteMore(start, before, cells, toaddr, from, head, blocks, p);
      done, p := head + n, head + p;
      if n < |blocks| {
        ok := false;
        return size - (|blocks| - n), ok, done, p;
      }
      r, ok, done, p := WriteTail(from, start, toaddr, mid, since);
    }

    /** The final part of a unit, if there is one. */
    method WriteTail(from: seq<Byte>, ghost start: seq<Byte>, toaddr: nat, mid: nat, ghost since: nat)
      returns (r: nat, ghost ok: bool, ghost done: nat, ghost p: nat)
      requires Valid() && |start| == |cells| && mid <= |from| < mid + UNIT && (toaddr + mid) % UNIT == 0
      requires since <= calls && NoneFailed(since)
      requires Wrote(start, cells, toaddr, from, mid)
      modifies this
      ensures Valid() && since <= calls && |cells| == |start|
      ensures mid <= done <= p && Wrote(start, cells, toaddr, from, p)
      ensures ok ==> p == done == |from| && NoneFailed(since)
      ensures toaddr + |from| <= |cells| && NoneFailed(since) ==> ok
      ensures toaddr + |from| <= |cells| ==> Tally(ok, done) == TailAccount(outcome, old(calls), mid, |from|, 2)
      ensures r == |from| && (!ok ==> done == mid)
    {
      hide Wrote;
      r, ok, done, p := |from|, true, mid, mid;
      if mid < |from| {
        ghost var before, k := cells, 0;
        ok, k := OverlayUnit(from[mid..|from|], toaddr + mid);
        WroteMore(start, before, cells, toaddr, from, mid, from[mid..|from|], k);
        p := mid + k;
        done := if ok then |from| else mid;
      }
    }

    /** Places lo to hi of `to`, whose bytes lie in one unit. */
    method ReadUnit(to: array<Byte>, fromaddr: nat, lo: nat, hi: nat) returns (ok: bool)
      requires Valid() && lo <= hi <= to.Length && (fromaddr + lo) % UNIT + (hi - lo) <= UNIT
      modifies `calls, to
      ensures calls == old(calls) + 1
      ensures ok ==> outcome(old(calls)).Done? && fromaddr + hi <= |cells|
      ensures fromaddr + hi <= |cells| && (lo < hi || (fromaddr + lo) % UNIT != 0) ==> ok == outcome(old(calls)).Done?
      ensures Got(old(to[..]), to[..], cells, fromaddr, lo, if ok then hi else lo)
    {
      hide Got, Units;
      GotNothing(to[..], cells, fromaddr, lo);
      var addr := fromaddr + lo;
      var rest := addr % UNIT;
      UnitInside(addr, rest, hi - lo);
      var read, tmpdata := ReadInternal(addr - rest, UNIT);
      ok := read == UNIT;
      if ok {
        var part := tmpdata[rest..rest + (hi - lo)];
        SliceOfSlice(cells, tmpdata, addr - rest, rest, hi - lo);
        CopyOut(to, fromaddr, lo, part);
      }
    }

    /** Bytes of the flash copied to their place in `to`. */
    method CopyOut(to: array<Byte>, ghost a: nat, lo: nat, data: seq<Byte>)
      requires lo + |data| <= to.Length && a + lo + |data| <= |cells| && data == cells[a + lo..a + lo + |data|]
      modifies to
      ensures Got(old(to[..]), to[..], cells, a, lo, lo + |data|)
    {
      CopyOver(to, lo, data);
      assert forall k :: 0 <= k < |data| ==> data[k] == cells[a + lo + k];
    }

    /** Since the device has whole units, a unit that begins inside it lies inside it. */
    lemma UnitInside(addr: nat, rest: nat, n: nat)
      requires Valid() && rest == addr % UNIT
      ensures Units(addr - rest)
      ensures (n > 0 || rest > 0) && addr + n <= |cells| ==> addr - rest + UNIT <= |cells|
    {
    }

    /** Whole units through the temporary buffer. */
    method ReadBlocks(to: array<Byte>, head: nat, fromaddr: nat, mid: nat) returns (done: nat)
      requires Valid() && head <= mid <= to.Length && Units(fromaddr + head) && Units(mid - head)
      modifies `calls, to
      ensures old(calls) <= calls && head <= done <= mid && Got(old(to[..]), to[..], cells, fromaddr, head, done)
      ensures done == mid ==> NoneFailed(old(calls))
      ensures fromaddr + mid <= |cells| && NoneFailed(old(calls)) ==> done == mid
      ensures fromaddr + mid <= |cells| ==> done - head == BlocksDone(outcome, old(calls), mid - head)
      ensures fromaddr + mid <= |cells| && done == mid ==> calls == old(calls) + BlockCalls(mid - head)
    {
      ghost var since := calls;
      done := head;
      assert Got(old(to[..]), to[..], cells, fromaddr, head, head);
      hide Got, BlocksDone, BlockCalls, Units;
      while done < mid
        invariant since <= calls && head <= done <= mid && Units(mid - done) && Units(fromaddr + done)
        invariant Got(old(to[..]), to[..], cells, fromaddr, head, done)
        invariant NoneFailed(since)
        invariant fromaddr + mid <= |cells| ==>
          && done - head + BlocksDone(outcome, calls, mid - done) == BlocksDone(outcome, since, mid - head)
          && calls + BlockCalls(mid - done) == since + BlockCalls(mid - head)
      {
        BlocksStep(outcome, calls, mid - done);
        BlockSize(fromaddr + done, mid - done);
        var count: nat := Min(mid - done, FLASH_BUFFERS * UNIT);
        ghost var before := to[..];
        var ok := ReadBlock(to, fromaddr, done, count);
        if !ok {
          GotMore(old(to[..]), before, to[..], cells, fromaddr, head, done, done);
          return;
        }
        GotMore(old(to[..]), before, to[..], cells, fromaddr, head, done, done + count);
        done := done + count;
      }
      BlocksNone(outcome, calls);
    }

    /** One round of that loop. */
    method ReadBlock(to: array<Byte>, fromaddr: nat, done: nat, count: nat) returns (ok: bool)
      requires Valid() && done + count <= to.Length && Units(fromaddr + done) && Units(count) && count > 0
      modifies `calls, to
      ensures calls == old(calls) + 1 && ok == old(Works(fromaddr + done, count))
      ensures Got(old(to[..]), to[..], cells, fromaddr, done, if ok then done + count else done)
    {
      var read, tmpdata := ReadInternal(fromaddr + done, count);
      ok := read == count;
      if ok {
        CopyOut(to, fromaddr, done, tmpdata);
      }
    }

    /** flashmem_read.  `p` bytes reach the caller's buffer, `done` of them by completed primitives. */
    method Read(to: array<Byte>, toAligned: bool, fromaddr: nat, size: nat)
      returns (r: nat, ghost ok: bool, ghost done: nat, ghost p: nat)
      requires Valid() && size <= to.Length
      modifies `calls, to
      ensures old(calls) <= calls
      ensures Got(old(to[..]), to[..], cells, fromaddr, 0, p) && done <= p <= size
      ensures ok ==> done == size && NoneFailed(old(calls))
      ensures fromaddr + size <= |cells| && NoneFailed(old(calls)) ==> ok
      // which primitives succeed decides how far it comes
      ensures fromaddr + size <= |cells| ==>
          Tally(ok, done) == Account(outcome, old(calls), fromaddr, size, toAligned, 1)
      ensures done < HeadLen(fromaddr, size) ==> done == 0
      ensures r == Reported(fromaddr, size, ok, done)
      ensures r == done <==> ok || done < HeadLen(fromaddr, size) || TailLen(fromaddr, size) == 0
    {
      if toAligned && fromaddr % UNIT == 0 && size % UNIT == 0 {
        ok := Works(fromaddr, size);
        var data;
        r, data := ReadInternal(fromaddr, size);
        if data != [] {
          CopyOut(to, fromaddr, 0, data);
        }
        done, p := r, |data|;
        return;
      }
      hide Got, AlignedAccount;
      var head := HeadLen(fromaddr, size);
      GotNothing(to[..], cells, fromaddr, 0);
      ghost var start := to[..];
      if fromaddr % UNIT != 0 {
        var headOk := ReadUnit(to, fromaddr, 0, head);
        ok, done := headOk, if headOk then head else 0;
        p := done;
        if !headOk {
          return 0, ok, done, p;
        }
        if head == size {
          AlignedNothing(outcome, calls, size, 1);
          return size, ok, done, p;
        }
      }
      r, ok, done := ReadAligned(to, start, fromaddr, head, size, old(calls));
      p := done;
    }

    /** The part of flashmem_read after the start is aligned. */
    method ReadAligned(to: array<Byte>, ghost start: seq<Byte>, fromaddr: nat, head: nat, size: nat, ghost since: nat)
      returns (r: nat, ghost ok: bool, ghost done: nat)
      requires Valid() && head <= size <= to.Length && (fromaddr + head) % UNIT == 0
      requires since <= calls && NoneFailed(since) && Got(start, to[..], cells, fromaddr, 0, head)
      modifies `calls, to
      ensures since <= calls && head <= done <= size && Got(start, to[..], cells, fromaddr, 0, done)
      ensures ok ==> done == size && NoneFailed(since)
      ensures fromaddr + size <= |cells| && NoneFailed(since) ==> ok
      ensures fromaddr + size <= |cells| ==> Tally(ok, done) == AlignedAccount(outcome, old(calls), head, size, 1)
      ensures r == if ok then size else done + (size - head) % UNIT
    {
      hide Got, BlocksDone, BlockCalls;
      var rest := (size - head) % UNIT;
      var mid := size - rest;
      AlignedEnds(fromaddr, head, size);
      ghost var before := to[..];
      var n := ReadBlocks(to, head, fromaddr, mid);
      GotMore(start, before, to[..], cells, fromaddr, 0, head, n);
      done := n;
      if n < mid {
        ok := false;
        return size - (mid - n), ok, done;
      }
      ok := true;
      if rest != 0 {
        before := to[..];
        var tailOk := ReadUnit(to, fromaddr, mid, size);
        GotMore(start, before, to[..], cells, fromaddr, 0, mid, if tailOk then size else mid);
        ok, done := tailOk, if tailOk then size else mid;
      }
      r := size;
    }

    /** Written to erased flash and read back without a failure, the data is the same, whatever the alignments. */
    method WriteThenRead(from: seq<Byte>, fromAligned: bool, addr: nat, to: array<Byte>, toAligned: bool)
      requires Valid() && |from| <= to.Length && Erased(cells, addr, |from|)
      modifies this, to
      ensures NoneFailed(old(calls)) ==> to[..|from|] == from
    {
      ghost var start := cells;
      var w, okW, doneW, pW := Write(from, fromAligned, addr);
      var r, okR, doneR, pR := Read(to, toAligned, addr, |from|);
      if okW && okR {
        ErasedHoldsData(start, cells, addr, from);
        assert to[..|from|] == cells[addr..addr + |from|];
      }
    }
  }
}
