/**
 The UART transmit path.

 `uart_write` on the main thread and the transmit part of `handle_uart_interrupt`
 share a ring buffer and the hardware FIFO.  Every read or write of shared state is
 a step of its own on the main thread; the interrupt runs to completion before the
 main thread goes on; the hardware shifts bytes out at any time.
 */
module SerialTx {

  import opened Machine

  /** UART_TXFULL holds from this count on. */
  const TX_LIMIT: nat := 0x7f

  // ---------------------------------------------------------------- SerialBuffer

  datatype Ring = Ring(buf: seq<Uint8>, readPos: nat, writePos: nat) {
    predicate Valid() {
      readPos < |buf| && writePos < |buf|
    }

    function Next(pos: nat): nat {
      if pos + 1 == |buf| then 0 else pos + 1
    }

    predicate IsEmpty() {
      writePos == readPos
    }

    predicate IsFull() {
      Next(writePos) == readPos
    }

    /** available() */
    function Available(): int {
      if writePos - readPos < 0 then writePos - readPos + |buf| else writePos - readPos
    }

    /** getFreeSpace() */
    function FreeSpace(): int {
      if readPos - writePos - 1 < 0 then readPos - writePos - 1 + |buf| else readPos - writePos - 1
    }

    /** The queued bytes, oldest first. */
    function Contents(): seq<Uint8>
      requires Valid()
    {
      if readPos <= writePos then buf[readPos..writePos] else buf[readPos..] + buf[..writePos]
    }

    /** readChar() on a buffer that is not empty. */
    function Read(): (Uint8, Ring)
      requires Valid()
    {
      (buf[readPos], this.(readPos := Next(readPos)))
    }

    /** The two stores of writeChar(): the byte, then the new position. */
    function Put(c: Uint8): Ring
      requires Valid()
    {
      this.(buf := buf[writePos := c])
    }

    function Publish(): Ring {
      this.(writePos := Next(writePos))
    }
  }

  /** The ring is a queue that holds one byte less than its size. */
  lemma RingSizes(r: Ring)
    requires r.Valid()
    ensures r.Available() == |r.Contents()| && r.FreeSpace() == |r.buf| - 1 - |r.Contents()|
    ensures r.IsEmpty() <==> r.Contents() == []
    ensures r.IsFull() <==> |r.Contents()| == |r.buf| - 1
  {
  }

  lemma RingRead(r: Ring)
    requires r.Valid() && !r.IsEmpty()
    ensures r.Read().1.Valid() && r.Contents() == [r.Read().0] + r.Read().1.Contents()
  {
  }

  /** Of writeChar's two stores the first changes nothing and the second appends the byte. */
  lemma RingPut(r: Ring, c: Uint8)
    requires r.Valid()
    ensures r.Put(c).Valid() && r.Put(c).Contents() == r.Contents() && r.Put(c).buf[r.writePos] == c
  {
  }

  lemma RingPublish(r: Ring)
    requires r.Valid() && !r.IsFull()
    ensures r.Publish().Valid() && r.Publish().Contents() == r.Contents() + [r.buf[r.writePos]]
  {
  }

  // ---------------------------------------------------------------- the system

  /** Where the main thread is in `uart_write`. */
  datatype Pc =
    | Idle       // no call in progress
    | Top        // head of the outer loop
    | Direct     // head of the loop that stores into the FIFO
    | Store      // FIFO found not full, the store still to come
    | Buffered   // head of the loop that fills the ring
    | Fill       // ring found not full, the byte still to be stored
    | Publish    // byte stored, position still to be advanced
    | Bottom     // end of the outer loop
    | Enable     // about to enable the interrupt and return

  /** Where the interrupt is: not running, or moving at most `avail` more bytes. */
  datatype Isr = Off | Drain(avail: nat)

  datatype State = State(
    wire: seq<Uint8>, fifo: seq<Uint8>, ring: Ring, hasRing: bool, txWait: bool, uife: bool,
    pc: Pc, data: seq<Uint8>, written: nat, isr: Isr,
    accepted: seq<Uint8>)  // what earlier calls reported as written

  datatype Step = Call(data: seq<Uint8>) | Main | IsrEnter | IsrMove | Shift

  predicate Queued(s: State)
    requires s.ring.Valid()
  {
    s.hasRing && !s.ring.IsEmpty()
  }

  /** One step of `uart_write`. */
  function MainStep(s: State): State
    requires s.ring.Valid() && s.written <= |s.data|
    requires s.pc in {Store, Fill, Publish} ==> s.written < |s.data|
  {
    var more := s.written < |s.data|;
    match s.pc
    case Idle => s
    case Top => s.(pc := if !s.hasRing || s.ring.IsEmpty() then Direct else Buffered)
    case Direct => s.(pc := if more && |s.fifo| < TX_LIMIT then Store else Buffered)
    case Store => s.(fifo := s.fifo + [s.data[s.written]], written := s.written + 1, pc := Direct)
    case Buffered => s.(pc := if s.hasRing && more && !s.ring.IsFull() then Fill else Bottom)
    case Fill => s.(ring := s.ring.Put(s.data[s.written]), pc := Publish)
    case Publish => s.(ring := s.ring.Publish(), written := s.written + 1, pc := Buffered)
    case Bottom => s.(pc := if !more || !s.txWait then Enable else Top)
    case Enable => s.(uife := s.uife || s.written > 0, accepted := s.accepted + s.data[..s.written], pc := Idle)
  }

  /** One round of the loop in `handle_uart_interrupt`, or its end. */
  function IsrStep(s: State): State
    requires s.ring.Valid() && s.isr.Drain?
  {
    if s.isr.avail > 0 && |s.fifo| < TX_LIMIT then
      s.(fifo := s.fifo + [s.ring.Read().0], ring := s.ring.Read().1, isr := Drain(s.isr.avail - 1))
    else
      s.(isr := Off, uife := s.uife && |s.fifo| != 0)
  }

  predicate Enabled(s: State, step: Step)
    requires s.ring.Valid()
  {
    match step
    case Call(d) => s.pc == Idle && s.isr.Off? && |d| > 0
    case Main => s.pc != Idle && s.isr.Off?
    case IsrEnter => s.isr.Off? && s.uife
    case IsrMove => s.isr.Drain?
    case Shift => |s.fifo| > 0
  }

  function Next(s: State, step: Step): State
    requires Inv(s) && Enabled(s, step)
  {
    match step
    case Call(d) => s.(data := d, written := 0, pc := Top)
    case Main => MainStep(s)
    case IsrEnter => if Queued(s) then s.(isr := Drain(s.ring.Available())) else s.(uife := false)
    case IsrMove => IsrStep(s)
    case Shift => s.(wire := s.wire + [s.fifo[0]], fifo := s.fifo[1..])
  }

  predicate Initial(s: State) {
    s.ring.Valid() && s.ring.IsEmpty() && s.wire == s.fifo == s.accepted == s.data == [] && s.written == 0 &&
    s.pc == Idle && s.isr == Off && !s.uife
  }

  /** Everything accepted so far, the call in progress included. */
  function Accepted(s: State): seq<Uint8>
    requires s.written <= |s.data|
  {
    if s.pc == Idle then s.accepted else s.accepted + s.data[..s.written]
  }

  predicate Inv(s: State) {
    && s.ring.Valid()
    && s.written <= |s.data|
    && (s.pc in {Store, Fill, Publish} ==> s.written < |s.data|)
    // no byte is lost, doubled or reordered
    && s.wire + s.fifo + s.ring.Contents() == Accepted(s)
    && (!s.hasRing ==> s.ring.IsEmpty() && s.pc !in {Fill, Publish})
    // the FIFO test and the store are separate steps, but nothing can come between them
    && |s.fifo| <= TX_LIMIT
    && (s.pc in {Direct, Store} ==> s.ring.IsEmpty())
    && (s.pc == Store ==> |s.fifo| < TX_LIMIT)
    // likewise for a free place in the ring
    && (s.pc in {Fill, Publish} ==> !s.ring.IsFull())
    && (s.pc == Publish ==> s.ring.buf[s.ring.writePos] == s.data[s.written])
    // the interrupt empties the ring or fills the FIFO
    && (s.isr.Drain? ==> s.uife && s.hasRing && s.isr.avail == |s.ring.Contents()|)
    // queued bytes never wait for an interrupt that nobody will enable
    && (s.ring.Contents() != [] && !s.uife ==> s.pc != Idle && s.written > 0)
  }

  lemma InitialInv(s: State)
    requires Initial(s)
    ensures Inv(s)
  {
  }

  lemma StoreKeepsInv(s: State)
    requires Inv(s) && s.pc == Store && s.isr.Off?
    ensures Inv(MainStep(s))
  {
    RingSizes(s.ring);
    var c := s.data[s.written];
    assert s.data[..s.written + 1] == s.data[..s.written] + [c];
    assert s.wire + (s.fifo + [c]) + [] == s.wire + s.fifo + [] + [c];
    assert Accepted(MainStep(s)) == Accepted(s) + [c];
  }

  lemma PublishKeepsInv(s: State)
    requires Inv(s) && s.pc == Publish && s.isr.Off?
    ensures Inv(MainStep(s))
  {
    RingPublish(s.ring);
    AcceptedGrows(s.wire + s.fifo, s.ring.Contents(), s.accepted, s.data, s.written);
  }

  lemma AcceptedGrows(out: seq<Uint8>, q: seq<Uint8>, earlier: seq<Uint8>, data: seq<Uint8>, n: nat)
    requires n < |data| && out + q == earlier + data[..n]
    ensures out + (q + [data[n]]) == earlier + data[..n + 1]
  {
    assert out + (q + [data[n]]) == (out + q) + [data[n]];
  }

  lemma MainKeepsInv(s: State)
    requires Inv(s) && s.pc != Idle && s.isr.Off?
    ensures Inv(MainStep(s))
  {
    RingSizes(s.ring);
    match s.pc
    case Store => StoreKeepsInv(s);
    case Publish => PublishKeepsInv(s);
    case Fill => RingPut(s.ring, s.data[s.written]);
    case Enable => hide Ring.Contents;
    case _ => hide Ring.Contents;
  }

  lemma IsrKeepsInv(s: State)
    requires Inv(s) && s.isr.Drain?
    ensures Inv(IsrStep(s))
    ensures s.uife && !IsrStep(s).uife ==> IsrStep(s).fifo == [] && IsrStep(s).ring.Contents() == []
  {
    RingSizes(s.ring);
    if s.isr.avail > 0 && |s.fifo| < TX_LIMIT {
      RingRead(s.ring);
      RingSizes(s.ring.Read().1);
      MovesOn(s.wire, s.fifo, s.ring.Read().0, s.ring.Read().1.Contents());
    }
    hide Ring.Contents;
  }

  lemma MovesOn(wire: seq<Uint8>, fifo: seq<Uint8>, c: Uint8, q: seq<Uint8>)
    ensures wire + (fifo + [c]) + q == wire + fifo + ([c] + q)
  {
  }

  /** Every step keeps the invariant. */
  lemma StepKeepsInv(s: State, step: Step)
    requires Inv(s) && Enabled(s, step)
    ensures Inv(Next(s, step))
  {
    RingSizes(s.ring);
    match step
    case Call(d) => assert d[..0] == [];
    case Main => MainKeepsInv(s);
    case IsrEnter =>
    case IsrMove => IsrKeepsInv(s);
    case Shift => assert s.wire + [s.fifo[0]] + s.fifo[1..] == s.wire + s.fifo;
  }

  // ---------------------------------------------------------------- whole runs

  /** `steps` can be taken one after another from s and lead to t. */
  ghost predicate Run(s: State, steps: seq<Step>, t: State)
    requires Inv(s)
    decreases |steps|
  {
    if steps == [] then s == t
    else Enabled(s, steps[0]) && (StepKeepsInv(s, steps[0]); Run(Next(s, steps[0]), steps[1..], t))
  }

  lemma {:induction false} RunKeepsInv(s: State, steps: seq<Step>, t: State)
    requires Inv(s) && Run(s, steps, t)
    ensures Inv(t)
    decreases |steps|
  {
    if steps != [] {
      StepKeepsInv(s, steps[0]);
      RunKeepsInv(Next(s, steps[0]), steps[1..], t);
    }
  }

  lemma RunHead(s: State, steps: seq<Step>, t: State)
    requires Inv(s) && Run(s, steps, t) && steps != []
    ensures Enabled(s, steps[0]) && Inv(Next(s, steps[0])) && Run(Next(s, steps[0]), steps[1..], t)
  {
    StepKeepsInv(s, steps[0]);
  }

  lemma RunCons(s: State, step: Step, steps: seq<Step>, t: State)
    requires Inv(s) && Enabled(s, step) && Inv(Next(s, step)) && Run(Next(s, step), steps, t)
    ensures Run(s, [step] + steps, t)
  {
    assert ([step] + steps)[1..] == steps;
  }

  /** In every interleaving the line carries the accepted bytes in order, and the FIFO never overflows. */
  lemma TransmittedInOrder(s: State, steps: seq<Step>, t: State)
    requires Initial(s) && Inv(s) && Run(s, steps, t)
    ensures Inv(t)
    ensures t.wire + t.fifo + t.ring.Contents() == Accepted(t)
    ensures t.wire <= Accepted(t)
    ensures |t.fifo| <= TX_LIMIT
    ensures t.pc == Idle && t.ring.Contents() != [] ==> t.uife
  {
    RunKeepsInv(s, steps, t);
    hide Run, Ring.Contents, Initial;
    IsFirstPart(t.wire, t.fifo, t.ring.Contents());
    RingSizes(t.ring);
  }

  lemma IsFirstPart(a: seq<Uint8>, b: seq<Uint8>, c: seq<Uint8>)
    ensures a <= a + b + c
  {
    assert a + b + c == a + (b + c);
  }

  /** Between calls the interrupt and the hardware alone can bring every accepted byte onto the line. */
  lemma {:induction false} EverythingCanDrain(s: State) returns (steps: seq<Step>, t: State)
    requires Inv(s) && s.pc == Idle
    ensures Run(s, steps, t) && t.wire == s.accepted && t.pc == Idle
    decreases 2 * |s.ring.Contents()| + |s.fifo|, if s.isr.Drain? then 1 else if s.ring.Contents() != [] then 2 else 0
  {
    RingSizes(s.ring);
    if |s.fifo| == 0 && s.isr.Off? && s.ring.Contents() == [] {
      assert s.wire + s.fifo + s.ring.Contents() == s.wire;
      return [], s;
    }
    var step := if s.isr.Drain? && (s.isr.avail == 0 || |s.fifo| < TX_LIMIT) then IsrMove
                else if |s.fifo| > 0 then Shift else IsrEnter;
    if step == IsrMove && s.isr.avail > 0 {
      RingRead(s.ring);
    }
    StepKeepsInv(s, step);
    steps, t := EverythingCanDrain(Next(s, step));
    RunCons(s, step, steps, t);
    steps := [step] + steps;
  }

  // ---------------------------------------------------------------- waiting writes

  /**
   A waiting call that filled the ring while the interrupt is disabled: the call
   enables the interrupt only after its loop, and the loop ends only when bytes leave the ring.
   */
  predicate Stalled(s: State) {
    && Inv(s) && s.hasRing && s.txWait && !s.uife && s.isr.Off?
    && s.written < |s.data| && s.ring.IsFull() && !s.ring.IsEmpty()
    && s.pc in {Top, Buffered, Bottom}
  }

  /** Such a call never returns and never accepts another byte. */
  lemma {:induction false} StalledForever(s: State, steps: seq<Step>, t: State)
    requires Stalled(s) && Run(s, steps, t)
    ensures Stalled(t) && Accepted(t) == Accepted(s)
    decreases |steps|
  {
    if steps != [] {
      StepKeepsInv(s, steps[0]);
      StalledForever(Next(s, steps[0]), steps[1..], t);
    }
  }

  ghost predicate NoCalls(steps: seq<Step>) {
    forall i :: 0 <= i < |steps| ==> !steps[i].Call?
  }

  /** Some run of the call that writes d from s stalls. */
  ghost predicate CanStall(s: State, d: seq<Uint8>)
    requires Inv(s) && Enabled(s, Call(d)) && Inv(Next(s, Call(d)))
  {
    exists steps, t :: Run(Next(s, Call(d)), steps, t) && NoCalls(steps) && Stalled(t)
  }

  /**
   Room for the bytes of a waiting call.  With bytes queued at its start the call goes to the ring at once,
   and the FIFO is no room for it.
   */
  function Room(s: State): int
    requires s.ring.Valid()
  {
    if s.ring.IsEmpty() then TX_LIMIT - |s.fifo| + |s.ring.buf| - 1 else |s.ring.buf| - 1
  }

  // A call that stalls was given more than the room.

  /** The bytes of the call that are not in the ring any more, or never were. */
  function Passed(s: State): int
    requires s.ring.Valid()
  {
    s.written - |s.ring.Contents()|
  }

  /** What holds in the loop of a call that began with an empty ring and `f` bytes in the FIFO. */
  predicate FromEmpty(s: State, f: nat)
    requires Inv(s)
  {
    && 0 <= Passed(s)
    && |s.fifo| <= f + Passed(s)
    && (s.ring.Contents() != [] || s.pc in {Buffered, Fill, Publish, Bottom} ==>
          Passed(s) >= TX_LIMIT - f || s.written == |s.data|)
  }

  /** The interrupt is disabled only when the ring is empty, so what is queued then came after. */
  predicate OwnBytes(s: State)
    requires Inv(s)
  {
    !s.uife ==> 0 <= Passed(s)
  }

  predicate Looping(s: State) {
    s.pc !in {Idle, Enable}
  }

  lemma PublishFromEmpty(s: State, f: nat)
    requires Inv(s) && s.pc == Publish && s.isr.Off? && FromEmpty(s, f) && Inv(MainStep(s))
    ensures FromEmpty(MainStep(s), f)
  {
    RingPublish(s.ring);
  }

  lemma FillFromEmpty(s: State, f: nat)
    requires Inv(s) && s.pc == Fill && s.isr.Off? && FromEmpty(s, f) && Inv(MainStep(s))
    ensures FromEmpty(MainStep(s), f)
  {
    RingPut(s.ring, s.data[s.written]);
  }

  lemma MainFromEmpty(s: State, f: nat)
    requires Inv(s) && Looping(s) && s.isr.Off? && s.hasRing && FromEmpty(s, f)
    ensures Inv(MainStep(s)) && (Looping(MainStep(s)) ==> FromEmpty(MainStep(s), f))
  {
    MainKeepsInv(s);
    match s.pc
    case Publish => PublishFromEmpty(s, f);
    case Fill => FillFromEmpty(s, f);
    case _ => RingSizes(s.ring);
  }

  lemma IsrFromEmpty(s: State, f: nat)
    requires Inv(s) && s.isr.Drain? && FromEmpty(s, f)
    ensures Inv(IsrStep(s)) && FromEmpty(IsrStep(s), f)
  {
    IsrKeepsInv(s);
    RingSizes(s.ring);
    if s.isr.avail > 0 && |s.fifo| < TX_LIMIT {
      RingRead(s.ring);
    }
  }

  lemma StepFromEmpty(s: State, step: Step, f: nat)
    requires Inv(s) && Looping(s) && s.hasRing && FromEmpty(s, f) && Enabled(s, step)
    ensures Inv(Next(s, step)) && (Looping(Next(s, step)) ==> FromEmpty(Next(s, step), f))
  {
    StepKeepsInv(s, step);
    match step
    case Main => MainFromEmpty(s, f);
    case IsrMove => IsrFromEmpty(s, f);
    case _ =>
  }

  lemma MainOwnBytes(s: State)
    requires Inv(s) && Looping(s) && s.isr.Off? && OwnBytes(s)
    ensures Inv(MainStep(s)) && OwnBytes(MainStep(s))
  {
    MainKeepsInv(s);
    if s.pc == Publish {
      RingPublish(s.ring);
    } else if s.pc == Fill {
      RingPut(s.ring, s.data[s.written]);
    }
  }

  lemma StepOwnBytes(s: State, step: Step)
    requires Inv(s) && Looping(s) && OwnBytes(s) && Enabled(s, step)
    ensures Inv(Next(s, step)) && OwnBytes(Next(s, step))
  {
    StepKeepsInv(s, step);
    RingSizes(s.ring);
    match step
    case Main => MainOwnBytes(s);
    case IsrMove =>
      if s.isr.avail > 0 && |s.fifo| < TX_LIMIT {
        RingRead(s.ring);
      }
    case _ =>
  }

  /** What no step but a call changes. */
  predicate SameCall(s: State, t: State) {
    s.data == t.data && s.hasRing == t.hasRing && s.txWait == t.txWait && |s.ring.buf| == |t.ring.buf|
  }

  lemma StepSameCall(s: State, step: Step)
    requires Inv(s) && Enabled(s, step) && !step.Call?
    ensures SameCall(s, Next(s, step)) && (!Looping(s) ==> !Looping(Next(s, step)))
  {
    hide Ring.Contents, Accepted;
  }

  lemma {:induction false} RunFromEmpty(s: State, f: nat, steps: seq<Step>, t: State)
    requires Inv(s) && s.hasRing && (Looping(s) ==> FromEmpty(s, f) && OwnBytes(s))
    requires Run(s, steps, t) && NoCalls(steps)
    ensures Inv(t) && SameCall(s, t) && (Looping(t) ==> FromEmpty(t, f) && OwnBytes(t))
    decreases |steps|
  {
    if steps != [] {
      assert !steps[0].Call?;
      StepKeepsInv(s, steps[0]);
      StepSameCall(s, steps[0]);
      if Looping(s) {
        StepFromEmpty(s, steps[0], f);
        StepOwnBytes(s, steps[0]);
      }
      hide FromEmpty, OwnBytes;
      RunFromEmpty(Next(s, steps[0]), f, steps[1..], t);
    }
  }

  lemma {:induction false} RunOwnBytes(s: State, steps: seq<Step>, t: State)
    requires Inv(s) && (Looping(s) ==> OwnBytes(s)) && Run(s, steps, t) && NoCalls(steps)
    ensures Inv(t) && SameCall(s, t) && (Looping(t) ==> OwnBytes(t))
    decreases |steps|
  {
    if steps != [] {
      assert !steps[0].Call?;
      StepKeepsInv(s, steps[0]);
      StepSameCall(s, steps[0]);
      if Looping(s) {
        StepOwnBytes(s, steps[0]);
      }
      hide OwnBytes;
      RunOwnBytes(Next(s, steps[0]), steps[1..], t);
    }
  }

  /** A call stalls only if it is given more bytes than there is room for. */
  lemma StallNeedsMoreThanRoom(s: State, d: seq<Uint8>, steps: seq<Step>, t: State)
    requires Inv(s) && Enabled(s, Call(d)) && Inv(Next(s, Call(d)))
    requires Run(Next(s, Call(d)), steps, t) && NoCalls(steps) && Stalled(t)
    ensures s.hasRing && s.txWait && |s.ring.buf| >= 2 && |d| > Room(s)
  {
    var n := Next(s, Call(d));
    RingSizes(s.ring);
    RunOwnBytes(n, steps, t);
    RingSizes(t.ring);
    if s.ring.IsEmpty() {
      RunFromEmpty(n, |s.fifo|, steps, t);
    }
  }

  // A call that is given more can stall.

  /** A call in its loop with the interrupt disabled: nothing but the main thread changes ring and data. */
  predicate Quiet(s: State) {
    Inv(s) && s.hasRing && s.txWait && !s.uife && s.isr.Off? && Looping(s)
  }

  /** The bytes such a call still finds room for. */
  function Free(s: State): int
    requires s.ring.Valid()
  {
    if s.pc in {Buffered, Fill, Publish} || !s.ring.IsEmpty() then |s.ring.buf| - 1 - |s.ring.Contents()|
    else TX_LIMIT - |s.fifo| + |s.ring.buf| - 1
  }

  function PcRank(s: State): nat
    requires s.ring.Valid()
  {
    match s.pc
    case Top => 8 case Direct => 7 case Store => 6 case Buffered => 5 case Fill => 4 case Publish => 3
    case _ => if s.ring.IsEmpty() then 9 else 10
  }

  lemma QuietMain(s: State)
    requires Quiet(s) && |s.ring.buf| >= 2 && |s.data| - s.written > Free(s) && !Stalled(s)
    ensures Quiet(MainStep(s)) && SameCall(s, MainStep(s))
    ensures |s.data| - MainStep(s).written > Free(MainStep(s))
    ensures MainStep(s).written > s.written || (MainStep(s).written == s.written && PcRank(MainStep(s)) < PcRank(s))
  {
    MainKeepsInv(s);
    RingSizes(s.ring);
    RingSizes(MainStep(s).ring);
    if s.pc == Publish {
      RingPublish(s.ring);
    } else if s.pc == Fill {
      RingPut(s.ring, s.data[s.written]);
    }
  }

  /** Left alone with more data than room, the main thread runs into the stall. */
  lemma {:induction false} RunsIntoStall(s: State) returns (steps: seq<Step>, t: State)
    requires Quiet(s) && |s.ring.buf| >= 2 && |s.data| - s.written > Free(s)
    ensures Run(s, steps, t) && Stalled(t) && NoCalls(steps)
    decreases |s.data| - s.written, PcRank(s)
  {
    if Stalled(s) {
      assert Run(s, [], s);
      return [], s;
    }
    QuietMain(s);
    hide PcRank, Free;
    steps, t := RunsIntoStall(Next(s, Main));
    RunCons(s, Main, steps, t);
    steps := [Main] + steps;
  }

  /** The interrupt and the hardware can empty ring and FIFO and disable the interrupt, wherever the main thread is. */
  lemma {:induction false} DrainsQuietly(s: State) returns (steps: seq<Step>, t: State)
    requires Inv(s) && (s.uife || (s.fifo == [] && s.ring.Contents() == [] && s.isr.Off?))
    ensures Run(s, steps, t) && NoCalls(steps) && SameCall(s, t) && t.pc == s.pc && t.written == s.written
    ensures Inv(t) && t.fifo == [] && t.ring.Contents() == [] && !t.uife && t.isr.Off?
    decreases 2 * |s.ring.Contents()| + |s.fifo|, s.uife, if s.isr.Drain? then 0 else 1
  {
    RingSizes(s.ring);
    if !s.uife {
      assert Run(s, [], s);
      return [], s;
    }
    var step := if |s.fifo| > 0 then Shift else if s.isr.Drain? then IsrMove else IsrEnter;
    if step == IsrMove && s.isr.avail > 0 {
      RingRead(s.ring);
    }
    StepKeepsInv(s, step);
    StepSameCall(s, step);
    steps, t := DrainsQuietly(Next(s, step));
    RunCons(s, step, steps, t);
    steps := [step] + steps;
  }

  lemma {:induction false} RunAppend(s: State, first: seq<Step>, m: State, second: seq<Step>, t: State)
    requires Inv(s) && Run(s, first, m) && Inv(m) && Run(m, second, t)
    ensures Run(s, first + second, t)
    decreases |first|
  {
    HeadOfBoth(first, second);
    if first != [] {
      RunHead(s, first, m);
      hide Next, Inv, Enabled, Run;
      RunAppend(Next(s, first[0]), first[1..], m, second, t);
      RunCons(s, first[0], first[1..] + second, t);
    }
  }

  lemma HeadOfBoth(first: seq<Step>, second: seq<Step>)
    ensures first + second == if first == [] then second else [first[0]] + (first[1..] + second)
  {
  }

  /** The beginning of a call after which the interrupt is disabled and stays so. */
  lemma BecomesQuiet(s: State, d: seq<Uint8>) returns (steps: seq<Step>, t: State)
    requires Inv(s) && Enabled(s, Call(d)) && Inv(Next(s, Call(d))) && s.hasRing && s.txWait && |d| > Room(s)
    ensures Run(Next(s, Call(d)), steps, t) && NoCalls(steps) && SameCall(Next(s, Call(d)), t)
    ensures Quiet(t) && |t.data| - t.written > Free(t)
  {
    var n := Next(s, Call(d));
    RingSizes(s.ring);
    if !s.ring.IsEmpty() {
      StepKeepsInv(n, Main);
      steps, t := DrainsQuietly(Next(n, Main));
      RunCons(n, Main, steps, t);
      steps := [Main] + steps;
    } else if s.uife {
      StepKeepsInv(n, IsrEnter);
      t := Next(n, IsrEnter);
      RunCons(n, IsrEnter, [], t);
      steps := [IsrEnter];
      assert [IsrEnter] + [] == steps;
    } else {
      t := n;
      steps := [];
    }
    RingSizes(t.ring);
  }

  /**
   A write can hang for ever exactly when it waits for a transmit buffer that can hold something and is given
   more bytes than there is room for.
   */
  lemma WaitingWriteHangsIffOverfull(s: State, d: seq<Uint8>)
    requires Inv(s) && Enabled(s, Call(d))
    ensures Inv(Next(s, Call(d)))
    ensures CanStall(s, d) <==> s.hasRing && s.txWait && |s.ring.buf| >= 2 && |d| > Room(s)
  {
    StepKeepsInv(s, Call(d));
    var n := Next(s, Call(d));
    hide Room, Stalled, Free, Quiet;
    if s.hasRing && s.txWait && |s.ring.buf| >= 2 && |d| > Room(s) {
      var first, m := BecomesQuiet(s, d);
      RunKeepsInv(n, first, m);
      var second, t := RunsIntoStall(m);
      RunAppend(n, first, m, second, t);
      assert NoCalls(first + second);
    }
    forall steps, t | Run(n, steps, t) && NoCalls(steps) && Stalled(t)
      ensures s.hasRing && s.txWait && |s.ring.buf| >= 2 && |d| > Room(s)
    {
      StallNeedsMoreThanRoom(s, d, steps, t);
    }
  }

  // ---------------------------------------------------------------- progress

  /** A call in progress that neither the interrupt nor another call interferes with. */
  predicate Alone(s: State) {
    Inv(s) && !s.uife && s.isr.Off? && s.pc != Idle
  }

  /** With an empty FIFO, how many steps it takes to accept another byte or to return. */
  function StepsLeft(s: State): nat
    requires s.ring.Valid()
  {
    var more, empty := s.written < |s.data|, !s.hasRing || s.ring.IsEmpty();
    match s.pc
    case Top => if more then (if empty then 3 else 4) else 5
    case Direct => if more then 2 else 4
    case Buffered => if s.hasRing && more && !s.ring.IsFull() then 3 else if more && s.txWait then 5 else 3
    case Fill => 2
    case Bottom => if more && s.txWait then (if empty then 4 else 5) else 2
    case _ => 1
  }

  lemma AloneMain(s: State)
    requires Alone(s) && s.fifo == [] && !Stalled(s)
    ensures MainStep(s).pc == Idle || Alone(MainStep(s))
    ensures MainStep(s).pc != Idle ==> SameCall(s, MainStep(s)) && MainStep(s).written <= |s.data|
    ensures MainStep(s).pc != Idle ==>
              || MainStep(s).written > s.written
              || (MainStep(s).written == s.written && MainStep(s).fifo == [] && StepsLeft(MainStep(s)) < StepsLeft(s))
  {
    MainKeepsInv(s);
    RingSizes(s.ring);
  }

  /** The main thread and the hardware alone bring the call to its end, or into the stall. */
  lemma {:induction false} AloneEnds(s: State) returns (steps: seq<Step>, t: State)
    requires Alone(s)
    ensures Run(s, steps, t) && NoCalls(steps) && (t.pc == Idle || Stalled(t))
    decreases |s.data| - s.written, |s.fifo|, StepsLeft(s)
  {
    if Stalled(s) {
      assert Run(s, [], s);
      return [], s;
    }
    var step := if |s.fifo| > 0 then Shift else Main;
    StepKeepsInv(s, step);
    var n := Next(s, step);
    if step == Main {
      AloneMain(s);
    }
    if n.pc == Idle {
      assert Run(n, [], n);
      steps, t := [], n;
    } else {
      steps, t := AloneEnds(n);
    }
    hide StepsLeft, Stalled;
    RunCons(s, step, steps, t);
    steps := [step] + steps;
  }

  /** The stall is the only trap: from every other point of a call some run returns, or gets into the stall. */
  lemma ReturnsOrStalls(s: State) returns (steps: seq<Step>, t: State)
    requires Inv(s) && s.pc != Idle
    ensures Run(s, steps, t) && NoCalls(steps) && (t.pc == Idle || Stalled(t))
  {
    if s.uife {
      var first, m := DrainsQuietly(s);
      var second;
      second, t := AloneEnds(m);
      RunAppend(s, first, m, second, t);
      steps := first + second;
    } else {
      steps, t := AloneEnds(s);
    }
  }

  /** Some run of the call that writes d from s returns. */
  ghost predicate CanReturn(s: State, d: seq<Uint8>)
    requires Inv(s) && Enabled(s, Call(d)) && Inv(Next(s, Call(d)))
  {
    exists steps, t :: Run(Next(s, Call(d)), steps, t) && NoCalls(steps) && t.pc == Idle
  }

  /** A call that cannot stall can return. */
  lemma EnoughRoomReturns(s: State, d: seq<Uint8>)
    requires Inv(s) && Enabled(s, Call(d)) && !(s.hasRing && s.txWait && |s.ring.buf| >= 2 && |d| > Room(s))
    ensures Inv(Next(s, Call(d))) && CanReturn(s, d)
  {
    StepKeepsInv(s, Call(d));
    var steps, t := ReturnsOrStalls(Next(s, Call(d)));
    hide Room, Stalled;
    if Stalled(t) {
      StallNeedsMoreThanRoom(s, d, steps, t);
    }
  }

  // ---------------------------------------------------------------- what a call has accepted

  /** Free places at the start of a call: of the FIFO, if the call may use it, and of the ring. */
  function FifoPlaces(s: State): nat
    requires Inv(s)
  {
    if !s.hasRing || s.ring.IsEmpty() then TX_LIMIT - |s.fifo| else 0
  }

  function RingPlaces(s: State): int
    requires Inv(s)
  {
    if s.hasRing then |s.ring.buf| - 1 - |s.ring.Contents()| else 0
  }

  /**
   What a call has written when it is at a certain point, `a` being the FIFO places it found and c what was queued.
   A waiting call leaves its loop with everything written; another one goes through the loop once.
   */
  predicate Pace(s: State, a: nat, c: nat)
    requires Inv(s)
  {
    var all, queued := s.written == |s.data|, |s.ring.Contents()|;
    if s.txWait then s.pc == Enable ==> all
    else
      && (s.pc == Top ==> s.written == 0 && queued <= c)
      && (s.pc in {Top, Direct, Store} ==> |s.fifo| <= TX_LIMIT - a + s.written)
      && (s.pc in {Buffered, Fill, Publish} ==> all || (s.written >= a && s.written >= a + queued - c))
      && (s.pc in {Bottom, Enable} ==> all || s.written >= a + if s.hasRing then |s.ring.buf| - 1 - c else 0)
  }

  lemma MainPace(s: State, a: nat, c: nat)
    requires Inv(s) && s.pc != Idle && s.isr.Off? && Pace(s, a, c) && a <= TX_LIMIT && (c > 0 ==> a == 0)
    ensures Inv(MainStep(s)) && (MainStep(s).pc != Idle ==> Pace(MainStep(s), a, c))
  {
    MainKeepsInv(s);
    RingSizes(s.ring);
    match s.pc
    case Publish => RingPublish(s.ring);
    case Fill => RingPut(s.ring, s.data[s.written]);
    case _ => hide Ring.Contents;
  }

  lemma IsrPace(s: State, a: nat, c: nat)
    requires Inv(s) && s.isr.Drain? && s.pc != Idle && Pace(s, a, c) && a <= TX_LIMIT && (c > 0 ==> a == 0)
    ensures Inv(IsrStep(s)) && Pace(IsrStep(s), a, c)
  {
    IsrKeepsInv(s);
    RingSizes(s.ring);
    if s.isr.avail > 0 && |s.fifo| < TX_LIMIT {
      RingRead(s.ring);
    }
  }

  lemma StepPace(s: State, step: Step, a: nat, c: nat)
    requires Inv(s) && s.pc != Idle && Enabled(s, step) && Pace(s, a, c) && a <= TX_LIMIT && (c > 0 ==> a == 0)
    ensures Inv(Next(s, step)) && (Next(s, step).pc != Idle ==> Pace(Next(s, step), a, c))
  {
    StepKeepsInv(s, step);
    match step
    case Main => MainPace(s, a, c);
    case IsrMove => IsrPace(s, a, c);
    case _ =>
  }

  /** Everything that an earlier state had accepted, and k bytes of d. */
  predicate TookBytes(t: State, was: seq<Uint8>, d: seq<Uint8>, k: nat) {
    k <= |d| && t.accepted == was + d[..k]
  }

  /** How many bytes of d a call may return with. */
  predicate EnoughTaken(txWait: bool, d: seq<Uint8>, k: nat, places: int) {
    k == |d| || (!txWait && k >= places)
  }

  /** A call in progress, or one that has returned. */
  ghost predicate CallGoesOn(s: State, was: seq<Uint8>, d: seq<Uint8>, txWait: bool, a: nat, c: nat, places: int)
    requires Inv(s)
  {
    if s.pc == Idle then exists k: nat :: TookBytes(s, was, d, k) && EnoughTaken(txWait, d, k, places)
    else s.accepted == was && s.data == d && s.txWait == txWait && Pace(s, a, c) &&
         places == a + if s.hasRing then |s.ring.buf| - 1 - c else 0
  }

  /** Only a return adds to what was accepted. */
  lemma StepAccepts(s: State, step: Step)
    requires Inv(s) && Enabled(s, step) && !step.Call?
    ensures Next(s, step).pc == Idle && s.pc != Idle ==>
              s.pc == Enable && Next(s, step).accepted == s.accepted + s.data[..s.written]
    ensures s.pc == Idle || Next(s, step).pc != Idle ==> Next(s, step).accepted == s.accepted
    ensures s.pc == Idle ==> Next(s, step).pc == Idle
  {
    hide Ring.Contents, Accepted;
  }

  lemma StepGoesOn(s: State, step: Step, was: seq<Uint8>, d: seq<Uint8>, txWait: bool, a: nat, c: nat, places: int)
    requires Inv(s) && Enabled(s, step) && !step.Call? && CallGoesOn(s, was, d, txWait, a, c, places)
    requires a <= TX_LIMIT && (c > 0 ==> a == 0)
    ensures Inv(Next(s, step)) && CallGoesOn(Next(s, step), was, d, txWait, a, c, places)
  {
    StepKeepsInv(s, step);
    StepAccepts(s, step);
    var t := Next(s, step);
    if s.pc == Idle {
      var k: nat :| TookBytes(s, was, d, k) && EnoughTaken(txWait, d, k, places);
      hide Next, Inv;
      assert TookBytes(t, was, d, k);
    } else {
      StepPace(s, step, a, c);
      StepSameCall(s, step);
      var w := s.written;
      assert s.pc == Enable ==> w <= |d| && EnoughTaken(txWait, d, w, places);
      hide Next, Inv, Pace, EnoughTaken;
      if t.pc == Idle {
        assert TookBytes(t, was, d, w);
      }
    }
  }

  lemma {:induction false} RunGoesOn(s: State, steps: seq<Step>, t: State, was: seq<Uint8>, d: seq<Uint8>, txWait: bool,
                                     a: nat, c: nat, places: int)
    requires Inv(s) && Run(s, steps, t) && NoCalls(steps) && CallGoesOn(s, was, d, txWait, a, c, places)
    requires a <= TX_LIMIT && (c > 0 ==> a == 0)
    ensures Inv(t) && CallGoesOn(t, was, d, txWait, a, c, places)
    decreases |steps|
  {
    if steps != [] {
      assert !steps[0].Call?;
      RunHead(s, steps, t);
      StepGoesOn(s, steps[0], was, d, txWait, a, c, places);
      assert NoCalls(steps[1..]);
      hide Inv, Next, Enabled, CallGoesOn;
      RunGoesOn(Next(s, steps[0]), steps[1..], t, was, d, txWait, a, c, places);
    }
  }

  /**
   Whenever a call has returned, in every run, the bytes accepted are a first part of its data: all of it if the call
   waits, and otherwise all of it or as many bytes as there were places at its start.
   */
  lemma ReturnedCallAccepted(s: State, d: seq<Uint8>, steps: seq<Step>, t: State) returns (k: nat)
    requires Inv(s) && Enabled(s, Call(d)) && Inv(Next(s, Call(d)))
    requires Run(Next(s, Call(d)), steps, t) && NoCalls(steps) && t.pc == Idle
    ensures k <= |d| && t.accepted == s.accepted + d[..k]
    ensures s.txWait ==> k == |d|
    ensures !s.txWait ==> k == |d| || k >= FifoPlaces(s) + RingPlaces(s)
  {
    var n := Next(s, Call(d));
    var a, c := FifoPlaces(s), |s.ring.Contents()|;
    var places := a + if s.hasRing then |s.ring.buf| - 1 - c else 0;
    RingSizes(s.ring);
    assert CallGoesOn(n, s.accepted, d, s.txWait, a, c, places);
    hide Run, Pace, Ring.Contents;
    RunGoesOn(n, steps, t, s.accepted, d, s.txWait, a, c, places);
    k :| TookBytes(t, s.accepted, d, k) && EnoughTaken(s.txWait, d, k, places);
  }

  /**
   The interrupt handler moves the oldest byte as long as there is one and the FIFO is not full, and leaves the
   interrupt enabled if and only if the FIFO is not empty then.
   */
  lemma IsrMovesAll(s: State)
    requires Inv(s) && s.isr.Drain?
    ensures IsrStep(s).isr.Off? <==> s.ring.Contents() == [] || |s.fifo| == TX_LIMIT
    ensures IsrStep(s).isr.Off? ==> IsrStep(s).fifo == s.fifo && IsrStep(s).uife == (s.fifo != [])
    ensures IsrStep(s).isr.Drain? ==> IsrStep(s).fifo == s.fifo + [s.ring.Contents()[0]] && IsrStep(s).uife
  {
    RingSizes(s.ring);
    if s.isr.avail > 0 {
      RingRead(s.ring);
    }
  }

  /** With nothing queued it disables itself, and otherwise it sets out to move what is queued. */
  lemma IsrEnters(s: State)
    requires Inv(s) && Enabled(s, IsrEnter)
    ensures var t := Next(s, IsrEnter);
            t == if s.hasRing && s.ring.Contents() != [] then s.(isr := Drain(|s.ring.Contents()|))
                 else s.(uife := false)
  {
    RingSizes(s.ring);
  }

  // ---------------------------------------------------------------- an input that hangs

  lemma RunOne(s: State, step: Step)
    requires Inv(s) && Enabled(s, step)
    ensures Inv(Next(s, step)) && Run(s, [step], Next(s, step))
  {
    StepKeepsInv(s, step);
    assert Run(Next(s, step), [], Next(s, step));
    RunCons(s, step, [], Next(s, step));
    assert [step] + [] == [step];
  }

  /** One step of the main thread, before a run that goes on from there. */
  lemma MainThen(s: State, m: State, steps: seq<Step>, t: State)
    requires Inv(s) && s.pc != Idle && s.isr.Off? && m == MainStep(s) && Inv(m) && Run(m, steps, t)
    ensures Run(s, [Main] + steps, t)
  {
    hide Run;
    RunCons(s, Main, steps, t);
  }

  lemma StoreSteps(s: State)
    requires Inv(s) && s.pc == Direct && s.isr.Off? && s.written < |s.data| && |s.fifo| < TX_LIMIT
    ensures MainStep(s) == s.(pc := Store) && Inv(s.(pc := Store))
    ensures MainStep(s.(pc := Store)) == s.(fifo := s.fifo + [s.data[s.written]], written := s.written + 1)
    ensures Inv(MainStep(s.(pc := Store)))
  {
    MainKeepsInv(s);
    MainKeepsInv(s.(pc := Store));
    hide Inv;
  }

  /** Bytes go into the FIFO until it is full. */
  lemma {:induction false} FillsFifo(s: State) returns (steps: seq<Step>, t: State)
    requires Inv(s) && s.pc == Direct && s.isr.Off? && |s.data| - s.written >= TX_LIMIT - |s.fifo|
    ensures Run(s, steps, t) && Inv(t) && |t.fifo| == TX_LIMIT && t.written == s.written + TX_LIMIT - |s.fifo|
    ensures t == s.(fifo := t.fifo, written := t.written)
    decreases TX_LIMIT - |s.fifo|
  {
    if |s.fifo| == TX_LIMIT {
      assert Run(s, [], s);
      return [], s;
    }
    StoreSteps(s);
    var m := MainStep(s);
    hide Inv, Run;
    steps, t := FillsFifo(MainStep(m));
    MainThen(m, MainStep(m), steps, t);
    MainThen(s, m, [Main] + steps, t);
    steps := [Main] + ([Main] + steps);
  }

  /** The hardware empties the FIFO. */
  lemma {:induction false} ShiftsAll(s: State) returns (steps: seq<Step>, t: State)
    requires Inv(s)
    ensures Run(s, steps, t) && Inv(t) && t.fifo == [] && t == s.(fifo := [], wire := t.wire)
    decreases |s.fifo|
  {
    if s.fifo == [] {
      assert Run(s, [], s);
      return [], s;
    }
    RunOne(s, Shift);
    steps, t := ShiftsAll(Next(s, Shift));
    RunCons(s, Shift, steps, t);
    steps := [Shift] + steps;
  }

  lemma PublishSteps(s: State)
    requires Inv(s) && s.pc == Fill && s.isr.Off?
    ensures Inv(MainStep(s)) && MainStep(s).pc == Publish && MainStep(s).isr.Off? && Inv(MainStep(MainStep(s)))
    ensures var t := MainStep(MainStep(s));
            && SameCall(s, t) && t.pc == Buffered && t.isr.Off? && t.written == s.written + 1
            && |t.ring.Contents()| == |s.ring.Contents()| + 1
  {
    RingPut(s.ring, s.data[s.written]);
    MainKeepsInv(s);
    RingPublish(MainStep(s).ring);
    MainKeepsInv(MainStep(s));
    hide Inv, Ring.Contents;
  }

  /** A byte goes into the ring. */
  lemma FillAndPublish(s: State) returns (steps: seq<Step>, t: State)
    requires Inv(s) && s.pc == Fill && s.isr.Off?
    ensures Run(s, steps, t) && Inv(t) && SameCall(s, t)
    ensures t.pc == Buffered && t.isr.Off? && t.written == s.written + 1
    ensures |t.ring.Contents()| == |s.ring.Contents()| + 1
  {
    hide Run, Ring.Contents;
    PublishSteps(s);
    t := MainStep(MainStep(s));
    RunOne(MainStep(s), Main);
    MainThen(s, MainStep(s), [Main], t);
    steps := [Main] + [Main];
  }

  /** Nothing more to write: the call enables the interrupt and returns. */
  lemma LeavesLoop(s: State) returns (steps: seq<Step>, t: State)
    requires Inv(s) && s.pc == Bottom && s.isr.Off? && s.written == |s.data| > 0
    ensures Run(s, steps, t) && Inv(t) && t == s.(pc := Idle, uife := true, accepted := s.accepted + s.data)
  {
    assert s.data[..|s.data|] == s.data;
    MainKeepsInv(s);
    var enable := MainStep(s);
    MainKeepsInv(enable);
    t := MainStep(enable);
    RunOne(enable, Main);
    hide Inv, Run, Ring.Contents;
    MainThen(s, enable, [Main], t);
    steps := [Main] + [Main];
  }

  /** A call with one byte left and the FIFO full: the byte goes into the ring, and the call returns. */
  lemma LastByteQueued(s: State) returns (steps: seq<Step>, t: State)
    requires Inv(s) && s.pc == Direct && s.isr.Off? && |s.fifo| == TX_LIMIT && s.written + 1 == |s.data|
    requires s.hasRing && |s.ring.buf| == 2
    ensures Run(s, steps, t) && Inv(t) && t.pc == Idle && t.isr.Off?
    ensures t.uife && SameCall(s, t) && |t.ring.Contents()| == 1
  {
    RingSizes(s.ring);
    MainKeepsInv(s);
    var buffered := MainStep(s);
    MainKeepsInv(buffered);
    var fill := MainStep(buffered);
    assert fill.ring.Contents() == [];
    var a, queued := FillAndPublish(fill);
    MainKeepsInv(queued);
    var bottom := MainStep(queued);
    hide Inv, Run, Ring.Contents;
    steps, t := LeavesLoop(bottom);
    MainThen(queued, bottom, steps, t);
    RunAppend(fill, a, queued, [Main] + steps, t);
    MainThen(buffered, fill, a + ([Main] + steps), t);
    MainThen(s, buffered, [Main] + (a + ([Main] + steps)), t);
    steps := [Main] + ([Main] + (a + ([Main] + steps)));
  }

  /** From the beginning: a write of 128 bytes of which 127 have left, the last one queued in a ring of two. */
  lemma OneByteLeft() returns (s: State, steps: seq<Step>, t: State)
    ensures Initial(s) && Inv(s) && Run(s, steps, t) && Inv(t) && t.pc == Idle && t.isr.Off? && t.uife && t.fifo == []
    ensures t.hasRing && t.txWait && |t.ring.buf| == 2 && |t.ring.Contents()| == 1
  {
    var d: seq<Uint8> := seq(128, i => 7);
    s := State([], [], Ring([0, 0], 0, 0), true, true, false, Idle, [], 0, Off, []);
    RunOne(s, Call(d));
    var top := Next(s, Call(d));
    RunOne(top, Main);
    var a, full := FillsFifo(Next(top, Main));
    var b, queued := LastByteQueued(full);
    var c;
    c, t := ShiftsAll(queued);
    hide Next, Inv, Enabled, Initial;
    RunAppend(full, b, queued, c, t);
    RunAppend(Next(top, Main), a, full, b + c, t);
    RunCons(top, Main, a + (b + c), t);
    RunCons(s, Call(d), [Main] + (a + (b + c)), t);
    steps := [Call(d)] + ([Main] + (a + (b + c)));
  }

  /**
   Then two bytes are enough, although the interrupt is enabled: it takes the last byte and is disabled before
   the call is done.
   */
  lemma TwoBytesHang()
    ensures exists s: State, steps, t: State ::
              Initial(s) && Inv(s) && Run(s, steps, t) && Inv(t) && Enabled(t, Call([1, 2])) &&
                Inv(Next(t, Call([1, 2]))) &&
              t.uife && t.fifo == [] && CanStall(t, [1, 2])
  {
    var s, steps, t := OneByteLeft();
    RingSizes(t.ring);
    WaitingWriteHangsIffOverfull(t, [1, 2]);
  }
}
