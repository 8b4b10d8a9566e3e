/**
 The AT command client: one outstanding command, a queue of ten, retries and timeouts.

 The class is proved against a state machine, and what holds over whole runs is proved
 of the machine.  Commands have a non-empty text; replies and callbacks enter as the
 truth values the code tests.
 */
module AtClient {
  import opened Fifo
  import opened Wrappers

  const QUEUE_SIZE: nat := 10
  const UINT_MAX: nat := 0xffff_ffff

  /** An AtCommand: its text by number, and what the protocol looks at. */
  datatype Command = Command(id: nat, retries: nat, breakOnError: bool, hasReceive: bool, hasComplete: bool)

  datatype Phase = Ok | Running | Error

  /** A transmission: the command as it was submitted, and how often it has been sent by then. */
  datatype Tx = Tx(c: Command, attempt: nat)

  datatype State = State(
    phase: Phase, current: Option<Command>, queue: seq<Command>, armed: bool,
    submitted: Command, attempts: nat,            // the current command at its submission, and its transmissions
    log: seq<Tx>, accepted: seq<Command>)         // all transmissions, and all submissions not refused

  datatype Event =
    | Submit(c: Command)
    | Line(newline: bool, matched: bool, receiveDone: bool, completeOk: bool)
    | Timeout
    | Resend
    | Skip  // a call of next() from outside

  /** The unsigned counter going down. */
  function Dec(r: nat): nat {
    if r == 0 then UINT_MAX else r - 1
  }

  // ---------------------------------------------------------------- the machine

  /** sendDirect of a command that was never sent. */
  function First(s: State, c: Command): State {
    s.(phase := Running, current := Some(c), armed := true, submitted := c, attempts := 1, log := s.log + [Tx(c, 1)])
  }

  /** sendDirect of the current command once more, with the counter as it is now. */
  function Again(s: State, c: Command): State {
    s.(phase := Running, current := Some(c), armed := true, attempts := s.attempts + 1,
       log := s.log + [Tx(s.submitted, s.attempts + 1)])
  }

  function OnSubmit(s: State, c: Command): State {
    if s.current.Some? then
      if |s.queue| < QUEUE_SIZE then s.(queue := s.queue + [c], accepted := s.accepted + [c]) else s
    else First(s, c).(accepted := s.accepted + [c])
  }

  function OnNext(s: State): State {
    if s.phase == Error then s
    else
      var t := s.(phase := Ok, current := None);
      if t.queue == [] then t else First(t.(queue := t.queue[1..]), t.queue[0])
  }

  function OnLine(s: State, newline: bool, matched: bool, receiveDone: bool, completeOk: bool): State {
    if s.current.None? || s.phase == Error then s
    else
      var c := s.current.value;
      if c.hasReceive then (if receiveDone then OnNext(s) else s)
      else if !newline then s
      else
        var t := s.(armed := false);
        var c' := c.(retries := Dec(c.retries));
        if !matched && c'.retries > 0 then Again(t, c')
        else
          var u := if matched then t else t.(current := Some(c'));
          if !matched && c.breakOnError then u.(phase := Error)
          else if c.hasComplete && !completeOk then u
          else OnNext(u)
  }

  function OnTimeout(s: State): State
    requires s.armed
  {
    var t := s.(armed := false);
    if s.current.None? then t
    else
      var c := s.current.value.(retries := Dec(s.current.value.retries));
      if c.retries > 0 then Again(t, c) else t.(current := Some(c), phase := Error)
  }

  function OnResend(s: State): State {
    var t := s.(phase := Ok);
    if s.current.Some? then Again(t, s.current.value) else OnNext(t)
  }

  predicate Enabled(s: State, e: Event) {
    match e
    case Submit(c) => c.retries <= UINT_MAX
    case Timeout => s.armed
    case _ => true
  }

  function Next(s: State, e: Event): State
    requires Enabled(s, e)
  {
    match e
    case Submit(c) => OnSubmit(s, c)
    case Line(n, m, r, k) => OnLine(s, n, m, r, k)
    case Timeout => OnTimeout(s)
    case Resend => OnResend(s)
    case Skip => OnNext(s)
  }

  predicate Initial(s: State) {
    s.phase == Ok && s.current.None? && s.queue == [] && !s.armed && s.log == [] && s.accepted == []
  }

  ghost predicate Run(s: State, es: seq<Event>, t: State)
    decreases |es|
  {
    if es == [] then s == t else Enabled(s, es[0]) && Run(Next(s, es[0]), es[1..], t)
  }

  // ---------------------------------------------------------------- order

  /** The commands of first transmissions, in order. */
  function Firsts(log: seq<Tx>): seq<Command> {
    if log == [] then []
    else
      var tx := log[|log| - 1];
      Firsts(log[..|log| - 1]) + if tx.attempt == 1 then [tx.c] else []
  }

  lemma FirstsGrow(log: seq<Tx>, tx: Tx)
    ensures Firsts(log + [tx]) == Firsts(log) + if tx.attempt == 1 then [tx.c] else []
  {
    assert (log + [tx])[..|log|] == log;
  }

  /** What waits in the queue is what was accepted and not sent; nothing waits without an outstanding command. */
  ghost predicate InOrder(s: State) {
    && s.accepted == Firsts(s.log) + s.queue
    && |s.queue| <= QUEUE_SIZE
    && (s.queue != [] ==> s.current.Some?)
    && (s.current.Some? ==> s.attempts >= 1)
    && (s.phase == Error ==> s.current.Some? && !s.armed)
  }

  lemma FirstKeepsOrder(s: State, c: Command)
    requires |s.queue| <= QUEUE_SIZE && s.accepted == Firsts(s.log) + [c] + s.queue
    ensures InOrder(First(s, c))
  {
    FirstsGrow(s.log, Tx(c, 1));
  }

  lemma AgainKeepsOrder(s: State, c: Command)
    requires InOrder(s) && s.current.Some?
    ensures InOrder(Again(s, c))
  {
    FirstsGrow(s.log, Tx(s.submitted, s.attempts + 1));
  }

  lemma NextKeepsOrder(s: State)
    requires InOrder(s)
    ensures InOrder(OnNext(s))
  {
    if s.phase != Error && s.queue != [] {
      var t := s.(phase := Ok, current := None, queue := s.queue[1..]);
      assert Firsts(s.log) + [s.queue[0]] + s.queue[1..] == Firsts(s.log) + s.queue;
      FirstKeepsOrder(t, s.queue[0]);
    }
  }

  lemma StepKeepsOrder(s: State, e: Event)
    requires InOrder(s) && Enabled(s, e)
    ensures InOrder(Next(s, e))
  {
    match e
    case Submit(c) =>
      if s.current.None? {
        assert Firsts(s.log) + [c] + [] == Firsts(s.log) + s.queue + [c];
        FirstKeepsOrder(s.(accepted := s.accepted + [c]), c);
      }
    case Line(n, m, r, k) =>
      LineKeepsOrder(s, n, m, r, k);
    case Timeout =>
      if s.current.Some? {
        AgainKeepsOrder(s.(armed := false), s.current.value.(retries := Dec(s.current.value.retries)));
      }
    case Resend =>
      if s.current.Some? {
        AgainKeepsOrder(s.(phase := Ok), s.current.value);
      } else {
        NextKeepsOrder(s.(phase := Ok));
      }
    case Skip =>
      NextKeepsOrder(s);
  }

  lemma LineKeepsOrder(s: State, n: bool, m: bool, r: bool, k: bool)
    requires InOrder(s)
    ensures InOrder(OnLine(s, n, m, r, k))
  {
    hide OnNext, Again, Firsts;
    NextKeepsOrder(s);
    if s.current.Some? {
      var c := s.current.value;
      var t, c' := s.(armed := false), c.(retries := Dec(c.retries));
      AgainKeepsOrder(t, c');
      NextKeepsOrder(t);
      NextKeepsOrder(t.(current := Some(c')));
    }
  }

  /** In every run first transmissions follow the order of accepted submissions. */
  lemma {:induction false} RunKeepsOrder(s: State, es: seq<Event>, t: State)
    requires InOrder(s) && Run(s, es, t)
    ensures InOrder(t)
    decreases |es|
  {
    if es != [] {
      StepKeepsOrder(s, es[0]);
      RunKeepsOrder(Next(s, es[0]), es[1..], t);
    }
  }

  /** From the start of every run: sent first are, in order, the accepted submissions that do not wait. */
  lemma SentInOrder(s: State, es: seq<Event>, t: State)
    requires Initial(s) && Run(s, es, t)
    ensures t.accepted == Firsts(t.log) + t.queue
    ensures t.queue != [] ==> t.current.Some?
    ensures |t.queue| <= QUEUE_SIZE
  {
    RunKeepsOrder(s, es, t);
  }

  lemma ErrorStepSilent(s: State, e: Event)
    requires InOrder(s) && s.phase == Error && Enabled(s, e) && !e.Resend?
    ensures Next(s, e).log == s.log && Next(s, e).phase == Error && Next(s, e).current == s.current
  {
  }

  /** In the error state nothing is transmitted until resend is called. */
  lemma {:induction false} ErrorRunSilent(s: State, es: seq<Event>, t: State)
    requires InOrder(s) && s.phase == Error && Run(s, es, t) && forall i :: 0 <= i < |es| ==> !es[i].Resend?
    ensures t.log == s.log && t.phase == Error && t.current == s.current
    decreases |es|
  {
    if es != [] {
      assert !es[0].Resend?;
      ErrorStepSilent(s, es[0]);
      StepKeepsOrder(s, es[0]);
      ErrorRunSilent(Next(s, es[0]), es[1..], t);
    }
  }

  // ---------------------------------------------------------------- retries

  /**
   Commands whose counter cannot run past zero.  It does for one submitted with no retries, and
   for one whose failed last attempt neither stops the client nor ends the command, because its
   completion callback asks to go on.
   */
  predicate Guarded(c: Command) {
    c.retries >= 1 && (c.breakOnError || !c.hasComplete || c.hasReceive)
  }

  predicate Within(tx: Tx) {
    Guarded(tx.c) ==> tx.attempt <= tx.c.retries
  }

  /** The current command as submitted, but for its counter. */
  predicate SameCommand(c: Command, d: Command) {
    c == d.(retries := c.retries)
  }

  ghost predicate Counted(s: State) {
    && (forall i :: 0 <= i < |s.log| ==> Within(s.log[i]))
    && (s.current.Some? ==> SameCommand(s.current.value, s.submitted))
    && (s.current.Some? && Guarded(s.submitted) ==>
          || (s.current.value.retries >= 1 && s.attempts + s.current.value.retries == s.submitted.retries + 1)
          || (s.current.value.retries == 0 && s.phase == Error && !s.armed))
    && (s.current.None? ==> s.phase != Error)
  }

  lemma FirstKeepsCount(s: State, c: Command)
    requires Counted(s.(current := None, phase := Ok))
    ensures Counted(First(s, c))
  {
  }

  lemma NextKeepsCount(s: State)
    requires Counted(s.(current := None, phase := Ok)) && (s.phase == Error ==> Counted(s))
    ensures Counted(OnNext(s))
  {
    if s.phase != Error && s.queue != [] {
      var t := s.(phase := Ok, current := None, queue := s.queue[1..]);
      FirstKeepsCount(t, s.queue[0]);
    }
  }

  lemma AgainKeepsCount(s: State, c: Command)
    requires (forall i :: 0 <= i < |s.log| ==> Within(s.log[i])) && SameCommand(c, s.submitted)
    requires Guarded(s.submitted) ==> c.retries >= 1 && s.attempts + c.retries == s.submitted.retries
    ensures Counted(Again(s, c))
  {
  }

  lemma StepKeepsCount(s: State, e: Event)
    requires Counted(s) && Enabled(s, e) && !e.Resend?
    ensures Counted(Next(s, e))
  {
    match e
    case Submit(c) =>
      if s.current.None? {
        FirstKeepsCount(s.(accepted := s.accepted + [c]), c);
      }
    case Line(n, m, r, k) =>
      LineKeepsCount(s, n, m, r, k);
    case Timeout =>
      if s.current.Some? {
        var c := s.current.value.(retries := Dec(s.current.value.retries));
        if c.retries > 0 {
          AgainKeepsCount(s.(armed := false), c);
        }
      }
    case Skip =>
      NextKeepsCount(s);
  }

  lemma LineKeepsCount(s: State, n: bool, m: bool, r: bool, k: bool)
    requires Counted(s)
    ensures Counted(OnLine(s, n, m, r, k))
  {
    hide OnNext, Again;
    if s.current.Some? && s.phase != Error {
      var c := s.current.value;
      var t, c' := s.(armed := false), c.(retries := Dec(c.retries));
      NextKeepsCount(s);
      if c'.retries > 0 {
        AgainKeepsCount(t, c');
      }
      NextKeepsCount(t);
      NextKeepsCount(t.(current := Some(c')));
    }
  }

  ghost predicate NoResend(es: seq<Event>) {
    forall i :: 0 <= i < |es| ==> !es[i].Resend?
  }

  /** In every run without resend a guarded command is sent at most as often as its retries say. */
  lemma {:induction false} RunKeepsCount(s: State, es: seq<Event>, t: State)
    requires Counted(s) && Run(s, es, t) && NoResend(es)
    ensures Counted(t)
    decreases |es|
  {
    if es != [] {
      assert !es[0].Resend?;
      StepKeepsCount(s, es[0]);
      RunKeepsCount(Next(s, es[0]), es[1..], t);
    }
  }

  lemma RunCons(s: State, e: Event, es: seq<Event>, t: State)
    requires Enabled(s, e) && Run(Next(s, e), es, t)
    ensures Run(s, [e] + es, t)
  {
    assert ([e] + es)[1..] == es;
  }

  /** A reply line that is neither "OK" nor the alternative, with a callback that asks to go on. */
  const MISS: Event := Line(true, false, false, false)

  /** Misses send a command that is not guarded again and again, once more than its retries. */
  lemma {:induction false} MissesOverrun(s: State) returns (es: seq<Event>, t: State)
    requires s.current.Some? && s.phase == Running && SameCommand(s.current.value, s.submitted)
    requires !Guarded(s.submitted) && s.current.value.retries >= 1 && s.submitted.retries >= 1
    ensures Run(s, es, t) && NoResend(es) && Tx(s.submitted, s.attempts + s.current.value.retries) in t.log
    decreases s.current.value.retries
  {
    var u := Next(s, MISS);
    if s.current.value.retries == 1 {
      t := Next(u, MISS);
      assert t.log == s.log + [Tx(s.submitted, s.attempts + 1)];
      assert t.log[|s.log|] == Tx(s.submitted, s.attempts + 1);
      es := [MISS, MISS];
      assert es[1..] == [MISS] && [MISS][1..] == [];
      assert Run(u, [MISS], t);
    } else {
      es, t := MissesOverrun(u);
      RunCons(s, MISS, es, t);
      es := [MISS] + es;
    }
  }

  /** Without retries the first timeout already wraps the counter. */
  lemma TimeoutWraps(s: State) returns (es: seq<Event>, t: State)
    requires s.current.Some? && s.armed && s.current.value.retries == 0
    ensures Run(s, es, t) && NoResend(es) && Tx(s.submitted, s.attempts + 1) in t.log
  {
    t := Next(s, Timeout);
    assert t.log[|s.log|] == Tx(s.submitted, s.attempts + 1);
    es := [Timeout];
    assert es[1..] == [] && Run(t, [], t);
  }

  /** No run without resend sends c more often than its retries say, or more than once if it has none. */
  ghost predicate Bounded(c: Command) {
    forall s, es, t, i :: Initial(s) && Run(s, es, t) && NoResend(es) && 0 <= i < |t.log| && t.log[i].c == c ==>
      t.log[i].attempt <= c.retries || t.log[i].attempt == 1
  }

  /** That bound holds exactly for the guarded commands. */
  lemma BoundedIffGuarded(c: Command)
    requires c.retries <= UINT_MAX
    ensures Bounded(c) <==> Guarded(c)
  {
    if Guarded(c) {
      forall s, es, t, i | Initial(s) && Run(s, es, t) && NoResend(es) && 0 <= i < |t.log| && t.log[i].c == c
        ensures t.log[i].attempt <= c.retries
      {
        RunKeepsCount(s, es, t);
        assert Within(t.log[i]);
      }
    } else {
      NotBounded(c);
    }
  }

  lemma NotBounded(c: Command)
    requires c.retries <= UINT_MAX && !Guarded(c)
    ensures !Bounded(c)
  {
    var s := State(Ok, None, [], false, c, 0, [], []);
    var n := Next(s, Submit(c));
    assert n.current == Some(c) && n.submitted == c && n.phase == Running && n.armed && n.attempts == 1;
    hide Next, Run;
    var es, t;
    if c.retries == 0 {
      es, t := TimeoutWraps(n);
    } else {
      es, t := MissesOverrun(n);
    }
    RunCons(s, Submit(c), es, t);
    var i :| 0 <= i < |t.log| && t.log[i] == Tx(c, if c.retries == 0 then 2 else c.retries + 1);
    assert NoResend([Submit(c)] + es);
  }

  // ---------------------------------------------------------------- answers, refusals and silence

  /** A submission is taken unless a command is outstanding and ten wait; it is sent at once if none is outstanding. */
  lemma SubmissionTaken(s: State, c: Command)
    ensures var t := OnSubmit(s, c);
            && (s.current.Some? && |s.queue| >= 10 ==> t == s)
            && (s.current.Some? && |s.queue| < 10 ==>
                  && t.queue == s.queue + [c] && t.accepted == s.accepted + [c]
                  && t.log == s.log && t.current == s.current)
            && (s.current.None? ==>
                  && t.current == Some(c) && t.phase == Running && t.armed
                  && t.log == s.log + [Tx(c, 1)] && t.accepted == s.accepted + [c] && t.queue == s.queue)
  {
  }

  /** A reply that completes the current command: its receive callback says so, or it matches and is agreed to. */
  predicate Completes(c: Command, newline: bool, matched: bool, receiveDone: bool, completeOk: bool) {
    if c.hasReceive then receiveDone else newline && matched && (c.hasComplete ==> completeOk)
  }

  /** After it the next command in the queue is sent for the first time, or there is none and the client is idle. */
  lemma AnsweredGoesOn(s: State, newline: bool, matched: bool, receiveDone: bool, completeOk: bool)
    requires s.current.Some? && s.phase != Error
    requires Completes(s.current.value, newline, matched, receiveDone, completeOk)
    ensures var t := OnLine(s, newline, matched, receiveDone, completeOk);
            if s.queue == [] then t.current.None? && t.phase == Ok && t.log == s.log && t.queue == []
            else t.current == Some(s.queue[0]) && t.phase == Running && t.armed && t.queue == s.queue[1..] &&
                 t.log == s.log + [Tx(s.queue[0], 1)]
  {
  }

  /** n timeouts, as long as the timer is armed. */
  function Silence(s: State, n: nat): State {
    if n == 0 then s
    else
      var t := Silence(s, n - 1);
      if t.armed then OnTimeout(t) else t
  }

  /** The transmissions of one command, the first n. */
  function Attempts(c: Command, n: nat): seq<Tx> {
    if n == 0 then [] else Attempts(c, n - 1) + [Tx(c, n)]
  }

  lemma OneMoreAttempt(log: seq<Tx>, c: Command, n: nat)
    ensures log + Attempts(c, n) + [Tx(c, n + 1)] == log + Attempts(c, n + 1)
  {
    assert log + Attempts(c, n) + [Tx(c, n + 1)] == log + (Attempts(c, n) + [Tx(c, n + 1)]);
  }

  /** A command that gets no answer is sent as often as its retries say, and then the client is in the error state. */
  lemma {:induction false} SilenceEndsInError(s: State, c: Command, n: nat)
    requires 1 <= c.retries <= UINT_MAX && n <= c.retries
    ensures var t := Silence(First(s, c), n);
            && t.queue == s.queue && t.accepted == s.accepted && t.submitted == c
            && t.current == Some(c.(retries := c.retries - n))
            && (n < c.retries ==> t.phase == Running && t.armed && t.attempts == n + 1)
            && (n < c.retries ==> t.log == s.log + Attempts(c, n + 1))
            && (n == c.retries ==> t.phase == Error && !t.armed && t.log == s.log + Attempts(c, n))
  {
    if n == 0 {
      assert Attempts(c, 0) == [] && [] + [Tx(c, 1)] == [Tx(c, 1)];
    } else {
      SilenceEndsInError(s, c, n - 1);
      OneMoreAttempt(s.log, c, n);
      hide Attempts;
    }
  }

  /** n replies that do not match. */
  function Refusals(s: State, completeOk: bool, n: nat): State {
    if n == 0 then s else OnLine(Refusals(s, completeOk, n - 1), true, false, false, completeOk)
  }

  /** So is one that is refused every time. */
  lemma {:induction false} RefusalsResend(s: State, c: Command, completeOk: bool, n: nat)
    requires !c.hasReceive && 1 <= c.retries <= UINT_MAX && n < c.retries
    ensures var t := Refusals(First(s, c), completeOk, n);
            && t.queue == s.queue && t.accepted == s.accepted && t.submitted == c && t.phase == Running && t.armed
            && t.current == Some(c.(retries := c.retries - n)) && t.attempts == n + 1
            && t.log == s.log + Attempts(c, n + 1)
  {
    if n == 0 {
      assert Attempts(c, 0) == [] && [] + [Tx(c, 1)] == [Tx(c, 1)];
    } else {
      RefusalsResend(s, c, completeOk, n - 1);
      OneMoreAttempt(s.log, c, n);
      hide Attempts;
    }
  }

  /** The last refusal stops the client if the command says so; otherwise the client goes on to the next command. */
  lemma LastRefusal(s: State, c: Command, completeOk: bool)
    requires !c.hasReceive && 1 <= c.retries <= UINT_MAX && (c.hasComplete ==> completeOk)
    ensures var t := Refusals(First(s, c), completeOk, c.retries);
            if c.breakOnError then t.phase == Error && t.queue == s.queue && t.log == s.log + Attempts(c, c.retries)
            else if s.queue == [] then t.phase == Ok && t.current.None? && t.log == s.log + Attempts(c, c.retries)
            else t.phase == Running && t.current == Some(s.queue[0]) && t.queue == s.queue[1..] &&
                 t.log == s.log + Attempts(c, c.retries) + [Tx(s.queue[0], 1)]
  {
    RefusalsResend(s, c, completeOk, c.retries - 1);
    hide Attempts;
  }

  /** resend() sends the current command once more, also out of the error state. */
  lemma ResendSends(s: State)
    requires s.current.Some?
    ensures OnResend(s).log == s.log + [Tx(s.submitted, s.attempts + 1)]
    ensures OnResend(s).phase == Running && OnResend(s).armed && OnResend(s).current == s.current
  {
  }

  // ---------------------------------------------------------------- the class

  class Client {
    var state: Phase
    var hasCommand: bool      // currentCommand.text is not empty
    var currentCommand: Command
    const queue: Queue<Command>
    var timerArmed: bool
    ghost var m: State

    ghost predicate Valid()
      reads this, queue, queue.raw
    {
      && queue.Valid() && queue.raw.Length == QUEUE_SIZE
      && m.phase == state && m.armed == timerArmed
      && m.current == (if hasCommand then Some(currentCommand) else None)
      && m.queue == queue.Contents()
    }

    constructor ()
      ensures Valid() && Initial(m) && fresh(queue) && fresh(queue.raw)
    {
      state, hasCommand, currentCommand, timerArmed := Ok, false, Command(0, 0, true, false, false), false;
      queue := new Queue<Command>(QUEUE_SIZE);
      m := State(Ok, None, [], false, Command(0, 0, true, false, false), 0, [], []);
    }

    /** sendDirect; `first` tells a new command from the current one sent again. */
    method SendDirect(c: Command, ghost first: bool)
      requires Valid()
      modifies this
      ensures Valid() && m == if first then First(old(m), c) else Again(old(m), c)
    {
      state := Running;
      timerArmed := false;
      hasCommand, currentCommand := true, c;
      m := if first then First(m, c) else Again(m, c);
      timerArmed := true;
    }

    method Send(c: Command)
      requires Valid()
      modifies this, queue, queue.raw
      ensures Valid() && m == OnSubmit(old(m), c)
    {
      if hasCommand {
        var ok := queue.Enqueue(c);
        m := OnSubmit(m, c);
        return;
      }
      SendDirect(c, true);
      m := m.(accepted := m.accepted + [c]);
    }

    method NextCommand()
      requires Valid()
      modifies this, queue, queue.raw
      ensures Valid() && m == OnNext(old(m))
    {
      if state == Error {
        return;
      }
      state := Ok;
      hasCommand := false;
      m := m.(phase := Ok, current := None);
      if queue.numberOfElements > 0 {
        var c := queue.Dequeue();
        m := m.(queue := m.queue[1..]);
        SendDirect(c, true);
      }
    }

    method Processor(newline: bool, matched: bool, receiveDone: bool, completeOk: bool)
      requires Valid()
      modifies this, queue, queue.raw
      ensures Valid() && m == OnLine(old(m), newline, matched, receiveDone, completeOk)
    {
      if !hasCommand || state == Error {
        return;
      }
      if currentCommand.hasReceive {
        if receiveDone {
          NextCommand();
        }
        return;
      }
      if !newline {
        return;
      }
      timerArmed := false;
      m := m.(armed := false);
      if !matched {
        currentCommand := currentCommand.(retries := Dec(currentCommand.retries));
        m := m.(current := Some(currentCommand));
        if currentCommand.retries > 0 {
          SendDirect(currentCommand, false);
          return;
        }
        if currentCommand.breakOnError {
          state := Error;
          m := m.(phase := Error);
          return;
        }
      }
      if currentCommand.hasComplete {
        if !completeOk {
          return;
        }
      }
      NextCommand();
    }

    method Ticker()
      requires Valid() && timerArmed
      modifies this
      ensures Valid() && m == OnTimeout(old(m))
    {
      timerArmed := false;  // a one-shot timer has fired
      m := m.(armed := false);
      if !hasCommand {
        return;
      }
      currentCommand := currentCommand.(retries := Dec(currentCommand.retries));
      m := m.(current := Some(currentCommand));
      if currentCommand.retries > 0 {
        SendDirect(currentCommand, false);
        return;
      }
      state := Error;
      m := m.(phase := Error);
    }

    method ResendCommand()
      requires Valid()
      modifies this, queue, queue.raw
      ensures Valid() && m == OnResend(old(m))
    {
      state := Ok;
      m := m.(phase := Ok);
      if hasCommand {
        SendDirect(currentCommand, false);
        return;
      }
      NextCommand();
    }
  }
}
