/** The serial port with one writing thread and the interrupt handler, as a transition system: a region
    with interrupts off is one step. */
module Serial {
  import opened Common
  import opened InterruptQueue

  datatype Mode = Uninit | Poll | Queue

  /** The writing thread: outside serial_putc(), asleep in it until the queue has room, or woken up. */
  datatype Writer = Idle | Asleep(b: Byte) | Woken(b: Byte)

  /** notFull is the queue's waiter for room; xmit and recv are the bits of the interrupt enable register;
      wire is what was written to the port, passed what was given to serial_putc(). */
  datatype State = State(mode: Mode, queue: seq<Byte>, notFull: bool, xmit: bool, recv: bool, wire: seq<Byte>,
                         writer: Writer, passed: seq<Byte>)

  datatype Event =
    | Putc(b: Byte, interruptsOff: bool, inputFull: bool)
    | Resume(inputFull: bool)
    | InitQueue(inputFull: bool)
    | Interrupt(ready: nat, inputFull: bool)
    | Flush
    | Notify(inputFull: bool)

  datatype Outcome = Next(state: State) | NotPossible | AssertionFails

  const INIT := State(Uninit, [], false, false, false, [], Idle, [])

  predicate Full(s: State) {
    IsFull(s.queue)
  }

  function WriteIer(s: State, inputFull: bool): State {
    s.(xmit := s.queue != [], recv := !inputFull)
  }

  /** init_poll(). */
  function InitPoll(s: State): State {
    if s.mode == Uninit then s.(mode := Poll, queue := [], notFull := false, xmit := false, recv := false) else s
  }

  /** signal() of the not-full condition. */
  function SignalNotFull(s: State): Outcome {
    if Full(s) then AssertionFails
    else if !s.notFull then Next(s)
    else match s.writer
      case Asleep(b) => Next(s.(notFull := false, writer := Woken(b)))
      case _ => AssertionFails  // thread_unblock() wants a blocked thread
  }

  /** intq_getc() and the byte handed to the port, n times. */
  function Transmit(s: State, n: nat): Outcome
    decreases n
  {
    if n == 0 then Next(s)
    else if s.queue == [] then AssertionFails
    else match SignalNotFull(s.(queue := s.queue[1..], wire := s.wire + [s.queue[0]]))
      case Next(t) => Transmit(t, n - 1)
      case other => other
  }

  /** The end of serial_putc(): intq_putc(), which may sleep, then write_ier(). */
  function Enqueue(s: State, b: Byte, inputFull: bool): Outcome {
    if Full(s) then Next(s.(notFull := true, writer := Asleep(b)))
    else Next(WriteIer(s.(queue := s.queue + [b], writer := Idle), inputFull))
  }

  function Step(s: State, e: Event): Outcome {
    match e
    case Putc(b, interruptsOff, inputFull) =>
      if s.writer != Idle then NotPossible
      else
        var t := s.(passed := s.passed + [b]);
        if s.mode != Queue then Next(InitPoll(t).(wire := t.wire + [b]))
        else if interruptsOff && Full(s) then
          (match Transmit(t, 1)
           case Next(u) => if Full(u) then AssertionFails else Enqueue(u, b, inputFull)
           case other => other)
        else Enqueue(t, b, inputFull)
    case Resume(inputFull) =>
      if s.writer.Woken? then Enqueue(s, s.writer.b, inputFull) else NotPossible
    case InitQueue(inputFull) =>
      if s.mode == Queue then AssertionFails
      else Next(WriteIer(InitPoll(s).(mode := Queue), inputFull))
    case Interrupt(ready, inputFull) =>
      if s.mode != Queue || !(s.xmit || s.recv) then NotPossible
      else (match Transmit(s, if ready < |s.queue| then ready else |s.queue|)
            case Next(t) => Next(WriteIer(t, inputFull))
            case other => other)
    case Flush =>
      Transmit(s, |s.queue|)
    case Notify(inputFull) =>
      Next(if s.mode == Queue then WriteIer(s, inputFull) else s)
  }

  // ----- what every step keeps -----

  /** The byte that a sleeping writer has not queued yet. */
  function Pending(w: Writer): seq<Byte> {
    if w.Idle? then [] else [w.b]
  }

  predicate Inv(s: State) {
    && s.passed == s.wire + s.queue + Pending(s.writer)
    && |s.queue| < BUFSIZE
    && (s.mode == Queue && s.queue != [] ==> s.xmit)
    && (s.mode != Queue ==> s.queue == [] && s.writer == Idle)
    && (s.notFull <==> s.writer.Asleep?)
    && (s.writer.Asleep? ==> Full(s))
    && (s.writer.Woken? ==> !Full(s))
  }

  /** One byte goes out, and wakes a sleeping writer. */
  lemma TransmitOne(s: State, u: State)
    requires Inv(s) && s.queue != [] && u == s.(queue := s.queue[1..], wire := s.wire + [s.queue[0]])
    ensures SignalNotFull(u).Next? && Inv(SignalNotFull(u).state)
    ensures SignalNotFull(u).state
         == u.(notFull := false, writer := if s.writer.Asleep? then Woken(s.writer.b) else s.writer)
  {
    assert s.wire + s.queue == u.wire + u.queue;
  }

  /** Bytes go out in order, nothing else changes, and the first one wakes a sleeping writer. */
  lemma {:induction false} TransmitKeeps(s: State, n: nat)
    requires Inv(s) && n <= |s.queue|
    ensures Transmit(s, n).Next?
    ensures var t := Transmit(s, n).state;
      Inv(t) && t.queue == s.queue[n..] && t.wire == s.wire + s.queue[..n] && t.passed == s.passed
      && t.mode == s.mode && t.xmit == s.xmit && t.recv == s.recv
      && t.writer == (if n > 0 && s.writer.Asleep? then Woken(s.writer.b) else s.writer)
    decreases n
  {
    hide Inv, SignalNotFull;
    if n == 0 {
      assert s.queue[0..] == s.queue && s.wire + s.queue[..0] == s.wire;
    } else {
      var u := s.(queue := s.queue[1..], wire := s.wire + [s.queue[0]]);
      TransmitOne(s, u);
      TransmitKeeps(SignalNotFull(u).state, n - 1);
      Moved(s.wire, s.queue, n);
    }
  }

  lemma Moved(wire: seq<Byte>, queue: seq<Byte>, n: nat)
    requires 0 < n <= |queue|
    ensures queue[1..][n - 1..] == queue[n..]
    ensures wire + [queue[0]] + queue[1..][..n - 1] == wire + queue[..n]
  {
  }

  lemma EnqueueKeeps(s: State, b: Byte, inputFull: bool)
    requires Inv(s.(writer := Idle, notFull := false, passed := s.wire + s.queue)) && s.mode == Queue
    requires s.passed == s.wire + s.queue + [b] && !s.notFull
    ensures Enqueue(s, b, inputFull).Next? && Inv(Enqueue(s, b, inputFull).state)
  {
    assert s.wire + (s.queue + [b]) + [] == s.wire + s.queue + [b];
  }

  lemma PutcKeeps(s: State, b: Byte, interruptsOff: bool, inputFull: bool)
    requires Inv(s) && s.writer == Idle
    ensures var o := Step(s, Putc(b, interruptsOff, inputFull)); o.Next? && Inv(o.state)
  {
    var t := s.(passed := s.passed + [b]);
    if s.mode != Queue {
      assert s.wire + [] + [] + [b] == s.wire + [b] + [] + [];
    } else if interruptsOff && Full(s) {
      TransmitKeeps(s, 1);
      LogOnly(s, t.passed, 1);
      var u := Transmit(s, 1).state;
      assert u.wire + u.queue + [] == u.wire + u.queue;
      EnqueueKeeps(u.(passed := t.passed), b, inputFull);
    } else {
      assert s.wire + s.queue + [] == s.wire + s.queue;
      EnqueueKeeps(t, b, inputFull);
    }
  }

  /** The log of what was passed does not steer anything. */
  lemma {:induction false} LogOnly(s: State, passed: seq<Byte>, n: nat)
    requires Transmit(s, n).Next?
    ensures Transmit(s.(passed := passed), n) == Next(Transmit(s, n).state.(passed := passed))
    decreases n
  {
    if n > 0 {
      var u := s.(queue := s.queue[1..], wire := s.wire + [s.queue[0]]);
      assert SignalNotFull(u).Next?;
      LogOnly(SignalNotFull(u).state, passed, n - 1);
    }
  }

  /** No step fails an assertion, except initialising the queue mode twice, and every step keeps the
      invariant. */
  lemma StepKeeps(s: State, e: Event)
    requires Inv(s)
    ensures Step(s, e).AssertionFails? <==> e.InitQueue? && s.mode == Queue
    ensures Step(s, e).Next? ==> Inv(Step(s, e).state)
  {
    match e {
      case Putc(b, off, full) => if s.writer == Idle { PutcKeeps(s, b, off, full); }
      case Resume(full) =>
        if s.writer.Woken? {
          assert s.wire + s.queue + [] == s.wire + s.queue;
          EnqueueKeeps(s, s.writer.b, full);
        }
      case InitQueue(_) =>
      case Interrupt(ready, _) => TransmitKeeps(s, if ready < |s.queue| then ready else |s.queue|);
      case Flush => TransmitKeeps(s, |s.queue|);
      case Notify(_) =>
    }
  }

  /** The states after each of the events, which must all be possible. */
  predicate Runs(s: State, events: seq<Event>, end: State)
    decreases |events|
  {
    if events == [] then s == end else Step(s, events[0]).Next? && Runs(Step(s, events[0]).state, events[1..], end)
  }

  /** What was given to serial_putc(). */
  function PassedIn(events: seq<Event>): seq<Byte> {
    if events == [] then []
    else (if events[0].Putc? then [events[0].b] else []) + PassedIn(events[1..])
  }

  lemma StepLogs(s: State, e: Event)
    requires Inv(s) && Step(s, e).Next?
    ensures Step(s, e).state.passed == s.passed + if e.Putc? then [e.b] else []
  {
    match e {
      case Putc(b, off, _) =>
        if s.mode == Queue && off && Full(s) {
          TransmitKeeps(s, 1);
          LogOnly(s, s.passed + [b], 1);
        }
      case Interrupt(ready, _) => TransmitKeeps(s, if ready < |s.queue| then ready else |s.queue|);
      case Flush => TransmitKeeps(s, |s.queue|);
      case _ =>
    }
  }

  lemma {:induction false} RunKeeps(s: State, events: seq<Event>, end: State)
    requires Inv(s) && Runs(s, events, end)
    ensures Inv(end) && end.passed == s.passed + PassedIn(events)
    decreases |events|
  {
    hide Inv, Step;
    if events != [] {
      StepKeeps(s, events[0]);
      StepLogs(s, events[0]);
      RunKeeps(Step(s, events[0]).state, events[1..], end);
      PassedFirst(s.passed, events);
    }
  }

  lemma PassedFirst(before: seq<Byte>, events: seq<Event>)
    requires events != []
    ensures before + PassedIn(events)
         == before + (if events[0].Putc? then [events[0].b] else []) + PassedIn(events[1..])
  {
  }

  /** Over every run: the bytes on the wire, then those queued, then the one a sleeping writer holds, are the
      bytes passed to serial_putc(), in order; queued bytes have the transmit interrupt enabled; a sleeping
      writer has a full queue in front of it, so that an interrupt will wake it. */
  lemma Lossless(events: seq<Event>, end: State)
    requires Runs(INIT, events, end)
    ensures PassedIn(events) == end.wire + end.queue + Pending(end.writer)
    ensures end.mode == Queue && end.queue != [] ==> end.xmit
    ensures end.writer.Asleep? ==> end.mode == Queue && end.notFull && Full(end) && end.xmit
    ensures end.writer.Woken? ==> !Full(end)
  {
    RunKeeps(INIT, events, end);
    assert [] + PassedIn(events) == PassedIn(events);
  }

  /** What serial_putc() does in queue mode: the byte joins the queue; if that is full, a caller with interrupts on
      goes to sleep, and one with interrupts off first sends the oldest byte itself. */
  lemma PutcMeans(s: State, b: Byte, interruptsOff: bool, inputFull: bool)
    requires Inv(s) && s.writer == Idle && s.mode == Queue
    ensures var o := Step(s, Putc(b, interruptsOff, inputFull));
      && o.Next?
      && var t := o.state;
         if |s.queue| < BUFSIZE - 1 then t.queue == s.queue + [b] && t.wire == s.wire && t.writer == Idle
         else if interruptsOff then t.queue == s.queue[1..] + [b] && t.wire == s.wire + [s.queue[0]] && t.writer == Idle
         else t.queue == s.queue && t.wire == s.wire && t.writer == Asleep(b)
  {
    if interruptsOff && Full(s) {
      TransmitKeeps(s, 1);
      LogOnly(s, s.passed + [b], 1);
      var t := s.(passed := s.passed + [b]);
      assert Transmit(t, 1).Next?;
    }
  }

  /** The event tells whether the input buffer is full, and comes to the end of its call in queue mode. */
  predicate Updates(e: Event, t: State, inputFull: bool) {
    && t.mode == Queue && !e.Flush? && e.inputFull == inputFull
    && ((e.Putc? || e.Resume?) ==> t.writer == Idle)
  }

  /** Then the transmit interrupt is enabled if and only if a byte is queued, and the receive interrupt if and only
      if the input buffer has room. */
  lemma InterruptsEnabled(s: State, e: Event, inputFull: bool)
    requires Inv(s) && Step(s, e).Next? && Updates(e, Step(s, e).state, inputFull)
    ensures var t := Step(s, e).state; (t.xmit <==> t.queue != []) && (t.recv <==> !inputFull)
  {
    match e {
      case Putc(b, off, _) => if s.mode == Queue && off && Full(s) { PutcMeans(s, b, off, inputFull); }
      case _ =>
    }
  }

  // ----- everything drains -----

  /** A step that moves a byte: an interrupt in which the port takes at least one, or the writer going on. */
  predicate Moves(s: State, e: Event) {
    e.Resume? || (e.Interrupt? && e.ready > 0 && s.queue != [])
  }

  /** How often a byte must still be moved: from the writer to the queue, from the queue to the wire. */
  function Unmoved(s: State): nat {
    |s.queue| + 2 * |Pending(s.writer)|
  }

  function MovesOf(s: State, events: seq<Event>): nat
    decreases |events|
  {
    if events == [] || !Step(s, events[0]).Next? then 0
    else (if Moves(s, events[0]) then 1 else 0) + MovesOf(Step(s, events[0]).state, events[1..])
  }

  lemma StepMoves(s: State, e: Event)
    requires Inv(s) && !e.Putc? && Step(s, e).Next?
    ensures Unmoved(Step(s, e).state) + (if Moves(s, e) then 1 else 0) <= Unmoved(s)
  {
    match e {
      case Interrupt(ready, _) => TransmitKeeps(s, if ready < |s.queue| then ready else |s.queue|);
      case Flush => TransmitKeeps(s, |s.queue|);
      case _ =>
    }
  }

  lemma {:induction false} RunMoves(s: State, events: seq<Event>, end: State)
    requires Inv(s) && Runs(s, events, end) && forall e :: e in events ==> !e.Putc?
    ensures Unmoved(end) + MovesOf(s, events) <= Unmoved(s)
    decreases |events|
  {
    if events != [] {
      StepKeeps(s, events[0]);
      StepMoves(s, events[0]);
      hide Inv, Step, Unmoved, Moves;
      RunMoves(Step(s, events[0]).state, events[1..], end);
    }
  }

  /** Once nothing more is passed in, at most |queue| + 2 * |pending| interrupts and resumptions move a byte,
      in whatever order and between whatever else; as long as there is anything to move one of them is
      possible; and when there is not, all that was passed is on the wire in order. */
  lemma Drains(s: State, events: seq<Event>, end: State)
    requires Inv(s) && Runs(s, events, end) && forall e :: e in events ==> !e.Putc?
    ensures MovesOf(s, events) <= Unmoved(s) <= BUFSIZE + 1
    ensures Unmoved(end) > 0 ==>
      exists e: Event :: !e.Putc? && Moves(end, e) && Step(end, e).Next?
    ensures Unmoved(end) == 0 ==> end.wire == end.passed == s.passed
    ensures Unmoved(s) <= MovesOf(s, events) ==> end.wire == end.passed == s.passed
  {
    RunMoves(s, events, end);
    RunKeeps(s, events, end);
    NothingPassed(events);
    if Unmoved(end) > 0 {
      CanMove(end);
    }
    assert s.passed + [] == s.passed;
    assert Unmoved(end) == 0 ==> end.wire + [] + [] == end.wire;
  }

  lemma CanMove(s: State)
    requires Inv(s) && Unmoved(s) > 0
    ensures exists e: Event :: !e.Putc? && Moves(s, e) && Step(s, e).Next?
  {
    var e := if s.queue != [] then Interrupt(1, false) else Resume(false);
    StepKeeps(s, e);
    assert Moves(s, e) && Step(s, e).Next?;
  }

  lemma {:induction false} NothingPassed(events: seq<Event>)
    requires forall e :: e in events ==> !e.Putc?
    ensures PassedIn(events) == []
    decreases |events|
  {
    if events != [] {
      NothingPassed(events[1..]);
    }
  }
}
