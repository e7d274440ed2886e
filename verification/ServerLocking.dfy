/**
 Mutual exclusion and serialisability of the connection threads, for every interleaving.
 The argument: whoever holds the mutex is on the course that the serial run in lock order
 prescribes for it; every step keeps that, and so does everything that arrives meanwhile.
 */
module ServerLocking {
  import opened Bytes
  import opened Commands
  import opened DeviceSpec
  import opened Connections
  import ConnectionTheorems
  import opened Servers

  predicate BeforeLock(pc: Pc) {
    pc.Starting? || pc.AtLock?
  }

  /** Only created threads have taken the mutex. */
  predicate OrderInRange(s: State) {
    forall i :: 0 <= i < |s.order| ==> s.order[i] < |s.threads|
  }

  // ----- the mutex

  /** The owner of the mutex is the one thread inside the locked region. */
  ghost predicate RegionInv(s: State) {
    && (s.owner.Some? ==> s.owner.value < |s.threads|)
    && (forall t :: 0 <= t < |s.threads| ==> (Locked(s.threads[t].pc) <==> s.owner == Some(t)))
  }

  /** Every lock but the owner's has been given back, in the order of acquisition; nobody takes it twice. */
  ghost predicate OrderInv(s: State) {
    && s.order == s.released + (if s.owner.Some? then [s.owner.value] else [])
    && Distinct(s.order)
    && OrderInRange(s)
    && (forall t :: 0 <= t < |s.threads| ==> (t in s.order <==> !BeforeLock(s.threads[t].pc)))
  }

  ghost predicate LockInv(s: State) {
    RegionInv(s) && OrderInv(s)
  }

  /** Where a turn of the receive loop leads, and what it leaves alone. */
  lemma ReceiveMoves(l: Log, th: Thread)
    requires LogFits(l) && th.pc.InRecv?
    ensures var next := ReceiveNext(l, th).1;
            && next == th.(pc := next.pc, events := next.events, pos := next.pos, ending := next.ending)
            && (next.pc.InRecv? || next.pc.AtRecv? || next.pc.Sending? || next.pc.FailFlags?)
            && next.ending == if next.pc.FailFlags? then Failed else th.ending
  {
    hide HandleChunk, LogFits;
  }

  /** Where a turn of the send loop leads, and what it leaves alone. */
  lemma SendMoves(l: Log, th: Thread)
    requires LogFits(l) && th.pc.Sending?
    ensures var next := SendNext(l, th);
            && next.input == th.input && next.complete == th.complete
            && match next.pc
               case Sending => next.ending == th.ending
               case FailFlags => next.ending == Failed
               case DoneUnlock => next.ending == Completed
               case InSend => next.ending == Stalled
               case _ => false
  {
    hide ReadAt, LogFits, Content;
  }

  lemma ThreadPcs(l: Log, th: Thread, closed: bool)
    requires LogFits(l)
    ensures var next := ThreadNext(l, th, closed).1;
            && (next.input == th.input || th.pc.AtRecv? || th.pc.Sending?)
            && (Locked(next.pc) <==> th.pc.AtLock? || (Locked(th.pc) && !Unlocks(th.pc)))
            && (BeforeLock(next.pc) <==> th.pc.Starting?)
  {
    hide LogFits, Consumed, ReceiveNext, SendNext;
    if th.pc.InRecv? {
      ReceiveMoves(l, th);
    } else if th.pc.Sending? {
      SendMoves(l, th);
    }
  }

  lemma LockedPcs(pc: Pc)
    ensures pc.AtLock? || pc.Starting? ==> !Locked(pc)
    ensures Unlocks(pc) ==> Locked(pc)
  {
  }

  lemma RegionKept(s: State, a: Action)
    requires LogFits(s.log) && RegionInv(s) && Enabled(s, a)
    ensures RegionInv(Next(s, a))
  {
    hide ThreadNext, LogFits, Locked, Unlocks, MainMoves;
    if a.ThreadStep? {
      ThreadPcs(s.log, s.threads[a.t], a.t in s.closed);
      LockedPcs(s.threads[a.t].pc);
    } else if a.AcceptOne? {
      LockedPcs(Starting);
    }
  }

  lemma OrderKeptByThread(s: State, t: Tid)
    requires LogFits(s.log) && LockInv(s) && Enabled(s, ThreadStep(t))
    ensures OrderInv(Next(s, ThreadStep(t)))
  {
    hide ThreadNext, LogFits, Blocked;
    ThreadPcs(s.log, s.threads[t], t in s.closed);
    var s' := Next(s, ThreadStep(t));
    var takes := s.threads[t].pc.AtLock?;
    if takes {
      assert t !in s.order;
      assert s'.order[|s.order|] == t;
    }
    hide Distinct, Locked;
    forall u | 0 <= u < |s'.threads|
      ensures u in s'.order <==> !BeforeLock(s'.threads[u].pc)
    {
      assert u in s'.order <==> u in s.order || (takes && u == t);
    }
  }

  lemma OrderKept(s: State, a: Action)
    requires LogFits(s.log) && LockInv(s) && Enabled(s, a)
    ensures OrderInv(Next(s, a))
  {
    if a.ThreadStep? {
      OrderKeptByThread(s, a.t);
    } else {
      hide LogFits, Locked, MainMoves, Distinct;
      var s' := Next(s, a);
      if a.AcceptOne? {
        assert |s.threads| !in s.order;
      }
    }
  }

  /** Every step keeps the mutex facts. */
  lemma LockKept(s: State, a: Action)
    requires LogFits(s.log) && LockInv(s) && Enabled(s, a)
    ensures LockInv(Next(s, a))
  {
    hide LogFits, Enabled, Next, RegionInv, OrderInv;
    RegionKept(s, a);
    OrderKept(s, a);
  }

  // ----- the serial run

  /** The device after serving the inputs one after another. */
  function SerialLog(l: Log, inputs: seq<Input>): (r: Log)
    requires LogFits(l)
    ensures LogFits(r)
  {
    if inputs == [] then l else Body(SerialLog(l, inputs[..|inputs| - 1]), inputs[|inputs| - 1]).log
  }

  /** What the i-th connection of the serial run leads to. */
  function SerialOutcome(l: Log, inputs: seq<Input>, i: nat): Outcome
    requires LogFits(l) && i < |inputs|
  {
    Body(SerialLog(l, inputs[..i]), inputs[i])
  }

  lemma SerialStep(l: Log, inputs: seq<Input>)
    requires LogFits(l) && inputs != []
    ensures SerialLog(l, inputs) == SerialOutcome(l, inputs, |inputs| - 1).log
  {
  }

  /** The inputs of the threads in the order they took the mutex. */
  function InputsInOrder(s: State): (r: seq<Input>)
    requires OrderInRange(s)
    ensures |r| == |s.order|
    ensures forall i :: 0 <= i < |r| ==> r[i] == s.threads[s.order[i]].input
  {
    seq(|s.order|, i requires 0 <= i < |s.order| => s.threads[s.order[i]].input)
  }

  // ----- the course of one thread

  /** What the thread has received so far, alone on the device `from`, left the device and the position as they are. */
  predicate HeardSoFar(from: Log, l: Log, th: Thread)
    requires LogFits(from)
  {
    && th.input.events == Consumed(th) + th.events
    && RecvAll(from, 0, Consumed(th)) == Received(l, th.pos, Waiting)
  }

  function Prefixed(reply: seq<byte>, s: Sent): Sent {
    Sent(reply + s.data, s.verdict)
  }

  /** The turns of the send loop so far sent `reply` and came from `start` to `pos`, whatever turns follow. */
  ghost predicate SentSoFar(cmds: seq<Command>, start: nat, past: seq<SendEvent>, reply: seq<byte>, pos: nat) {
    forall more: seq<SendEvent> :: SendAll(cmds, start, past + more) == Prefixed(reply, SendAll(cmds, pos, more))
  }

  /** The thread is in its send loop as receiving alone on the device `from` and sending so far would have it. */
  ghost predicate OnSending(from: Log, l: Log, th: Thread)
    requires LogFits(from)
  {
    && th.input.opens
    && var r := RecvAll(from, 0, th.input.events);
       && r.verdict.Success? && r.log == l
       && SentSoFar(l.commands, r.pos, th.past, th.reply, th.pos)
       && SendAll(l.commands, r.pos, th.input.plan) == Prefixed(th.reply, SendAll(l.commands, th.pos, th.plan))
  }

  /** A thread that took the mutex on the device `from` is where serving its input alone would have it. */
  ghost predicate OnCourse(from: Log, l: Log, th: Thread)
    requires LogFits(from)
  {
    match th.pc
    case AtOpen => l == from
    case AtRecv => th.input.opens && HeardSoFar(from, l, th)
    case InRecv => th.input.opens && HeardSoFar(from, l, th)
    case Sending => OnSending(from, l, th)
    case _ => Outcome(l, th.reply, th.ending) == Body(from, th.input)
  }

  /**
   A thread that has not reached the send loop has its whole plan ahead of it and has sent nothing; only one
   inside a send that does not return is stalled.
   */
  predicate Fresh(th: Thread) {
    && (th.ending.Stalled? <==> th.pc.InSend?)
    && (BeforeLock(th.pc) || th.pc.AtOpen? ==> th.events == th.input.events && th.pos == 0 && th.ending.NotOpened?)
    && (Listens(th.pc) ==> th.plan == th.input.plan && th.past == [] && th.reply == [])
  }

  lemma FreshKept(l: Log, th: Thread, closed: bool)
    requires LogFits(l) && Fresh(th)
    ensures Fresh(ThreadNext(l, th, closed).1)
  {
    hide LogFits, Consumed, ReceiveNext, SendNext;
    if th.pc.InRecv? {
      ReceiveMoves(l, th);
    } else if th.pc.Sending? {
      SendMoves(l, th);
    }
  }

  /** One turn of the receive loop, and what is heard after it. */
  lemma RecvTurn(l: Log, pos: FilePos, events: seq<RecvEvent>)
    requires LogFits(l) && events != []
    ensures var e := events[0];
            if e.RecvError? || e.data == [] then RecvAll(l, pos, events) == Received(l, pos, Failure)
            else
              var r := HandleChunk(l, pos, e.data, e.env);
              if r.verdict.Success? && |e.data| >= BUFFER_SIZE then RecvAll(l, pos, [e]) == Received(r.log, r.pos, Waiting)
              else RecvAll(l, pos, events) == r
  {
    hide HandleChunk, LogFits;
    assert [events[0]][1..] == [];
  }

  /** The thread's input splits where it has got to. */
  lemma ConsumedMore(th: Thread, th': Thread)
    requires th.events != [] && th.input.events == Consumed(th) + th.events
    requires th'.input == th.input && th'.events == th.events[1..]
    ensures Consumed(th') == Consumed(th) + [th.events[0]]
    ensures th.input.events == Consumed(th') + th'.events
  {
    var k := |th.input.events| - |th.events|;
    assert th.input.events[k] == th.events[0];
    assert th.input.events[..k + 1] == th.input.events[..k] + [th.events[0]];
  }

  lemma SentNothing(s: Sent)
    ensures Prefixed([], s) == s
  {
    assert [] + s.data == s.data;
  }

  lemma SendingStarts(cmds: seq<Command>, pos: nat)
    ensures SentSoFar(cmds, pos, [], [], pos)
  {
    hide SendAll;
    forall more: seq<SendEvent>
      ensures SendAll(cmds, pos, [] + more) == Prefixed([], SendAll(cmds, pos, more))
    {
      assert [] + more == more;
      SentNothing(SendAll(cmds, pos, more));
    }
  }

  /** A turn of the receive loop stays on course. */
  lemma ReceivingKept(from: Log, l: Log, th: Thread)
    requires LogFits(from) && LogFits(l) && Fresh(th)
    requires th.pc.InRecv? && th.events != [] && OnCourse(from, l, th)
    ensures var next := ReceiveNext(l, th);
            OnCourse(from, next.0, next.1)
  {
    hide HandleChunk, LogFits, SendAll, RecvAll, Consumed, SentSoFar;
    RecvTurn(l, th.pos, th.events);
    var next := ReceiveNext(l, th);
    if next.1.pc.AtRecv? {
      ConsumedMore(th, next.1);
      ConnectionTheorems.RecvConcat(from, 0, Consumed(th), [th.events[0]]);
    } else {
      ConnectionTheorems.RecvConcat(from, 0, Consumed(th), th.events);
      if next.1.pc.Sending? {
        SendingStarts(next.0.commands, next.1.pos);
        SentNothing(SendAll(next.0.commands, next.1.pos, th.plan));
      }
    }
  }

  /** One turn of the send loop that sends. */
  lemma SendTurn(cmds: seq<Command>, pos: nat, plan: seq<SendEvent>)
    requires First(plan).fate.Sends? && !First(plan).env.interrupted && ReadAt(cmds, pos, BUFFER_SIZE) != []
    ensures var data := ReadAt(cmds, pos, BUFFER_SIZE);
            SendAll(cmds, pos, plan) == Prefixed(data, SendAll(cmds, pos + |data|, Rest(plan)))
  {
    hide ReadAt, Content;
  }

  lemma PrefixedTwice(a: seq<byte>, b: seq<byte>, s: Sent)
    ensures Prefixed(a, Prefixed(b, s)) == Prefixed(a + b, s)
  {
    assert a + (b + s.data) == a + b + s.data;
  }

  /** A turn that sends extends what was sent so far. */
  lemma SentMore(cmds: seq<Command>, start: nat, past: seq<SendEvent>, reply: seq<byte>, pos: nat, e: SendEvent)
    requires SentSoFar(cmds, start, past, reply, pos)
    requires e.fate.Sends? && !e.env.interrupted && ReadAt(cmds, pos, BUFFER_SIZE) != []
    ensures var data := ReadAt(cmds, pos, BUFFER_SIZE);
            SentSoFar(cmds, start, past + [e], reply + data, pos + |data|)
  {
    hide SendAll, ReadAt, Prefixed;
    var data := ReadAt(cmds, pos, BUFFER_SIZE);
    forall more: seq<SendEvent>
      ensures SendAll(cmds, start, past + [e] + more) == Prefixed(reply + data, SendAll(cmds, pos + |data|, more))
    {
      assert past + [e] + more == past + ([e] + more);
      assert First([e] + more) == e && Rest([e] + more) == more;
      SendTurn(cmds, pos, [e] + more);
      PrefixedTwice(reply, data, SendAll(cmds, pos + |data|, more));
    }
  }

  /** A turn of the send loop that ends it, or that does not return. */
  lemma SendEnds(cmds: seq<Command>, pos: nat, plan: seq<SendEvent>)
    ensures var e := First(plan);
            var data := ReadAt(cmds, pos, BUFFER_SIZE);
            && (e.env.interrupted || e.fate.Breaks? ==> SendAll(cmds, pos, plan) == Sent([], Failure))
            && (!e.env.interrupted && !e.fate.Breaks? && data == [] ==> SendAll(cmds, pos, plan) == Sent([], Success))
            && (!e.env.interrupted && e.fate.Stalls? && data != [] ==> SendAll(cmds, pos, plan) == Sent([], Waiting))
  {
    hide ReadAt, Content;
  }

  /** A turn of the send loop stays on course. */
  lemma SendingKept(from: Log, l: Log, th: Thread)
    requires LogFits(from) && LogFits(l) && th.pc.Sending? && OnCourse(from, l, th)
    ensures OnCourse(from, l, SendNext(l, th))
  {
    hide LogFits, RecvAll, SendAll, ReadAt, Content, SentSoFar;
    var next := SendNext(l, th);
    if next.pc.Sending? {
      var start := RecvAll(from, 0, th.input.events).pos;
      SentMore(l.commands, start, th.past, th.reply, th.pos, First(th.plan));
      SendTurn(l.commands, th.pos, th.plan);
      PrefixedTwice(th.reply, ReadAt(l.commands, th.pos, BUFFER_SIZE), SendAll(l.commands, next.pos, next.plan));
    } else {
      SendEnds(l.commands, th.pos, th.plan);
      assert th.reply + [] == th.reply;
    }
  }

  /** A recv on the closed descriptor is on course for the input that ends in its error. */
  lemma RecvFailsOnCourse(from: Log, l: Log, th: Thread)
    requires LogFits(from) && LogFits(l) && Fresh(th) && th.pc.AtRecv? && OnCourse(from, l, th)
    ensures OnCourse(from, l, RecvFails(th))
  {
    hide HandleChunk, LogFits, SendAll, RecvAll, Consumed;
    RecvTurn(l, th.pos, [RecvError]);
    ConnectionTheorems.RecvConcat(from, 0, Consumed(th), [RecvError]);
  }

  /** So is a send. */
  lemma SendFailsOnCourse(from: Log, l: Log, th: Thread)
    requires LogFits(from) && th.pc.Sending? && OnCourse(from, l, th)
    ensures OnCourse(from, l, SendFails(th))
  {
    hide LogFits, RecvAll, SendAll, Content;
    var start := RecvAll(from, 0, th.input.events).pos;
    assert SendAll(l.commands, start, th.past + [BROKEN]) == Prefixed(th.reply, SendAll(l.commands, th.pos, [BROKEN]));
    SendEnds(l.commands, th.pos, [BROKEN]);
    assert th.reply + [] == th.reply;
  }

  /** A step that is neither on the device nor on the socket. */
  lemma QuietStepKept(from: Log, l: Log, th: Thread)
    requires LogFits(from) && LogFits(l) && Fresh(th)
    requires Locked(th.pc) && !th.pc.InRecv? && !th.pc.Sending? && !th.pc.InSend? && OnCourse(from, l, th)
    ensures var next := ThreadNext(l, th, false);
            OnCourse(from, next.0, next.1)
  {
    hide ReceiveNext, SendNext, SendAll, LogFits, SentSoFar, HandleChunk, RecvFails;
    assert th.pc.AtOpen? ==> Consumed(th) == [];
  }

  /** Every step inside the locked region stays on course. */
  lemma CourseKept(from: Log, l: Log, th: Thread, closed: bool)
    requires LogFits(from) && LogFits(l) && Fresh(th)
    requires Locked(th.pc) && !Blocked(th) && OnCourse(from, l, th)
    ensures var next := ThreadNext(l, th, closed);
            OnCourse(from, next.0, next.1)
  {
    hide HandleChunk, ReadAt, Content, Body, RecvAll;
    if th.pc.InRecv? {
      ReceivingKept(from, l, th);
    } else if th.pc.Sending? && closed {
      SendFailsOnCourse(from, l, th);
    } else if th.pc.Sending? {
      SendingKept(from, l, th);
    } else if th.pc.AtRecv? && closed {
      RecvFailsOnCourse(from, l, th);
    } else {
      QuietStepKept(from, l, th);
    }
  }

  /** What arrives for a listening thread keeps it on course. */
  lemma ArrivalKept(from: Log, l: Log, th: Thread, e: RecvEvent)
    requires LogFits(from) && Listens(th.pc) && Fresh(th)
    ensures Fresh(Delivered(th, e))
    ensures !BeforeLock(th.pc) && OnCourse(from, l, th) ==> OnCourse(from, l, Delivered(th, e))
  {
    hide RecvAll, LogFits;
    if (th.pc.AtRecv? || th.pc.InRecv?) && OnCourse(from, l, th) {
      assert Consumed(Delivered(th, e)) == Consumed(th);
      assert Consumed(th) + th.events + [e] == Consumed(th) + (th.events + [e]);
    }
  }

  // ----- the simulation

  /** The device that the last thread to take the mutex found. */
  ghost function FoundBy(l: Log, s: State): (r: Log)
    requires LogFits(l) && OrderInRange(s) && s.order != []
    ensures LogFits(r)
  {
    SerialLog(l, InputsInOrder(s)[..|s.order| - 1])
  }

  /** The i-th thread to give the mutex back has the reply and the ending of the serial run. */
  ghost predicate Answered(l: Log, s: State, i: nat)
    requires LogFits(l) && LockInv(s) && i < |s.released|
  {
    var o := SerialOutcome(l, InputsInOrder(s), i);
    s.threads[s.order[i]].reply == o.reply && s.threads[s.order[i]].ending == o.ending
  }

  /** The simulation invariant. */
  ghost predicate SerialInv(l: Log, s: State)
    requires LogFits(l) && LockInv(s)
  {
    && (forall t :: 0 <= t < |s.threads| ==> Fresh(s.threads[t]))
    && (s.owner.None? ==> s.log == SerialLog(l, InputsInOrder(s)))
    && (s.owner.Some? ==> OnCourse(FoundBy(l, s), s.log, s.threads[s.owner.value]))
    && (forall i :: 0 <= i < |s.released| ==> Answered(l, s, i))
  }

  lemma SerialStart(l: Log)
    requires LogFits(l)
    ensures LockInv(Initial(l)) && SerialInv(l, Initial(l))
  {
  }

  /** Outside the locked region a thread changes neither the device nor its answer. */
  lemma OutsideKeeps(l: Log, th: Thread, closed: bool)
    requires LogFits(l)
    ensures var next := ThreadNext(l, th, closed);
            !Locked(th.pc) ==> next.0 == l && next.1.reply == th.reply && next.1.ending == th.ending
  {
  }

  /** A released position is not the owner's. */
  lemma DistinctPositions(s: State, i: nat)
    requires LockInv(s) && i < |s.released|
    ensures s.owner != Some(s.order[i])
  {
    assert s.owner.Some? ==> s.order[|s.released|] == s.owner.value;
  }

  /** No step changes what a thread that gave the mutex back has met, sent or come to. */
  lemma ReleasedKept(s: State, a: Action, i: nat)
    requires LogFits(s.log) && LockInv(s) && Enabled(s, a) && i < |s.released|
    ensures var s' := Next(s, a);
            && |s'.threads| >= |s.threads| && i < |s'.order| && s'.order[i] == s.order[i] < |s.threads|
            && s.released <= s'.released
            && var th, th' := s.threads[s.order[i]], s'.threads[s.order[i]];
               th'.input == th.input && th'.reply == th.reply && th'.ending == th.ending
  {
    hide LogFits, ThreadNext, MainMoves, Distinct, Blocked;
    var u := s.order[i];
    assert !BeforeLock(s.threads[u].pc) by { assert u in s.order; }
    assert s.owner != Some(u) by { DistinctPositions(s, i); }
    assert !Listens(s.threads[u].pc);
    OutsideKeeps(s.log, s.threads[u], u in s.closed);
    ThreadPcs(s.log, s.threads[u], u in s.closed);
  }

  /** The inputs of the threads that gave the mutex back do not change any more. */
  lemma PrefixKept(s: State, a: Action, n: nat)
    requires LogFits(s.log) && LockInv(s) && Enabled(s, a) && LockInv(Next(s, a))
    requires n <= |s.released|
    ensures n <= |s.order| && n <= |Next(s, a).order|
    ensures InputsInOrder(Next(s, a))[..n] == InputsInOrder(s)[..n]
  {
    hide LogFits, Next, Enabled, RegionInv;
    forall i | 0 <= i < n { ReleasedKept(s, a, i); }
    if n > 0 { ReleasedKept(s, a, n - 1); }
  }

  lemma AnswersKept(l: Log, s: State, a: Action, i: nat)
    requires LogFits(l) && LogFits(s.log) && LockInv(s) && Enabled(s, a) && LockInv(Next(s, a))
    requires i < |s.released| && Answered(l, s, i)
    ensures i < |Next(s, a).released| && Answered(l, Next(s, a), i)
  {
    hide LogFits, Body, SerialLog, Next, Enabled, RegionInv;
    var s' := Next(s, a);
    PrefixKept(s, a, i + 1);
    assert InputsInOrder(s')[..i] == InputsInOrder(s')[..i + 1][..i];
    assert InputsInOrder(s)[..i] == InputsInOrder(s)[..i + 1][..i];
    assert InputsInOrder(s')[i] == InputsInOrder(s')[..i + 1][i];
    ReleasedKept(s, a, i);
  }

  lemma NewIsFresh(input: Input)
    ensures Fresh(NewThread(input))
  {
  }

  /** Arrivals and the main thread. */
  lemma SerialKeptByOthers(l: Log, s: State, a: Action)
    requires LogFits(l) && LogFits(s.log) && LockInv(s) && SerialInv(l, s) && Enabled(s, a) && !a.ThreadStep?
    requires LockInv(Next(s, a))
    requires forall i :: 0 <= i < |s.released| ==> i < |Next(s, a).released| && Answered(l, Next(s, a), i)
    ensures SerialInv(l, Next(s, a))
  {
    hide LogFits, SerialLog, OnCourse, MainMoves, Answered, Fresh, Distinct;
    var s' := Next(s, a);
    PrefixKept(s, a, |s.released|);
    if a.Arrive? {
      var from := if s.owner == Some(a.t) then FoundBy(l, s) else l;
      ArrivalKept(from, s.log, s.threads[a.t], a.event);
    } else if a.AcceptOne? {
      NewIsFresh(a.input);
    }
    if s.owner.None? {
      assert InputsInOrder(s')[..|s.released|] == InputsInOrder(s');
      assert InputsInOrder(s)[..|s.released|] == InputsInOrder(s);
    }
  }

  /** Taking the mutex makes the thread the next connection of the serial run. */
  lemma LockTaken(l: Log, s: State, t: Tid)
    requires LogFits(l) && LogFits(s.log) && LockInv(s) && SerialInv(l, s) && Enabled(s, ThreadStep(t))
    requires s.threads[t].pc.AtLock?
    requires LockInv(Next(s, ThreadStep(t)))
    ensures var s' := Next(s, ThreadStep(t));
            s'.owner == Some(t) && OnCourse(FoundBy(l, s'), s'.log, s'.threads[t])
  {
    hide LogFits, SerialLog, Answered;
    var s' := Next(s, ThreadStep(t));
    var inputs := InputsInOrder(s');
    assert inputs[..|inputs| - 1] == InputsInOrder(s);
  }

  lemma UnlockKeepsAnswer(l: Log, th: Thread, closed: bool)
    requires LogFits(l) && Unlocks(th.pc)
    ensures var next := ThreadNext(l, th, closed);
            next.0 == l && next.1.reply == th.reply && next.1.ending == th.ending
  {
  }

  /** Giving it back fixes the thread's answer and the device state. */
  lemma LockReleased(l: Log, s: State, t: Tid)
    requires LogFits(l) && LogFits(s.log) && LockInv(s) && Enabled(s, ThreadStep(t))
    requires Unlocks(s.threads[t].pc) && s.owner == Some(t)
    requires OnCourse(FoundBy(l, s), s.log, s.threads[t])
    requires LockInv(Next(s, ThreadStep(t)))
    ensures var s' := Next(s, ThreadStep(t));
            && s'.owner.None? && |s'.released| == |s.released| + 1
            && s'.log == SerialLog(l, InputsInOrder(s'))
            && Answered(l, s', |s.released|)
  {
    hide LogFits, Body, SerialLog, ThreadNext, Distinct;
    var s' := Next(s, ThreadStep(t));
    var inputs := InputsInOrder(s);
    UnlockKeepsAnswer(s.log, s.threads[t], t in s.closed);
    ThreadPcs(s.log, s.threads[t], t in s.closed);
    assert InputsInOrder(s') == inputs;
    SerialStep(l, inputs);
    assert s.order[|s.released|] == t;
  }

  lemma SerialKeptByThread(l: Log, s: State, t: Tid)
    requires LogFits(l) && LogFits(s.log) && LockInv(s) && SerialInv(l, s) && Enabled(s, ThreadStep(t))
    requires LockInv(Next(s, ThreadStep(t)))
    requires var s' := Next(s, ThreadStep(t));
             forall i :: 0 <= i < |s.released| ==> i < |s'.released| && Answered(l, s', i)
    ensures SerialInv(l, Next(s, ThreadStep(t)))
  {
    hide LogFits, SerialLog, OnCourse, Answered, Fresh, Distinct, ThreadNext;
    var a := ThreadStep(t);
    var s' := Next(s, a);
    var th, closed := s.threads[t], t in s.closed;
    FreshKept(s.log, th, closed);
    ThreadPcs(s.log, th, closed);
    if th.pc.AtLock? {
      LockTaken(l, s, t);
    } else {
      PrefixKept(s, a, |s.released|);
      OutsideKeeps(s.log, th, closed);
      if s.owner.None? {
        assert InputsInOrder(s')[..|s.released|] == InputsInOrder(s');
        assert InputsInOrder(s)[..|s.released|] == InputsInOrder(s);
      }
      if Locked(th.pc) {
        CourseKept(FoundBy(l, s), s.log, th, closed);
        if Unlocks(th.pc) {
          LockReleased(l, s, t);
        }
      }
    }
  }

  lemma SerialKept(l: Log, s: State, a: Action)
    requires LogFits(l) && LogFits(s.log) && LockInv(s) && SerialInv(l, s) && Enabled(s, a)
    ensures LockInv(Next(s, a)) && SerialInv(l, Next(s, a))
  {
    LockKept(s, a);
    hide LogFits, LockInv, Next, Enabled, OnCourse, Fresh, Answered, FoundBy;
    forall i | 0 <= i < |s.released| { AnswersKept(l, s, a, i); }
    if a.ThreadStep? {
      SerialKeptByThread(l, s, a.t);
    } else {
      SerialKeptByOthers(l, s, a);
    }
  }
}
