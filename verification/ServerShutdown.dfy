/**
 When the server can go on, when a shutdown comes to an end, and when it does not: a client that
 stays silent while its thread is inside recv or send holds up everything behind it, while closing
 the descriptor of a thread that is not there yet makes that thread fail and go.
 */
module ServerShutdown {
  import opened Bytes
  import opened Commands
  import opened DeviceSpec
  import opened Connections
  import opened ConnectionStalls
  import opened Servers
  import opened ServerLocking
  import opened ServerLifetime
  import opened ServerTheorems
  import opened ServerLoop

  // ----- when the server is stuck

  /** The server can do nothing by itself; only what a client sends could move it. */
  ghost predicate Stuck(s: State) {
    forall a :: Enabled(s, a) ==> a.Arrive?
  }

  /**
   The main thread is draining and waits for a thread that has not exited, the owner of the mutex is inside
   a recv or send that waits for its client, and every other thread that has not exited waits for the mutex.
   */
  predicate WaitsForClient(s: State) {
    && s.main.DrainJoining? && s.main.t < |s.threads| && !s.threads[s.main.t].pc.Exited?
    && s.owner.Some? && s.owner.value < |s.threads| && Blocked(s.threads[s.owner.value])
    && forall u :: 0 <= u < |s.threads| && u != s.owner.value ==> s.threads[u].pc.Exited? || s.threads[u].pc.AtLock?
  }

  lemma WaitingIsStuck(s: State)
    requires WaitsForClient(s)
    ensures Stuck(s)
  {
    hide Blocked;
  }

  /** A flagged thread is at its unlock or gone: reaping never waits for a client. */
  lemma WhileReaping(s: State, t: Tid) returns (a: Action)
    requires s.main.Joining? && s.main.t == t && t < |s.threads| && s.threads[t].complete && JoinInv(s)
    ensures Enabled(s, a) && !a.Arrive?
  {
    assert FlagInv(s.threads[t]);
    a := if s.threads[t].pc.Exited? then Join else ThreadStep(t);
  }

  lemma WhileDraining(s: State, t: Tid) returns (a: Action)
    requires RegionInv(s) && s.main == DrainJoining(t) && t < |s.threads| && !WaitsForClient(s)
    ensures Enabled(s, a) && !a.Arrive?
  {
    if s.threads[t].pc.Exited? {
      a := DrainJoin;
    } else if s.owner.None? {
      a := ThreadStep(t);
    } else if !Blocked(s.threads[s.owner.value]) {
      a := ThreadStep(s.owner.value);
      assert Locked(s.threads[s.owner.value].pc);
    } else {
      var u :| 0 <= u < |s.threads| && u != s.owner.value && !s.threads[u].pc.Exited? && !s.threads[u].pc.AtLock?;
      a := ThreadStep(u);
      assert !Locked(s.threads[u].pc);
    }
  }

  lemma SomeStep(s: State) returns (a: Action)
    requires LockInv(s) && CursorInv(s) && ListInv(s) && JoinInv(s)
    requires !s.main.Stopped? && !WaitsForClient(s)
    ensures Enabled(s, a) && !a.Arrive?
  {
    hide OrderInv;
    match s.main
    case LoopHead => a := LoopTest(true);
    case Scanning(_) => a := Scan;
    case Joining(t, _) => a := WhileReaping(s, t);
    case Freeing(_, _) => a := Free;
    case Accepting => a := AcceptNone;
    case Inserting(_) => a := Insert;
    case Draining => a := Drain;
    case DrainJoining(t) =>
      assert s.list[0] in s.list;
      a := WhileDraining(s, t);
    case DrainFreeing(_) => a := DrainFree;
    case Destroying => a := Destroy;
  }

  /** In every state of every run before it has stopped, the server is stuck exactly when it waits for a client that way. */
  lemma StuckExactly(l: Log, actions: seq<Action>)
    requires LogFits(l) && !After(l, actions).main.Stopped?
    ensures Stuck(After(l, actions)) <==> WaitsForClient(After(l, actions))
  {
    hide After, SerialInv, LogFits, HeapInv;
    EveryStateSound(l, actions);
    var s := After(l, actions);
    if WaitsForClient(s) {
      WaitingIsStuck(s);
    } else {
      var a := SomeStep(s);
    }
  }

  // ----- concrete runs

  lemma Follow(l: Log, actions: seq<Action>, a: Action, s: State, s': State)
    requires LogFits(l) && LogFits(s.log)
    requires After(l, actions) == s && Enabled(s, a) && Next(s, a) == s'
    ensures After(l, actions + [a]) == s'
  {
    hide LogFits, Next, Enabled, After;
    OneMore(l, actions, a);
  }

  /** A first client connects and its record is in the list. */
  function ConnectRun(input: Input): seq<Action> {
    [LoopTest(false)] + [Scan] + [AcceptOne(input)] + [Insert]
  }

  function Connected(l: Log, input: Input): State {
    State(l, None, [NewThread(input)], [], [], LoopHead, [0], {}, {}, {}, {Mutex, Conn(0), Handle(0), Node(0)}, [])
  }

  lemma NothingDone(l: Log)
    requires LogFits(l)
    ensures After(l, []) == Initial(l)
  {
  }

  lemma Connects(l: Log, input: Input)
    requires LogFits(l) && InputAllowed(input)
    ensures After(l, ConnectRun(input)) == Connected(l, input)
  {
    hide LogFits, After, InputAllowed;
    var s := Initial(l);
    var s1, s2 := s.(main := Scanning([])), s.(main := Accepting);
    var s3 := s.(main := Inserting(0), threads := [NewThread(input)], live := {Mutex, Conn(0), Handle(0)});
    NothingDone(l);
    Follow(l, [], LoopTest(false), s, s1);
    assert [] + [LoopTest(false)] == [LoopTest(false)];
    Follow(l, [LoopTest(false)], Scan, s1, s2);
    Follow(l, [LoopTest(false)] + [Scan], AcceptOne(input), s2, s3);
    Follow(l, [LoopTest(false)] + [Scan] + [AcceptOne(input)], Insert, s3, Connected(l, input));
  }

  /** Its thread takes the mutex and comes to open the device. */
  function LockRun(input: Input): seq<Action> {
    ConnectRun(input) + [ThreadStep(0)] + [ThreadStep(0)]
  }

  function AtOpening(l: Log, input: Input): State {
    Connected(l, input).(threads := [NewThread(input).(pc := AtOpen)], owner := Some(0), order := [0])
  }

  lemma TakesLock(l: Log, input: Input)
    requires LogFits(l) && InputAllowed(input)
    ensures After(l, LockRun(input)) == AtOpening(l, input)
  {
    hide LogFits, After, InputAllowed, ConnectRun;
    Connects(l, input);
    var s := Connected(l, input);
    var s1 := s.(threads := [NewThread(input).(pc := AtLock)]);
    Follow(l, ConnectRun(input), ThreadStep(0), s, s1);
    Follow(l, ConnectRun(input) + [ThreadStep(0)], ThreadStep(0), s1, AtOpening(l, input));
  }

  /** A client whose device opens and that never says a word. */
  const SILENT: Input := Input(true, [], [])

  /** Its thread gets into recv, and then the server is told to quit. */
  function SilentRun(): seq<Action> {
    LockRun(SILENT) + [ThreadStep(0)] + [ThreadStep(0)] + [LoopTest(true)] + [Drain]
  }

  /** Such a client makes a shutdown hang on any device: the server is stuck and has not stopped. */
  lemma SilentClientBlocksShutdown(l: Log)
    requires LogFits(l)
    ensures Stuck(After(l, SilentRun())) && After(l, SilentRun()).main == DrainJoining(0)
  {
    hide LogFits, After, LockRun, Stuck;
    TakesLock(l, SILENT);
    var s := AtOpening(l, SILENT);
    var s1 := s.(threads := [NewThread(SILENT).(pc := AtRecv)]);
    var s2 := s.(threads := [NewThread(SILENT).(pc := InRecv)]);
    var s3 := s2.(main := DrainJoining(0), closed := {0});
    Follow(l, LockRun(SILENT), ThreadStep(0), s, s1);
    Follow(l, LockRun(SILENT) + [ThreadStep(0)], ThreadStep(0), s1, s2);
    Follow(l, LockRun(SILENT) + [ThreadStep(0)] + [ThreadStep(0)], LoopTest(true), s2, s2.(main := Draining));
    Follow(l, LockRun(SILENT) + [ThreadStep(0)] + [ThreadStep(0)] + [LoopTest(true)], Drain, s2.(main := Draining), s3);
    WaitingIsStuck(s3);
  }

  /** The same client when the server is told to quit first: its descriptor is closed before its thread has run. */
  function QuitFirstRun(): seq<Action> {
    ConnectRun(SILENT) + [LoopTest(true)] + [Drain]
  }

  /** Then its thread runs to its end, failing in recv, and the main thread joins it and stops. */
  function StopRun(): seq<Action> {
    QuitFirstRun() + [ThreadStep(0)] + [ThreadStep(0)] + [ThreadStep(0)] + [ThreadStep(0)] + [ThreadStep(0)] + [ThreadStep(0)]
    + [DrainJoin] + [DrainFree] + [Drain] + [Destroy]
  }

  function QuitFirst(l: Log): State {
    Connected(l, SILENT).(main := DrainJoining(0), closed := {0})
  }

  lemma QuitsFirst(l: Log)
    requires LogFits(l)
    ensures After(l, QuitFirstRun()) == QuitFirst(l)
  {
    hide LogFits, After, ConnectRun;
    Connects(l, SILENT);
    var s := Connected(l, SILENT);
    Follow(l, ConnectRun(SILENT), LoopTest(true), s, s.(main := Draining));
    Follow(l, ConnectRun(SILENT) + [LoopTest(true)], Drain, s.(main := Draining), QuitFirst(l));
  }

  /** Its thread after recv has failed on the closed descriptor, on its way out. */
  function CutOff(pc: Pc, complete: bool): Thread {
    Thread(pc, Input(true, [RecvError], []), [], [], [], 0, [], Failed, complete)
  }

  lemma RecvCutOff()
    ensures RecvFails(NewThread(SILENT).(pc := AtRecv)) == CutOff(FailFlags, false)
  {
    assert [] + [RecvError] == [RecvError];
  }

  /** Its thread takes the mutex and comes to recv. */
  lemma ComesToRecv(l: Log)
    requires LogFits(l)
    ensures After(l, QuitFirstRun() + [ThreadStep(0)] + [ThreadStep(0)] + [ThreadStep(0)])
         == QuitFirst(l).(threads := [NewThread(SILENT).(pc := AtRecv)], owner := Some(0), order := [0])
  {
    hide LogFits, After, QuitFirstRun, ReceiveNext, SendNext, MainMoves;
    QuitsFirst(l);
    var run, th, s := QuitFirstRun(), NewThread(SILENT), QuitFirst(l);
    var s1 := s.(threads := [th.(pc := AtLock)]);
    var s2 := s.(threads := [th.(pc := AtOpen)], owner := Some(0), order := [0]);
    Follow(l, run, ThreadStep(0), s, s1);
    Follow(l, run + [ThreadStep(0)], ThreadStep(0), s1, s2);
    Follow(l, run + [ThreadStep(0)] + [ThreadStep(0)], ThreadStep(0), s2, s2.(threads := [th.(pc := AtRecv)]));
  }

  /** It fails there and exits. */
  lemma CutOffExits(l: Log)
    requires LogFits(l)
    ensures After(l, QuitFirstRun() + [ThreadStep(0)] + [ThreadStep(0)] + [ThreadStep(0)] + [ThreadStep(0)] + [ThreadStep(0)] + [ThreadStep(0)])
         == QuitFirst(l).(threads := [CutOff(Exited, true)], order := [0], released := [0])
  {
    hide LogFits, After, QuitFirstRun, ReceiveNext, SendNext, MainMoves, RecvFails, Consumed;
    ComesToRecv(l);
    RecvCutOff();
    var run := QuitFirstRun() + [ThreadStep(0)] + [ThreadStep(0)] + [ThreadStep(0)];
    var s := QuitFirst(l).(threads := [NewThread(SILENT).(pc := AtRecv)], owner := Some(0), order := [0]);
    var s1 := s.(threads := [CutOff(FailFlags, false)]);
    var s2 := s.(threads := [CutOff(FailUnlock, true)]);
    var s3 := s.(threads := [CutOff(Exited, true)], owner := None, released := [0]);
    Follow(l, run, ThreadStep(0), s, s1);
    Follow(l, run + [ThreadStep(0)], ThreadStep(0), s1, s2);
    Follow(l, run + [ThreadStep(0)] + [ThreadStep(0)], ThreadStep(0), s2, s3);
  }

  /** On any device that run stops the server, though the client stays as silent as before. */
  lemma QuitFirstStops(l: Log)
    requires LogFits(l)
    ensures After(l, StopRun()).main.Stopped?
  {
    hide LogFits, After, QuitFirstRun, ThreadMoves;
    CutOffExits(l);
    var run := QuitFirstRun() + [ThreadStep(0)] + [ThreadStep(0)] + [ThreadStep(0)] + [ThreadStep(0)] + [ThreadStep(0)] + [ThreadStep(0)];
    var s := QuitFirst(l).(threads := [CutOff(Exited, true)], order := [0], released := [0]);
    var s1 := s.(main := DrainFreeing(0), joined := {0});
    var s2 := s1.(main := Draining, list := [], gone := {0}, live := {Mutex}, frees := RecordOf(0));
    var s3 := s2.(main := Destroying);
    var s4 := s3.(main := Stopped, live := {}, frees := RecordOf(0) + [Mutex]);
    Follow(l, run, DrainJoin, s, s1);
    assert s1.list[1..] == [] && [] + RecordOf(0) == RecordOf(0);
    Follow(l, run + [DrainJoin], DrainFree, s1, s2);
    Follow(l, run + [DrainJoin] + [DrainFree], Drain, s2, s3);
    Follow(l, run + [DrainJoin] + [DrainFree] + [Drain], Destroy, s3, s4);
  }

  /** A client for which the device does not open. */
  const UNOPENED: Input := Input(false, [], [])

  /** Its thread runs to its end, and then the main thread goes through the whole list. */
  function UnopenedRun(): seq<Action> {
    LockRun(UNOPENED) + [ThreadStep(0)] + [ThreadStep(0)] + [LoopTest(false)] + [Scan] + [Scan]
  }

  /** The thread has exited, and the pass has left it in the list, unjoined. */
  lemma UnopenedIsNotReaped(l: Log)
    requires LogFits(l)
    ensures var s := After(l, UnopenedRun());
            s.main.Accepting? && s.list == [0] && s.joined == {} && |s.threads| == 1 && s.threads[0].pc.Exited?
  {
    hide LogFits, After, LockRun;
    TakesLock(l, UNOPENED);
    var run, th, s := LockRun(UNOPENED), NewThread(UNOPENED), AtOpening(l, UNOPENED);
    var s1 := s.(threads := [th.(pc := QuietUnlock)]);
    var s2 := s.(threads := [th.(pc := Exited)], owner := None, released := [0]);
    Follow(l, run, ThreadStep(0), s, s1);
    Follow(l, run + [ThreadStep(0)], ThreadStep(0), s1, s2);
    run := run + [ThreadStep(0)] + [ThreadStep(0)];
    assert s2.list[1..] == [];
    Follow(l, run, LoopTest(false), s2, s2.(main := Scanning([0])));
    Follow(l, run + [LoopTest(false)], Scan, s2.(main := Scanning([0])), s2.(main := Scanning([])));
    Follow(l, run + [LoopTest(false)] + [Scan], Scan, s2.(main := Scanning([])), s2.(main := Accepting));
  }

  // ----- how long it can go on

  /** No ring holds more bytes than this. */
  const MAX_CONTENT: nat := CAPACITY * KMALLOC_MAX

  /** A bound on the steps a connection thread can still take with what has arrived for it. */
  function Weight(l: Log, th: Thread): nat {
    match th.pc
    case Starting => 8 + MAX_CONTENT + 2 * |th.events|
    case AtLock => 7 + MAX_CONTENT + 2 * |th.events|
    case AtOpen => 6 + MAX_CONTENT + 2 * |th.events|
    case AtRecv => 5 + MAX_CONTENT + 2 * |th.events|
    case InRecv => 4 + MAX_CONTENT + 2 * |th.events|
    case Sending => 3 + if th.pos < |Content(l.commands)| then |Content(l.commands)| - th.pos else 0
    case InSend => 2
    case FailFlags => 2
    case DoneUnlock => 2
    case FailUnlock => 1
    case QuietUnlock => 1
    case DoneFlags => 1
    case Exited => 0
  }

  lemma SendingAdvances(l: Log, th: Thread)
    requires LogFits(l) && th.pc.Sending?
    ensures Weight(l, SendNext(l, th)) < Weight(l, th)
  {
    hide ReadAt, LogFits, Content;
    ReadIsSlice(l.commands, th.pos, BUFFER_SIZE);
  }

  lemma ReceivingAdvances(l: Log, th: Thread)
    requires LogFits(l) && th.pc.InRecv? && th.events != []
    ensures Weight(ReceiveNext(l, th).0, ReceiveNext(l, th).1) < Weight(l, th)
  {
    hide HandleChunk, Content;
    ContentBound(ReceiveNext(l, th).0.commands);
  }

  lemma ThreadAdvances(l: Log, th: Thread, closed: bool)
    requires LogFits(l) && !th.pc.Exited? && !Blocked(th)
    ensures var next := ThreadNext(l, th, closed);
            Weight(next.0, next.1) < Weight(l, th)
  {
    hide LogFits, Content, ReceiveNext, SendNext, Consumed;
    if th.pc.InRecv? {
      ReceivingAdvances(l, th);
    } else if th.pc.Sending? {
      SendingAdvances(l, th);
    }
  }

  /** A thread's weight is lowered by its own steps, raised by two by what arrives for it, and changed by nothing else. */
  lemma EveryStepAdvances(s: State, a: Action, u: Tid)
    requires LogFits(s.log) && RegionInv(s)
    requires Enabled(s, a) && u < |s.threads|
    ensures var s' := Next(s, a);
            && |s'.threads| >= |s.threads|
            && var was, now := Weight(s.log, s.threads[u]), Weight(s'.log, s'.threads[u]);
               if a == ThreadStep(u) then now < was
               else if a.Arrive? && a.t == u then now == was + 2
               else now == was
  {
    hide LogFits, ThreadNext, Content, MainMoves;
    if a == ThreadStep(u) {
      ThreadAdvances(s.log, s.threads[u], u in s.closed);
    } else if a.ThreadStep? && !Locked(s.threads[a.t].pc) {
      OutsideKeeps(s.log, s.threads[a.t], a.t in s.closed);
    }
  }

  function Weights(l: Log, threads: seq<Thread>): seq<nat> {
    seq(|threads|, i requires 0 <= i < |threads| => Weight(l, threads[i]))
  }

  function MainWeight(s: State): nat {
    match s.main
    case Draining => 3 * |s.list| + 2
    case DrainJoining(_) => 3 * |s.list| + 1
    case DrainFreeing(_) => 3 * |s.list|
    case Destroying => 1
    case _ => 0
  }

  /** A bound on the steps left once the main thread has left its loop. */
  function Total(s: State): nat {
    Sum(Weights(s.log, s.threads)) + MainWeight(s)
  }

  /** Changing one term changes the sum by as much. */
  lemma {:induction false} SumChanges(a: seq<nat>, b: seq<nat>, t: nat)
    requires |a| == |b| && t < |a|
    requires forall i :: 0 <= i < |a| && i != t ==> b[i] == a[i]
    ensures Sum(b) + a[t] == Sum(a) + b[t]
  {
    var n := |a| - 1;
    if t == n {
      assert a[..n] == b[..n];
    } else {
      SumChanges(a[..n], b[..n], t);
    }
  }

  lemma ThreadChangesTotal(s: State, a: Action)
    requires LogFits(s.log) && RegionInv(s) && Enabled(s, a) && (a.ThreadStep? || a.Arrive?)
    ensures Next(s, a).main == s.main
    ensures if a.Arrive? then Total(Next(s, a)) == Total(s) + 2 else Total(Next(s, a)) < Total(s)
  {
    hide Weight, Sum, ThreadNext, LogFits, RegionInv, Blocked;
    var s' := Next(s, a);
    forall u | 0 <= u < |s.threads| { EveryStepAdvances(s, a, u); }
    EveryStepAdvances(s, a, a.t);
    SumChanges(Weights(s.log, s.threads), Weights(s'.log, s'.threads), a.t);
  }

  /** During shutdown every step of the server lowers the bound, every arrival raises it by two, and shutdown goes on. */
  lemma ShutdownShrinks(s: State, a: Action)
    requires LogFits(s.log) && RegionInv(s) && LifeInv(s) && Enabled(s, a)
    requires ShuttingDown(s.main)
    ensures ShuttingDown(Next(s, a).main)
    ensures if a.Arrive? then Total(Next(s, a)) == Total(s) + 2 else Total(Next(s, a)) < Total(s)
  {
    hide LogFits, RegionInv, Weights, Sum, HeapInv, ListInv, JoinInv;
    if a.ThreadStep? || a.Arrive? {
      ThreadChangesTotal(s, a);
    }
  }

  function Arrivals(actions: seq<Action>): nat {
    if actions == [] then 0
    else Arrivals(actions[..|actions| - 1]) + if actions[|actions| - 1].Arrive? then 1 else 0
  }

  /**
   No schedule runs on without its clients: after the main thread has left its loop, the steps of the
   server are at most the bound at that time and three times what arrives afterwards, counting arrivals as steps.
   */
  lemma {:induction false} ShutdownIsBounded(l: Log, actions: seq<Action>, more: seq<Action>)
    requires LogFits(l)
    requires ShuttingDown(After(l, actions).main)
    requires Possible(l, actions, more)
    ensures var s := After(l, actions + more);
            && |more| + Total(s) <= Total(After(l, actions)) + 3 * Arrivals(more)
            && ShuttingDown(s.main)
    decreases |more|
  {
    hide After, LogFits, RegionInv, OrderInv, LifeInv, SerialInv, Enabled, Next, Total;
    if more == [] {
      assert actions + more == actions;
    } else {
      var n := |more| - 1;
      var front := more[..n];
      assert forall i :: 0 <= i < n ==> front[..i] == more[..i];
      ShutdownIsBounded(l, actions, front);
      EveryStateSound(l, actions + front);
      ShutdownShrinks(After(l, actions + front), more[n]);
      OneMore(l, actions + front, more[n]);
      assert actions + more == actions + front + [more[n]];
    }
  }

  /** A thread that waits for its client is one whose connection stalls in the serial run. */
  lemma BlockedMeansStalled(l: Log, s: State)
    requires LogFits(l) && LockInv(s) && SerialInv(l, s)
    requires s.owner.Some? && Blocked(s.threads[s.owner.value])
    ensures SerialOutcome(l, InputsInOrder(s), |s.order| - 1).ending.Stalled?
  {
    hide LogFits, SerialLog, Answered, Content, ReadAt, Distinct, HandleChunk, SentSoFar;
    var th := s.threads[s.owner.value];
    assert Fresh(th);
    if th.pc.InRecv? {
      assert Consumed(th) == th.input.events;
    }
  }

  /** In a stopped server no connection of the serial run stalls. */
  lemma StoppedHasNoStall(l: Log, s: State, i: nat)
    requires LogFits(l) && LockInv(s) && SerialInv(l, s) && s.owner.None? && i < |s.order|
    requires forall u :: 0 <= u < |s.threads| ==> !s.threads[u].pc.InSend?
    ensures !SerialOutcome(l, InputsInOrder(s), i).ending.Stalled?
  {
    hide LogFits, SerialLog, Body, OnCourse, Distinct;
    assert Answered(l, s, i);
    assert Fresh(s.threads[s.order[i]]);
  }

  lemma StoppedHalf(l: Log, actions: seq<Action>)
    requires LogFits(l) && After(l, actions).main.Stopped?
    ensures var s := After(l, actions);
            OrderInRange(s) && forall i :: 0 <= i < |s.order| ==> !SerialOutcome(l, InputsInOrder(s), i).ending.Stalled?
  {
    hide After, LogFits, HeapInv, SerialInv, SerialLog, Body, Distinct;
    EveryStateSound(l, actions);
    var s := After(l, actions);
    AllExited(s);
    forall i | 0 <= i < |s.order| { StoppedHasNoStall(l, s, i); }
  }

  lemma HangingHalf(l: Log, actions: seq<Action>)
    requires LogFits(l)
    requires !After(l, actions).main.Stopped? && Stuck(After(l, actions))
    ensures var s := After(l, actions);
            && WaitsForClient(s) && OrderInRange(s) && s.order != []
            && SerialOutcome(l, InputsInOrder(s), |s.order| - 1).ending.Stalled?
  {
    hide After, LogFits, LifeInv, SerialInv, SerialLog, Body, Stuck, Blocked;
    EveryStateSound(l, actions);
    StuckExactly(l, actions);
    BlockedMeansStalled(l, After(l, actions));
  }

  /**
   How a shutdown ends, exactly: when the server can do nothing more by itself, it has stopped if no
   connection stalls in the serial run of all that took the mutex, and hangs if one does: the last, whose
   thread is inside recv or send. The inputs of that run are what the threads met, the errors of recv
   and send on a descriptor that the main thread has closed included.
   */
  lemma ShutdownStopsExactly(l: Log, actions: seq<Action>)
    requires LogFits(l)
    requires ShuttingDown(After(l, actions).main) && Stuck(After(l, actions))
    ensures var s := After(l, actions);
            && OrderInRange(s)
            && (s.main.Stopped? <==>
                  forall i :: 0 <= i < |s.order| ==> !SerialOutcome(l, InputsInOrder(s), i).ending.Stalled?)
            && (!s.main.Stopped? ==>
                  WaitsForClient(s) && s.order != []
                  && SerialOutcome(l, InputsInOrder(s), |s.order| - 1).ending.Stalled?)
  {
    hide After, LogFits, SerialLog, Body, Stuck, WaitsForClient, InputsInOrder;
    if After(l, actions).main.Stopped? {
      StoppedHalf(l, actions);
    } else {
      HangingHalf(l, actions);
    }
  }

  /**
   The same in terms of what the clients do, when no call to the device fails, no chunk has the shape of a seek
   and nobody stalls a send: the server has stopped exactly when every thread whose device opened met an error,
   a close or a chunk that did not fill the buffer.
   */
  lemma ShutdownStopsForClients(l: Log, actions: seq<Action>)
    requires LogFits(l)
    requires ShuttingDown(After(l, actions).main) && Stuck(After(l, actions))
    ensures var s := After(l, actions);
            && OrderInRange(s)
            && var inputs := InputsInOrder(s);
               (forall i :: 0 <= i < |inputs| ==> PlainClient(SerialLog(l, inputs[..i]), inputs[i])) ==>
                 (s.main.Stopped? <==> forall i :: 0 <= i < |inputs| && inputs[i].opens ==> EndsReceiving(inputs[i].events))
  {
    hide After, LogFits, SerialLog, Body, Stuck, WaitsForClient, PlainClient, EndsReceiving;
    ShutdownStopsExactly(l, actions);
    var inputs := InputsInOrder(After(l, actions));
    if forall i :: 0 <= i < |inputs| ==> PlainClient(SerialLog(l, inputs[..i]), inputs[i]) {
      forall i | 0 <= i < |inputs|
        ensures SerialOutcome(l, inputs, i).ending.Stalled? <==> inputs[i].opens && !EndsReceiving(inputs[i].events)
      {
        PlainStallsExactly(SerialLog(l, inputs[..i]), inputs[i]);
      }
    }
  }

  // ----- what closing a descriptor does

  predicate Inside(pc: Pc) {
    pc.InRecv? || pc.InSend?
  }

  /** A step does not take a thread whose descriptor is closed into recv or send. */
  lemma ClosedStaysOut(s: State, a: Action, t: Tid)
    requires LogFits(s.log) && Enabled(s, a)
    requires t < |s.threads| && t in s.closed && !Inside(s.threads[t].pc)
    ensures var s' := Next(s, a);
            t < |s'.threads| && t in s'.closed && !Inside(s'.threads[t].pc)
  {
    hide LogFits, ReceiveNext, SendNext, Consumed;
  }

  /** A thread that is not inside recv or send when its descriptor has been closed never waits for its client again. */
  lemma {:induction false} ClosedNeverWaits(l: Log, actions: seq<Action>, more: seq<Action>, t: Tid)
    requires LogFits(l)
    requires var s := After(l, actions);
             t < |s.threads| && t in s.closed && !Inside(s.threads[t].pc)
    ensures var s := After(l, actions + more);
            t < |s.threads| && t in s.closed && !Inside(s.threads[t].pc) && !Blocked(s.threads[t])
    decreases |more|
  {
    hide After, LogFits, Next, Enabled;
    if more == [] {
      assert actions + more == actions;
    } else {
      var n := |more| - 1;
      ClosedNeverWaits(l, actions, more[..n], t);
      OneMore(l, actions + more[..n], more[n]);
      assert actions + more == actions + more[..n] + [more[n]];
      var s := After(l, actions + more[..n]);
      if Enabled(s, more[n]) {
        ClosedStaysOut(s, more[n], t);
      }
    }
  }
}
