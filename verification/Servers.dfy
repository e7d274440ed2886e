/**
 The server as a transition system: the main thread of run_server (server/aesdsocket.c) and
 any number of connection threads (server/connection_thread.c), interleaved step by step.
 A step is one device or socket call, one lock operation, one join, or one group of
 stores and frees with no call in between.
 */
module Servers {
  import opened Bytes
  import opened Commands
  import opened DeviceSpec
  import opened Connections
  import SLists

  type Tid = nat

  /** Where a connection thread is; the numbers are lines of connection_thread.c. */
  datatype Pc =
    | Starting     // 161: clears thread_complete
    | AtLock       // 163
    | AtOpen       // 164
    | AtRecv       // 45: about to call recv
    | InRecv       // 45-92: inside recv, and the rest of the turn once it returns
    | Sending      // 136-142: one turn of the send loop
    | InSend       // 142: inside a send that does not return
    | FailFlags    // 174-176, 184-186: sets thread_complete with the mutex still held
    | FailUnlock   // 178, 188
    | QuietUnlock  // 168: no flag is set
    | DoneUnlock   // 192
    | DoneFlags    // 195-201
    | Exited

  /**
   A connection thread: what it meets from outside, what of that it has not received or gone through yet,
   the turns of the send loop behind it, its file position, what it has sent, how it ends, and its
   thread_complete flag.
   */
  datatype Thread = Thread(
    pc: Pc, input: Input, events: seq<RecvEvent>, plan: seq<SendEvent>, past: seq<SendEvent>,
    pos: FilePos, reply: seq<byte>, ending: Ending, complete: bool)

  /** Where the main thread is; the numbers are lines of aesdsocket.c. */
  datatype MainPc =
    | LoopHead                             // 94
    | Scanning(rest: seq<Tid>)             // 97-98: the nodes not looked at yet
    | Joining(t: Tid, rest: seq<Tid>)      // 99
    | Freeing(t: Tid, rest: seq<Tid>)      // 100-103
    | Accepting                            // 109
    | Inserting(t: Tid)                    // 154-157
    | Draining                             // 160-162: closes the descriptor of the first
    | DrainJoining(t: Tid)                 // 163
    | DrainFreeing(t: Tid)                 // 164-167
    | Destroying                           // 170-171
    | Stopped

  /** The heap blocks of the server. */
  datatype Addr = Mutex | Conn(t: Tid) | Handle(t: Tid) | Node(t: Tid)

  /**
   The whole server. `order` and `released` record who took and who gave back the mutex, `closed` whose
   descriptor the main thread has closed, `joined` who was joined, `gone` whose records were freed, and
   `frees` every free in order.
   */
  datatype State = State(
    log: Log, owner: Option<Tid>, threads: seq<Thread>, order: seq<Tid>, released: seq<Tid>,
    main: MainPc, list: seq<Tid>, closed: set<Tid>, joined: set<Tid>, gone: set<Tid>, live: set<Addr>, frees: seq<Addr>)

  /** What can happen next. `Arrive` is the network's: something new for a thread still to be received. */
  datatype Action =
    | Arrive(t: Tid, event: RecvEvent)
    | ThreadStep(t: Tid)
    | LoopTest(quit: bool)
    | Scan | Join | Free
    | AcceptNone | AcceptOne(input: Input) | Insert
    | Drain | DrainJoin | DrainFree
    | Destroy

  /** The server right after set-up, on a device that holds `l`. */
  function Initial(l: Log): State {
    State(l, None, [], [], [], LoopHead, [], {}, {}, {}, {Mutex}, [])
  }

  predicate Locked(pc: Pc) {
    || pc.AtOpen? || pc.AtRecv? || pc.InRecv? || pc.Sending? || pc.InSend?
    || pc.FailFlags? || pc.FailUnlock? || pc.QuietUnlock? || pc.DoneUnlock?
  }

  predicate Unlocks(pc: Pc) {
    pc.FailUnlock? || pc.QuietUnlock? || pc.DoneUnlock?
  }

  function NewThread(input: Input): Thread {
    Thread(Starting, input, input.events, input.plan, [], 0, [], NotOpened, false)
  }

  /** What the thread has received so far. */
  function Consumed(th: Thread): seq<RecvEvent> {
    th.input.events[..if |th.events| <= |th.input.events| then |th.input.events| - |th.events| else 0]
  }

  /** recv on a closed descriptor: an error, whatever may have arrived. */
  function RecvFails(th: Thread): Thread {
    th.(input := th.input.(events := Consumed(th) + [RecvError]), events := [], ending := Failed, pc := FailFlags)
  }

  /** send on a closed descriptor: an error. */
  function SendFails(th: Thread): Thread {
    th.(input := th.input.(plan := th.past + [BROKEN]), plan := [], ending := Failed, pc := FailFlags)
  }

  /** recv returns, and the rest of the turn. */
  function ReceiveNext(l: Log, th: Thread): (r: (Log, Thread))
    requires LogFits(l)
    ensures LogFits(r.0)
  {
    if th.events == [] then (l, th)
    else if th.events[0].RecvError? || th.events[0].data == [] then
      (l, th.(ending := Failed, pc := FailFlags))
    else
      var data := th.events[0].data;
      var r := HandleChunk(l, th.pos, data, th.events[0].env);
      if r.verdict.Failure? then (r.log, th.(pos := r.pos, ending := Failed, pc := FailFlags))
      else (r.log, th.(pos := r.pos, events := th.events[1..], pc := if |data| >= BUFFER_SIZE then AtRecv else Sending))
  }

  function SendNext(l: Log, th: Thread): Thread
    requires LogFits(l)
  {
    var e := First(th.plan);
    var data := ReadAt(l.commands, th.pos, BUFFER_SIZE);
    ReadStaysInRange(l, th.pos, BUFFER_SIZE, FINE);
    if e.env.interrupted || e.fate.Breaks? then th.(ending := Failed, pc := FailFlags)
    else if data == [] then th.(ending := Completed, pc := DoneUnlock)
    else if e.fate.Stalls? then th.(ending := Stalled, pc := InSend)
    else th.(reply := th.reply + data, pos := th.pos + |data|, plan := Rest(th.plan), past := th.past + [e])
  }

  /**
   One step of a connection thread on the device and on itself; `closed` says that the main thread has
   closed its descriptor.
   */
  function ThreadNext(l: Log, th: Thread, closed: bool): (r: (Log, Thread))
    requires LogFits(l)
    ensures LogFits(r.0)
  {
    match th.pc
    case Starting => (l, th.(complete := false, pc := AtLock))
    case AtLock => (l, th.(pc := AtOpen))
    case AtOpen => (l, th.(pc := if th.input.opens then AtRecv else QuietUnlock))
    case AtRecv => (l, if closed then RecvFails(th) else th.(pc := InRecv))
    case InRecv => ReceiveNext(l, th)
    case Sending => (l, if closed then SendFails(th) else SendNext(l, th))
    case InSend => (l, th)
    case FailFlags => (l, th.(complete := true, pc := FailUnlock))
    case FailUnlock => (l, th.(pc := Exited))
    case QuietUnlock => (l, th.(pc := Exited))
    case DoneUnlock => (l, th.(pc := DoneFlags))
    case DoneFlags => (l, th.(complete := true, pc := Exited))
    case Exited => (l, th)
  }

  /** The thread is inside a call that waits for its client: a recv with nothing to receive, or a send that stalls. */
  predicate Blocked(th: Thread) {
    (th.pc.InRecv? && th.events == []) || th.pc.InSend?
  }

  /** The thread has still to receive. */
  predicate Listens(pc: Pc) {
    pc.Starting? || pc.AtLock? || pc.AtOpen? || pc.AtRecv? || pc.InRecv?
  }

  /** What arrives for the thread can still be received: on a closed descriptor only by a recv already under way. */
  predicate Reachable(s: State, t: Tid)
    requires t < |s.threads|
  {
    Listens(s.threads[t].pc) && (t in s.closed ==> s.threads[t].pc.InRecv?)
  }

  predicate Enabled(s: State, a: Action) {
    match a
    case ThreadStep(t) =>
      && t < |s.threads|
      && !s.threads[t].pc.Exited?
      && (s.threads[t].pc.AtLock? ==> s.owner.None?)
      && !Blocked(s.threads[t])
    case Arrive(t, event) => t < |s.threads| && Reachable(s, t) && EventAllowed(event)
    case LoopTest(_) => s.main.LoopHead?
    case Scan => s.main.Scanning?
    case Join => s.main.Joining? && s.main.t < |s.threads| && s.threads[s.main.t].pc.Exited?
    case Free => s.main.Freeing?
    case AcceptNone => s.main.Accepting?
    case AcceptOne(input) => s.main.Accepting? && InputAllowed(input)
    case Insert => s.main.Inserting?
    case Drain => s.main.Draining?
    case DrainJoin => s.main.DrainJoining? && s.main.t < |s.threads| && s.threads[s.main.t].pc.Exited?
    case DrainFree => s.main.DrainFreeing? && s.list != []
    case Destroy => s.main.Destroying?
  }

  /** The records of a thread, in the order they are freed. */
  function RecordOf(t: Tid): seq<Addr> {
    [Handle(t), Conn(t), Node(t)]
  }

  function RecordSet(t: Tid): set<Addr> {
    {Handle(t), Conn(t), Node(t)}
  }

  function ThreadMoves(s: State, t: Tid): (r: State)
    requires LogFits(s.log) && Enabled(s, ThreadStep(t))
    ensures LogFits(r.log)
  {
    var pc := s.threads[t].pc;
    var next := ThreadNext(s.log, s.threads[t], t in s.closed);
    s.(log := next.0,
       threads := s.threads[t := next.1],
       owner := if pc.AtLock? then Some(t) else if Unlocks(pc) then None else s.owner,
       order := if pc.AtLock? then s.order + [t] else s.order,
       released := if Unlocks(pc) then s.released + [t] else s.released)
  }

  /** The network delivers. */
  function Delivered(th: Thread, event: RecvEvent): Thread {
    th.(events := th.events + [event], input := th.input.(events := th.input.events + [event]))
  }

  /** The main thread has left its loop. */
  predicate ShuttingDown(main: MainPc) {
    main.Draining? || main.DrainJoining? || main.DrainFreeing? || main.Destroying? || main.Stopped?
  }

  function MainMoves(s: State, a: Action): (r: State)
    requires Enabled(s, a) && !a.ThreadStep? && !a.Arrive?
    ensures ShuttingDown(r.main) <==> ShuttingDown(s.main) || a == LoopTest(true)
    ensures r.log == s.log && r.owner == s.owner && r.order == s.order && r.released == s.released
    ensures r.threads == if a.AcceptOne? then s.threads + [NewThread(a.input)] else s.threads
  {
    match a
    case LoopTest(quit) => s.(main := if quit then Draining else Scanning(s.list))
    case Scan =>
      if s.main.rest == [] then s.(main := Accepting)
      else
        var t, rest := s.main.rest[0], s.main.rest[1..];
        if t < |s.threads| && s.threads[t].complete then s.(main := Joining(t, rest)) else s.(main := Scanning(rest))
    case Join => s.(main := Freeing(s.main.t, s.main.rest), joined := s.joined + {s.main.t})
    case Free =>
      var t := s.main.t;
      s.(main := Scanning(s.main.rest), list := SLists.Without(s.list, t), gone := s.gone + {t},
         live := s.live - RecordSet(t), frees := s.frees + RecordOf(t))
    case AcceptNone => s.(main := LoopHead)
    case AcceptOne(input) =>
      var t := |s.threads|;
      s.(main := Inserting(t), threads := s.threads + [NewThread(input)], live := s.live + {Conn(t), Handle(t)})
    case Insert => s.(main := LoopHead, list := [s.main.t] + s.list, live := s.live + {Node(s.main.t)})
    case Drain =>
      if s.list == [] then s.(main := Destroying)
      else s.(main := DrainJoining(s.list[0]), closed := s.closed + {s.list[0]})
    case DrainJoin => s.(main := DrainFreeing(s.main.t), joined := s.joined + {s.main.t})
    case DrainFree =>
      var t := s.main.t;
      s.(main := Draining, list := s.list[1..], gone := s.gone + {t},
         live := s.live - RecordSet(t), frees := s.frees + RecordOf(t))
    case Destroy => s.(main := Stopped, live := s.live - {Mutex}, frees := s.frees + [Mutex])
  }

  function Next(s: State, a: Action): (r: State)
    requires LogFits(s.log) && Enabled(s, a)
    ensures LogFits(r.log)
  {
    if a.ThreadStep? then ThreadMoves(s, a.t)
    else if a.Arrive? then s.(threads := s.threads[a.t := Delivered(s.threads[a.t], a.event)])
    else MainMoves(s, a)
  }

  /** The state after a sequence of actions; an action that is not possible then is skipped. */
  function After(l: Log, actions: seq<Action>): (s: State)
    requires LogFits(l)
    ensures LogFits(s.log)
  {
    if actions == [] then Initial(l)
    else
      var s := After(l, actions[..|actions| - 1]);
      var a := actions[|actions| - 1];
      if Enabled(s, a) then Next(s, a) else s
  }

  /** The blocks an action reads, writes or frees. */
  function Touches(s: State, a: Action): set<Addr> {
    match a
    case ThreadStep(t) =>
      if t < |s.threads| && (s.threads[t].pc.AtLock? || Unlocks(s.threads[t].pc)) then {Conn(t), Mutex} else {Conn(t)}
    case Scan => if s.main.Scanning? && s.main.rest != [] then {Node(s.main.rest[0]), Conn(s.main.rest[0])} else {}
    case Join => if s.main.Joining? then {Node(s.main.t), Handle(s.main.t)} else {}
    case Free => if s.main.Freeing? then RecordSet(s.main.t) + (set u | u in s.list :: Node(u)) else {}
    case Drain => if s.list != [] then {Node(s.list[0]), Conn(s.list[0])} else {}
    case DrainJoin => if s.main.DrainJoining? then {Node(s.main.t), Handle(s.main.t)} else {}
    case DrainFree => if s.main.DrainFreeing? then RecordSet(s.main.t) else {}
    case Destroy => {Mutex}
    case _ => {}
  }
}
