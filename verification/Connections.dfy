/**
 One connection (server/connection_thread.c): receive into the device or seek, then send
 what the device has from the file position on. First what it does as a function of the
 device's abstract state and of what the socket and the kernel do; then the code.
 */
module Connections {
  import opened Bytes
  import opened Commands
  import opened DeviceSpec
  import KernelHeap
  import opened Devices
  import opened SeekCommands

  const BUFFER_SIZE: nat := 1024

  /** One recv: an error, or data (none when the client has closed) and the fate of the device call after it. */
  datatype RecvEvent = RecvError | Chunk(data: seq<byte>, env: Env)

  /** What send does with the bytes of a turn: takes them all, fails, or never returns. */
  datatype SendFate = Sends | Breaks | Stalls

  /** One turn of the send loop: the fate of the read and of the send. */
  datatype SendEvent = SendEvent(env: Env, fate: SendFate)

  /** A turn whose send fails. */
  const BROKEN: SendEvent := SendEvent(FINE, Breaks)

  /**
   Everything a connection meets from outside. After the last event the client is silent and recv does
   not return; a client that closes says so with an empty chunk. After the last plan all is fine.
   */
  datatype Input = Input(opens: bool, events: seq<RecvEvent>, plan: seq<SendEvent>)

  /** How a loop of the connection ends: return value 0, return value -1, or not: it waits for the client. */
  datatype Verdict = Success | Failure | Waiting

  /** How the thread body ends: the device did not open, an error, success, or waiting with the mutex held. */
  datatype Ending = NotOpened | Failed | Completed | Stalled

  datatype Received = Received(log: Log, pos: FilePos, verdict: Verdict)
  datatype Sent = Sent(data: seq<byte>, verdict: Verdict)
  datatype Outcome = Outcome(log: Log, reply: seq<byte>, ending: Ending)

  function EndingOf(v: Verdict): Ending {
    match v
    case Success => Completed
    case Failure => Failed
    case Waiting => Stalled
  }

  /** recv fills at most the buffer, number fields fit theirs, and user-space buffers do not fault. */
  predicate EventAllowed(e: RecvEvent) {
    e.Chunk? ==> |e.data| <= BUFFER_SIZE && FieldsFit(e.data) && e.env.residue == 0
  }

  predicate InputAllowed(input: Input) {
    && (forall i :: 0 <= i < |input.events| ==> EventAllowed(input.events[i]))
    && (forall i :: 0 <= i < |input.plan| ==> input.plan[i].env.residue == 0)
  }

  // ----- meaning

  /** What is written of a chunk: up to its first newline, or all of it. */
  function Payload(data: seq<byte>): seq<byte> {
    if data == [] then []
    else if data[0] == NEWLINE then [NEWLINE]
    else [data[0]] + Payload(data[1..])
  }

  /** One chunk: a seek if it reads as one, else a write. */
  function HandleChunk(l: Log, pos: FilePos, data: seq<byte>, env: Env): (r: Received)
    requires LogFits(l)
    ensures LogFits(r.log)
    ensures !r.verdict.Waiting?
  {
    match ParseSeek(data)
    case Some(s) =>
      (match IoctlResult(l, IOCSEEKTO, s.writeCmd, s.writeCmdOffset, env)
       case None => Received(l, pos, Failure)
       case Some(p) =>
         SeekStaysInRange(l, s.writeCmd, s.writeCmdOffset);
         Received(l, p, Success))
    case None =>
      FitsKept(l, Payload(data), env);
      Received(WriteEffect(l, Payload(data), env), pos, if WriteCode(l, Payload(data), env) >= 0 then Success else Failure)
  }

  /** recv_messages */
  function RecvAll(l: Log, pos: FilePos, events: seq<RecvEvent>): (r: Received)
    requires LogFits(l)
    ensures LogFits(r.log)
    decreases events
  {
    if events == [] then Received(l, pos, Waiting)
    else if events[0].RecvError? || events[0].data == [] then Received(l, pos, Failure)
    else
      var r := HandleChunk(l, pos, events[0].data, events[0].env);
      if r.verdict.Success? && |events[0].data| >= BUFFER_SIZE then RecvAll(r.log, r.pos, events[1..]) else r
  }

  function First(plan: seq<SendEvent>): SendEvent {
    if plan == [] then SendEvent(FINE, Sends) else plan[0]
  }

  function Rest(plan: seq<SendEvent>): seq<SendEvent> {
    if plan == [] then [] else plan[1..]
  }

  /** send_messages */
  function SendAll(cmds: seq<Command>, pos: nat, plan: seq<SendEvent>): Sent
    decreases |Content(cmds)| - pos
  {
    var e := First(plan);
    ReadIsSlice(cmds, pos, BUFFER_SIZE);
    var data := ReadAt(cmds, pos, BUFFER_SIZE);
    if e.env.interrupted || e.fate.Breaks? then Sent([], Failure)
    else if data == [] then Sent([], Success)
    else if e.fate.Stalls? then Sent([], Waiting)
    else
      var later := SendAll(cmds, pos + |data|, Rest(plan));
      Sent(data + later.data, later.verdict)
  }

  /** The part of connection_thread that holds the mutex. */
  function Body(l: Log, input: Input): (o: Outcome)
    requires LogFits(l)
    ensures LogFits(o.log)
  {
    if !input.opens then Outcome(l, [], NotOpened)
    else
      var r := RecvAll(l, 0, input.events);
      if !r.verdict.Success? then Outcome(r.log, [], EndingOf(r.verdict))
      else
        var s := SendAll(r.log.commands, r.pos, input.plan);
        Outcome(r.log, s.data, EndingOf(s.verdict))
  }

  // ----- the code

  /** What is written ends at the first newline, or at the last byte when there is none. */
  lemma {:induction false} PayloadEnds(data: seq<byte>, k: nat)
    requires k < |data| && (forall i :: 0 <= i < k ==> data[i] != NEWLINE)
    requires data[k] == NEWLINE || k == |data| - 1
    ensures Payload(data) == data[..k + 1]
  {
    if k > 0 {
      PayloadEnds(data[1..], k - 1);
      assert data[..k + 1] == [data[0]] + data[1..][..k];
    } else {
      assert data[..1] == [data[0]];
      assert |data| == 1 ==> data[1..] == [];
    }
  }

  /** memchr for the newline, and the index of the last byte to write. */
  method LastIndex(data: seq<byte>) returns (index: nat)
    requires data != []
    ensures index < |data|
    ensures forall i :: 0 <= i < index ==> data[i] != 10
    ensures data[index] == 10 || index == |data| - 1
    ensures data[..index + 1] == Payload(data)
  {
    hide Payload;
    index := 0;
    while index < |data| && data[index] != NEWLINE
      invariant index <= |data|
      invariant forall i :: 0 <= i < index ==> data[i] != NEWLINE
    {
      index := index + 1;
    }
    if index == |data| {
      index := |data| - 1;
    }
    PayloadEnds(data, index);
  }

  /** The work of one turn of the loop in recv_messages, after a successful recv. */
  method TakeChunk(dev: Device, file: OpenFile, data: seq<byte>, env: Env) returns (verdict: Verdict)
    requires dev.Valid()
    requires data != [] && EventAllowed(Chunk(data, env))
    modifies file, dev, dev.ring, dev.ring.entry, dev.heap
    ensures dev.Valid()
    ensures Received(dev.View(), file.fPos, verdict) == HandleChunk(old(dev.View()), old(file.fPos), data, env)
  {
    hide KernelHeap.Owns, KernelHeap.LogOf, IoctlResult, WriteEffect, WriteCode, ParseSeek, FieldsFit, Payload;
    var index := LastIndex(data);
    var seek := CheckForIoctlCommand(data);
    if seek.Some? {
      var code := dev.Ioctl(file, IOCSEEKTO, seek.value.writeCmd, seek.value.writeCmdOffset, env);
      verdict := if code >= 0 then Success else Failure;
    } else {
      var code := dev.Write(data[..index + 1], env);
      verdict := if code >= 0 then Success else Failure;
    }
  }

  /** recv_messages; Waiting stands for a recv that does not return. */
  method RecvMessages(dev: Device, file: OpenFile, events: seq<RecvEvent>) returns (verdict: Verdict)
    requires dev.Valid()
    requires forall i :: 0 <= i < |events| ==> EventAllowed(events[i])
    modifies file, dev, dev.ring, dev.ring.entry, dev.heap
    ensures dev.Valid()
    ensures Received(dev.View(), file.fPos, verdict) == RecvAll(old(dev.View()), old(file.fPos), events)
  {
    hide KernelHeap.Owns, KernelHeap.LogOf, HandleChunk;
    var i := 0;
    while true
      invariant i <= |events|
      invariant dev.Valid()
      invariant RecvAll(dev.View(), file.fPos, events[i..]) == RecvAll(old(dev.View()), old(file.fPos), events)
      decreases |events| - i
    {
      if i == |events| {
        return Waiting;
      }
      assert events[i..][0] == events[i] && events[i..][1..] == events[i + 1..];
      if events[i].RecvError? || events[i].data == [] {
        return Failure;
      }
      verdict := TakeChunk(dev, file, events[i].data, events[i].env);
      if verdict.Failure? {
        return Failure;
      }
      if |events[i].data| < BUFFER_SIZE {
        return Success;
      }
      i := i + 1;
    }
  }

  /** The measure of the send loops. */
  ghost function BytesLeft(cmds: seq<Command>, pos: nat): nat {
    if pos < |Content(cmds)| then |Content(cmds)| - pos else 0
  }

  /** What the send loops keep: sent so far, plus what is still to come, is the whole outcome. */
  ghost predicate Progress(cmds: seq<Command>, pos: nat, left: seq<SendEvent>, reply: seq<byte>, bytesRead: int, all: Sent) {
    if bytesRead > 0 then
      var later := SendAll(cmds, pos, left);
      all == Sent(reply + later.data, later.verdict)
    else all == Sent(reply, Success)
  }

  /** Reads still to be made when nothing fails. */
  ghost function TurnsLeft(cmds: seq<Command>, pos: nat, bytesRead: int): nat {
    if bytesRead > 0 then |Drain(cmds, pos, BUFFER_SIZE)| + 1 else 0
  }

  lemma TurnTaken(cmds: seq<Command>, pos: nat, bytesRead: int)
    requires bytesRead > 0
    ensures var data := ReadAt(cmds, pos, BUFFER_SIZE);
            TurnsLeft(cmds, pos, bytesRead) == 1 + TurnsLeft(cmds, pos + |data|, |data|)
  {
    hide ReadAt, Content;
  }

  lemma ProgressStarts(cmds: seq<Command>, pos: nat, plan: seq<SendEvent>)
    ensures Progress(cmds, pos, plan, [], BUFFER_SIZE, SendAll(cmds, pos, plan))
  {
    hide SendAll;
  }

  lemma ProgressGoesOn(cmds: seq<Command>, pos: nat, left: seq<SendEvent>, reply: seq<byte>, bytesRead: int, all: Sent)
    requires bytesRead > 0
    requires Progress(cmds, pos, left, reply, bytesRead, all)
    ensures var e := First(left);
            var data := ReadAt(cmds, pos, BUFFER_SIZE);
            if e.env.interrupted || e.fate.Breaks? then all == Sent(reply, Failure)
            else if e.fate.Stalls? && data != [] then all == Sent(reply, Waiting)
            else Progress(cmds, pos + |data|, Rest(left), reply + data, |data|, all)
  {
    hide ReadAt, Content, First, Rest;
    var data := ReadAt(cmds, pos, BUFFER_SIZE);
    assert data == [] ==> reply + data == reply;
    var later := SendAll(cmds, pos + |data|, Rest(left));
    assert reply + (data + later.data) == reply + data + later.data;
  }

  lemma ProgressEnds(cmds: seq<Command>, pos: nat, left: seq<SendEvent>, reply: seq<byte>, all: Sent)
    requires Progress(cmds, pos, left, reply, 0, all)
    ensures all == Sent(reply, Success)
  {
  }

  /**
   send_messages, and what was sent. The two loops are those of the source; Waiting stands for a send
   that does not return. `turns` counts the reads: when nothing fails, those of a drain and one more
   that finds the end.
   */
  method SendMessages(dev: Device, file: OpenFile, plan: seq<SendEvent>)
    returns (verdict: Verdict, reply: seq<byte>, ghost turns: nat)
    requires dev.Valid()
    requires forall i :: 0 <= i < |plan| ==> plan[i].env.residue == 0
    modifies file
    ensures dev.Valid() && dev.View() == old(dev.View())
    ensures Sent(reply, verdict) == SendAll(dev.View().commands, old(file.fPos), plan)
    ensures plan == [] ==> turns == |Drain(dev.View().commands, old(file.fPos), 1024)| + 1
  {
    hide KernelHeap.Owns, KernelHeap.LogOf, ReadAt, Content, SendAll, Progress, Drain;
    ghost var cmds := dev.View().commands;
    ghost var all := SendAll(cmds, file.fPos, plan);
    var left := plan;
    var bytesRead: int := BUFFER_SIZE;
    reply, turns := [], 0;
    ghost var pieces := |Drain(cmds, file.fPos, BUFFER_SIZE)|;
    ProgressStarts(cmds, file.fPos, plan);
    while bytesRead > 0
      invariant dev.Valid() && dev.View() == old(dev.View())
      invariant bytesRead >= 0
      invariant forall i :: 0 <= i < |left| ==> left[i].env.residue == 0
      invariant Progress(cmds, file.fPos, left, reply, bytesRead, all)
      invariant plan == [] ==> left == [] && turns + TurnsLeft(cmds, file.fPos, bytesRead) == pieces + 1
      decreases BytesLeft(cmds, file.fPos), bytesRead
    {
      ghost var began := file.fPos;
      var again := true;
      while again
        invariant dev.Valid() && dev.View() == old(dev.View())
        invariant bytesRead >= 0 && (again ==> bytesRead > 0)
        invariant forall i :: 0 <= i < |left| ==> left[i].env.residue == 0
        invariant Progress(cmds, file.fPos, left, reply, bytesRead, all)
        invariant plan == [] ==> left == [] && turns + TurnsLeft(cmds, file.fPos, bytesRead) == pieces + 1
        invariant began <= file.fPos
        invariant !again ==> (bytesRead == 0 || began < file.fPos <= |Content(cmds)|)
        decreases BytesLeft(cmds, file.fPos), again
      {
        ReadIsSlice(cmds, file.fPos, BUFFER_SIZE);
        ProgressGoesOn(cmds, file.fPos, left, reply, bytesRead, all);
        TurnTaken(cmds, file.fPos, bytesRead);
        turns := turns + 1;
        var event := First(left);
        var data;
        bytesRead, data := dev.Read(file, BUFFER_SIZE, event.env);
        if bytesRead < 0 {
          return Failure, reply, turns;
        }
        if event.fate.Breaks? {
          return Failure, reply, turns;
        }
        if event.fate.Stalls? && bytesRead > 0 {
          return Waiting, reply, turns;
        }
        reply := reply + data;
        left := Rest(left);
        again := bytesRead >= BUFFER_SIZE;
      }
    }
    ProgressEnds(cmds, file.fPos, left, reply, all);
    return Success, reply, turns;
  }

  /** The locked part of connection_thread on a device. */
  method ServeConnection(dev: Device, input: Input) returns (ending: Ending, reply: seq<byte>)
    requires dev.Valid()
    requires InputAllowed(input)
    modifies dev, dev.ring, dev.ring.entry, dev.heap
    ensures dev.Valid()
    ensures Outcome(dev.View(), reply, ending) == Body(old(dev.View()), input)
  {
    hide KernelHeap.Owns, KernelHeap.LogOf, RecvAll, SendAll;
    if !input.opens {
      return NotOpened, [];
    }
    var file := new OpenFile();
    var verdict := RecvMessages(dev, file, input.events);
    if !verdict.Success? {
      return EndingOf(verdict), [];
    }
    ghost var turns;
    verdict, reply, turns := SendMessages(dev, file, input.plan);
    ending := EndingOf(verdict);
  }
}
