/** When a connection waits for its client: with the mutex held, this is what holds up the server. */
module ConnectionStalls {
  import opened Bytes
  import opened Commands
  import opened DeviceSpec
  import opened SeekCommands
  import opened Connections
  import ConnectionWrites

  /** The receive loop ends by itself if some event is an error, a close or a chunk that does not fill the buffer. */
  predicate EndsReceiving(events: seq<RecvEvent>) {
    exists i :: 0 <= i < |events| && (events[i].RecvError? || |events[i].data| < 1024)
  }

  lemma {:induction false} ReceivingEnds(l: Log, pos: FilePos, events: seq<RecvEvent>)
    requires LogFits(l) && EndsReceiving(events)
    ensures !RecvAll(l, pos, events).verdict.Waiting?
    decreases events
  {
    hide HandleChunk, LogFits;
    var i :| 0 <= i < |events| && (events[i].RecvError? || |events[i].data| < BUFFER_SIZE);
    if i > 0 && events[0].Chunk? && |events[0].data| >= BUFFER_SIZE {
      var r := HandleChunk(l, pos, events[0].data, events[0].env);
      assert events[1..][i - 1] == events[i];
      ReceivingEnds(r.log, r.pos, events[1..]);
    }
  }

  lemma {:induction false} SendingEnds(cmds: seq<Command>, pos: nat, plan: seq<SendEvent>)
    requires forall i :: 0 <= i < |plan| ==> !plan[i].fate.Stalls?
    ensures !SendAll(cmds, pos, plan).verdict.Waiting?
    decreases |Content(cmds)| - pos
  {
    hide ReadAt, Content;
    ReadIsSlice(cmds, pos, BUFFER_SIZE);
    var data := ReadAt(cmds, pos, BUFFER_SIZE);
    if data != [] {
      SendingEnds(cmds, pos + |data|, Rest(plan));
    }
  }

  /** What a client must do not to hold up the server: end its message in one of those ways, and read the reply. */
  lemma TalkativeNeverStalls(l: Log, input: Input)
    requires LogFits(l)
    requires EndsReceiving(input.events)
    requires forall i :: 0 <= i < |input.plan| ==> !input.plan[i].fate.Stalls?
    ensures !Body(l, input).ending.Stalled?
  {
    hide RecvAll, SendAll, LogFits;
    if input.opens {
      ReceivingEnds(l, 0, input.events);
      var r := RecvAll(l, 0, input.events);
      SendingEnds(r.log.commands, r.pos, input.plan);
    }
  }

  // ----- exactly when

  predicate StallsAt(plan: seq<SendEvent>, turns: nat, k: nat)
    requires k < |plan|
  {
    && k < turns && plan[k].fate.Stalls? && !plan[k].env.interrupted
    && forall j :: 0 <= j < k ==> plan[j].fate.Sends? && !plan[j].env.interrupted
  }

  /** A turn that stalls comes before any other that ends the loop, and before the loop has sent everything in `turns`. */
  predicate StallsWithin(plan: seq<SendEvent>, turns: nat) {
    exists k :: 0 <= k < |plan| && StallsAt(plan, turns, k)
  }

  lemma StallsLater(plan: seq<SendEvent>, turns: nat)
    requires plan != [] && plan[0].fate.Sends? && !plan[0].env.interrupted
    ensures StallsWithin(plan, turns + 1) <==> StallsWithin(plan[1..], turns)
  {
    var rest, more := plan[1..], turns + 1;
    if k :| 0 <= k < |plan| && StallsAt(plan, more, k) {
      assert StallsAt(rest, turns, k - 1);
    }
    if k :| 0 <= k < |rest| && StallsAt(rest, turns, k) {
      assert forall j :: 0 < j <= k ==> plan[j] == rest[j - 1];
      assert StallsAt(plan, more, k + 1);
    }
  }

  lemma StallsNow(plan: seq<SendEvent>, turns: nat)
    requires plan != [] && turns > 0 && (!plan[0].fate.Sends? || plan[0].env.interrupted)
    ensures StallsWithin(plan, turns) <==> plan[0].fate.Stalls? && !plan[0].env.interrupted
  {
    if plan[0].fate.Stalls? && !plan[0].env.interrupted {
      assert StallsAt(plan, turns, 0);
    }
  }

  lemma NoTurnNoStall(plan: seq<SendEvent>)
    ensures !StallsWithin(plan, 0)
  {
  }

  lemma NoPlanNoStall(turns: nat)
    ensures !StallsWithin([], turns) && !StallsWithin([], turns + 1)
  {
  }

  /** The send loop waits exactly when a stalling turn comes before it is done and before another failure. */
  lemma {:induction false} SendWaitsExactly(cmds: seq<Command>, pos: nat, plan: seq<SendEvent>)
    ensures SendAll(cmds, pos, plan).verdict.Waiting? <==> StallsWithin(plan, |Drain(cmds, pos, BUFFER_SIZE)|)
    decreases |Content(cmds)| - pos
  {
    hide ReadAt, Content, StallsWithin;
    ReadIsSlice(cmds, pos, BUFFER_SIZE);
    var data := ReadAt(cmds, pos, BUFFER_SIZE);
    NoTurnNoStall(plan);
    if data != [] {
      var turns := |Drain(cmds, pos + |data|, BUFFER_SIZE)|;
      SendWaitsExactly(cmds, pos + |data|, Rest(plan));
      if plan != [] && plan[0].fate.Sends? && !plan[0].env.interrupted {
        StallsLater(plan, turns);
      } else if plan != [] {
        StallsNow(plan, turns + 1);
      } else {
        NoPlanNoStall(turns);
      }
    }
  }

  /** No device call of its own fails, and no text has the shape of a seek. */
  ghost predicate PlainEvents(events: seq<RecvEvent>) {
    forall i :: 0 <= i < |events| && events[i].Chunk? ==> events[i].env == FINE && !SeekShaped(events[i].data)
  }

  function EventBytes(events: seq<RecvEvent>): nat {
    if events == [] then 0 else (if events[0].Chunk? then |events[0].data| else 0) + EventBytes(events[1..])
  }

  lemma EndsLater(events: seq<RecvEvent>)
    requires events != [] && events[0].Chunk? && |events[0].data| >= BUFFER_SIZE
    ensures EndsReceiving(events) <==> EndsReceiving(events[1..])
  {
    var rest := events[1..];
    if i :| 0 <= i < |rest| && (rest[i].RecvError? || |rest[i].data| < BUFFER_SIZE) {
      assert events[i + 1] == rest[i];
    }
    if i :| 0 <= i < |events| && (events[i].RecvError? || |events[i].data| < BUFFER_SIZE) {
      assert rest[i - 1] == events[i];
    }
  }

  /** The receive loop waits exactly when everything that came filled the buffer. */
  lemma {:induction false} ReceiveWaitsExactly(l: Log, pos: FilePos, events: seq<RecvEvent>)
    requires LogFits(l) && PlainEvents(events) && |l.pending| + EventBytes(events) <= KMALLOC_MAX
    ensures RecvAll(l, pos, events).verdict.Waiting? <==> !EndsReceiving(events)
    decreases events
  {
    hide HandleChunk, SeekShaped;
    if events != [] {
      if events[0].RecvError? || |events[0].data| < BUFFER_SIZE {
        assert EndsReceiving(events);
        ReceivingEnds(l, pos, events);
      } else {
        var e, rest := events[0], events[1..];
        var r := HandleChunk(l, pos, e.data, FINE);
        SeekExactlyWhenShaped(e.data);
        ConnectionWrites.OneChunk(l, pos, e.data);
        ReceiveWaitsExactly(r.log, r.pos, rest);
        EndsLater(events);
      }
    }
  }

  /**
   The whole connection stalls exactly when everything received filled the buffer, or receiving was
   successful and a send stalls before the reply is out.
   */
  lemma StallsExactly(l: Log, input: Input)
    requires LogFits(l) && PlainEvents(input.events) && |l.pending| + EventBytes(input.events) <= KMALLOC_MAX
    ensures var r := RecvAll(l, 0, input.events);
            Body(l, input).ending.Stalled? <==>
              && input.opens
              && (|| !EndsReceiving(input.events)
                  || (r.verdict.Success? && StallsWithin(input.plan, |Drain(r.log.commands, r.pos, BUFFER_SIZE)|)))
  {
    hide RecvAll, SendAll, LogFits, PlainEvents, EndsReceiving, StallsWithin, Drain;
    var r := RecvAll(l, 0, input.events);
    ReceiveWaitsExactly(l, 0, input.events);
    SendWaitsExactly(r.log.commands, r.pos, input.plan);
  }

  /** A client of which no text has the shape of a seek, for whose text there is memory, and that takes its reply. */
  ghost predicate PlainClient(l: Log, input: Input) {
    && PlainEvents(input.events)
    && |l.pending| + EventBytes(input.events) <= KMALLOC_MAX
    && (forall i :: 0 <= i < |input.plan| ==> !input.plan[i].fate.Stalls?)
  }

  /** For such a client what it sends decides. */
  lemma PlainStallsExactly(l: Log, input: Input)
    requires LogFits(l) && PlainClient(l, input)
    ensures Body(l, input).ending.Stalled? <==> input.opens && !EndsReceiving(input.events)
  {
    hide LogFits, RecvAll, Body, PlainEvents, EndsReceiving, Drain;
    StallsExactly(l, input);
  }
}
