/**
 Conservation across the whole server: the device is assembled from what the connections wrote, one
 connection after the other in lock order, and nothing is lost but by eviction.
 */
module ServerConservation {
  import opened Bytes
  import opened Commands
  import opened DeviceSpec
  import opened DeviceTheorems
  import opened Connections
  import opened ConnectionWrites
  import opened Servers
  import opened ServerLocking
  import ServerLifetime
  import opened ServerTheorems

  // ----- writes and histories

  /** The device of a history. */
  function DeviceOf(h: History): Log {
    Log(Newest(h.all), h.pending)
  }

  lemma AssembleStep(writes: seq<seq<byte>>, last: seq<byte>)
    ensures Accept(DeviceOf(Assemble(writes)), last) == DeviceOf(Assemble(writes + [last]))
  {
    hide Newest, Push, EndsLine;
    assert (writes + [last])[..|writes|] == writes;
    var h := Assemble(writes);
    PushNewest(h.all, h.pending + last);
  }

  /** More writes on the device of a history make the device of the longer history. */
  lemma {:induction false} AssembleOn(before: seq<seq<byte>>, writes: seq<seq<byte>>)
    ensures AcceptAll(DeviceOf(Assemble(before)), writes) == DeviceOf(Assemble(before + writes))
  {
    hide Newest, Push, EndsLine;
    if writes == [] {
      assert before + writes == before;
    } else {
      var front, last := writes[..|writes| - 1], writes[|writes| - 1];
      AssembleOn(before, front);
      AssembleStep(before + front, last);
      assert before + writes == before + front + [last];
    }
  }

  lemma {:induction false} AcceptAllConcat(l: Log, a: seq<seq<byte>>, b: seq<seq<byte>>)
    ensures AcceptAll(l, a + b) == AcceptAll(AcceptAll(l, a), b)
  {
    hide Accept;
    if b == [] {
      assert a + b == a;
    } else {
      AcceptAllConcat(l, a, b[..|b| - 1]);
      assert (a + b)[..|a + b| - 1] == a + b[..|b| - 1];
    }
  }

  // ----- the serial run

  /** What one connection writes on the device it finds. */
  function WrittenBy(l: Log, input: Input): seq<seq<byte>>
    requires LogFits(l)
  {
    if input.opens then Written(l, 0, input.events) else []
  }

  /** What all of them write, one after another. */
  function WrittenByAll(l: Log, inputs: seq<Input>): seq<seq<byte>>
    requires LogFits(l)
  {
    if inputs == [] then []
    else
      var front := inputs[..|inputs| - 1];
      WrittenByAll(l, front) + WrittenBy(SerialLog(l, front), inputs[|inputs| - 1])
  }

  lemma {:induction false} SerialWrites(l: Log, inputs: seq<Input>)
    requires LogFits(l)
    ensures SerialLog(l, inputs) == AcceptAll(l, WrittenByAll(l, inputs))
  {
    hide LogFits, RecvAll, SendAll, Written;
    if inputs != [] {
      var front, last := inputs[..|inputs| - 1], inputs[|inputs| - 1];
      SerialWrites(l, front);
      ReceivingWrites(SerialLog(l, front), 0, last.events);
      AcceptAllConcat(l, WrittenByAll(l, front), WrittenBy(SerialLog(l, front), last));
    }
  }

  // ----- every state of every run

  /** What a thread has met so far: while it receives, only what it has received. */
  function MetBy(th: Thread): Input {
    if Listens(th.pc) then th.input.(events := Consumed(th)) else th.input
  }

  function InputsMet(s: State): (r: seq<Input>)
    requires OrderInRange(s)
    ensures |r| == |s.order|
    ensures forall i :: 0 <= i < |r| ==> r[i] == MetBy(s.threads[s.order[i]])
  {
    seq(|s.order|, i requires 0 <= i < |s.order| => MetBy(s.threads[s.order[i]]))
  }

  /** A thread on its course has left the device as serving what it has met would. */
  lemma CourseDevice(from: Log, l: Log, th: Thread)
    requires LogFits(from) && Fresh(th) && Locked(th.pc) && OnCourse(from, l, th)
    ensures l == Body(from, MetBy(th)).log
  {
    hide LogFits, SendAll, SentSoFar, HandleChunk;
    if th.pc.AtOpen? {
      assert Consumed(th) == [];
    }
  }

  /** Who gave the mutex back has met all of its input; of the last, the owner, it is as above. */
  lemma ReleasedMet(s: State)
    requires LockInv(s)
    ensures InputsMet(s)[..|s.released|] == InputsInOrder(s)[..|s.released|]
  {
    hide Consumed, Distinct;
    forall i | 0 <= i < |s.released|
      ensures InputsMet(s)[i] == InputsInOrder(s)[i]
    {
      var u := s.order[i];
      DistinctPositions(s, i);
      assert u in s.order;
      assert !Locked(s.threads[u].pc) && !BeforeLock(s.threads[u].pc);
    }
  }

  /** In every state the device is that of the serial run over what the threads have met so far. */
  lemma DeviceIsSerial(l: Log, s: State)
    requires LogFits(l) && LockInv(s) && SerialInv(l, s)
    ensures s.log == SerialLog(l, InputsMet(s))
  {
    hide LogFits, Body, OnCourse, Fresh, Answered, Distinct, MetBy, SerialLog;
    ReleasedMet(s);
    var met, inputs := InputsMet(s), InputsInOrder(s);
    if s.owner.None? {
      assert met[..|s.released|] == met && inputs[..|s.released|] == inputs;
    } else {
      var n := |s.released|;
      assert s.order[n] == s.owner.value;
      assert met[..|met| - 1] == inputs[..|inputs| - 1];
      CourseDevice(FoundBy(l, s), s.log, s.threads[s.owner.value]);
      SerialStep(l, met);
    }
  }

  /**
   Server-wide conservation, in every state of every run on a device that the writes `before` made: all bytes
   written before and by the connections, one connection after the other in the order they took the mutex, are
   the evicted commands, then the ring, then the pending text; the ring is the newest ten of all commands
   assembled from them, each ended by a newline, and the pending text is not.
   */
  lemma ServerConservation(l: Log, actions: seq<Action>, before: seq<seq<byte>>)
    requires LogFits(l) && l == DeviceOf(Assemble(before))
    ensures var s := After(l, actions);
            && OrderInRange(s)
            && var writes := before + WrittenByAll(l, InputsMet(s));
               var all := Assemble(writes).all;
               && s.log.commands == Newest(all)
               && all == Evicted(all) + s.log.commands
               && Content(Evicted(all)) + Content(s.log.commands) + s.log.pending == Content(writes)
               && (forall i :: 0 <= i < |s.log.commands| ==> EndsLine(s.log.commands[i]))
               && !EndsLine(s.log.pending)
               && (s.owner.None? ==> InputsMet(s) == InputsInOrder(s))
  {
    hide After, LogFits, SerialInv, SerialLog, WrittenByAll, Assemble, AcceptAll, Content, MetBy, Distinct, ServerLifetime.LifeInv;
    EveryStateSound(l, actions);
    var s := After(l, actions);
    DeviceIsSerial(l, s);
    ReleasedMet(s);
    if s.owner.None? {
      assert InputsMet(s)[..|s.released|] == InputsMet(s) && InputsInOrder(s)[..|s.released|] == InputsInOrder(s);
    }
    var w := WrittenByAll(l, InputsMet(s));
    SerialWrites(l, InputsMet(s));
    AssembleOn(before, w);
    AssembleConserves(before + w);
    var all := Assemble(before + w).all;
    assert all == Evicted(all) + Newest(all);
    ContentConcat(Evicted(all), Newest(all));
  }
}
