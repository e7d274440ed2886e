/** What holds in every state of every run of the server. */
module ServerTheorems {
  import opened Bytes
  import opened Commands
  import opened DeviceSpec
  import opened Connections
  import opened ConnectionTheorems
  import opened Servers
  import opened ServerLocking
  import opened ServerLifetime

  lemma {:induction false} EveryStateSound(l: Log, actions: seq<Action>)
    requires LogFits(l)
    ensures var s := After(l, actions);
            LockInv(s) && SerialInv(l, s) && LifeInv(s)
  {
    hide LogFits, LockInv, SerialInv, LifeInv, Enabled, Next;
    if actions == [] {
      SerialStart(l);
      LifeStart(l);
    } else {
      var front, a := actions[..|actions| - 1], actions[|actions| - 1];
      EveryStateSound(l, front);
      var s := After(l, front);
      if Enabled(s, a) {
        SerialKept(l, s, a);
        LifeKept(s, a);
      }
    }
  }

  // ----- locking

  /** At most one thread is inside the locked region. */
  lemma MutualExclusion(l: Log, actions: seq<Action>, t: Tid, u: Tid)
    requires LogFits(l)
    requires var s := After(l, actions);
             t < |s.threads| && u < |s.threads| && Locked(s.threads[t].pc) && Locked(s.threads[u].pc)
    ensures t == u
  {
    hide After, SerialInv, LifeInv, LogFits;
    EveryStateSound(l, actions);
  }

  /** How often `t` occurs in `s`. */
  function Count(s: seq<Tid>, t: Tid): nat {
    if s == [] then 0 else Count(s[..|s| - 1], t) + if s[|s| - 1] == t then 1 else 0
  }

  lemma {:induction false} CountDistinct(s: seq<Tid>, t: Tid)
    requires Distinct(s)
    ensures Count(s, t) == if t in s then 1 else 0
  {
    if s != [] {
      CountDistinct(s[..|s| - 1], t);
    }
  }

  /** Whatever path it takes, a thread that has exited locked once and unlocked once. */
  lemma UnlocksExactlyOnce(l: Log, actions: seq<Action>, t: Tid)
    requires LogFits(l)
    requires var s := After(l, actions); t < |s.threads| && s.threads[t].pc.Exited?
    ensures var s := After(l, actions);
            Count(s.order, t) == 1 && Count(s.released, t) == 1
  {
    hide After, SerialInv, LifeInv, LogFits, Count;
    EveryStateSound(l, actions);
    var s := After(l, actions);
    CountDistinct(s.order, t);
    assert s.order[..|s.released|] == s.released;
    assert Distinct(s.released);
    CountDistinct(s.released, t);
    if s.owner.Some? {
      var i :| 0 <= i < |s.order| && s.order[i] == t;
      assert s.order[|s.released|] == s.owner.value;
      assert s.released[i] == t;
    }
  }

  // ----- serialisability

  /**
   In every state, every client whose thread has given the mutex back has the reply of the serial run
   that serves the connections one after another in lock order; and whenever the mutex is free, the
   device is what that serial run makes it.
   */
  lemma Serialisable(l: Log, actions: seq<Action>)
    requires LogFits(l)
    ensures var s := After(l, actions);
            && OrderInRange(s)
            && s.released <= s.order
            && (s.owner.None? ==> s.released == s.order && s.log == SerialLog(l, InputsInOrder(s)))
            && forall i :: 0 <= i < |s.released| ==>
                 var o := SerialOutcome(l, InputsInOrder(s), i);
                 s.threads[s.order[i]].reply == o.reply && s.threads[s.order[i]].ending == o.ending
  {
    hide After, LifeInv, LogFits, SerialLog, Body;
    EveryStateSound(l, actions);
    var s := After(l, actions);
    forall i | 0 <= i < |s.released|
      ensures var o := SerialOutcome(l, InputsInOrder(s), i);
              s.threads[s.order[i]].reply == o.reply && s.threads[s.order[i]].ending == o.ending
    {
      assert Answered(l, s, i);
    }
  }

  /** The first the i-th thread to take the mutex met were `pieces`, and there was memory for them with what was pending then. */
  ghost predicate SentMessage(l: Log, s: State, i: nat, pieces: seq<seq<byte>>)
    requires LogFits(l) && OrderInRange(s) && i < |s.order|
  {
    && s.threads[s.order[i]].input.opens
    && Chunks(pieces) <= s.threads[s.order[i]].input.events
    && s.threads[s.order[i]].input.plan == []
    && |SerialLog(l, InputsInOrder(s)[..i]).pending| + |Content(pieces)| <= KMALLOC_MAX
  }

  /**
   Across all interleavings: a connection that sends a message received as full buffers and a short one
   commits exactly that message, behind whatever text another client left pending, and once it has given
   the mutex back it has been answered with the whole ring as it was then.
   */
  lemma EveryClientGetsTheRing(l: Log, actions: seq<Action>, i: nat, pieces: seq<seq<byte>>)
    requires LogFits(l) && i < |After(l, actions).released|
    requires MessageInPieces(pieces) && FullThenShort(pieces)
    ensures var s := After(l, actions);
            && OrderInRange(s) && s.released <= s.order
            && (SentMessage(l, s, i, pieces) ==>
                  var found := SerialLog(l, InputsInOrder(s)[..i]);
                  var ring := Push(found.commands, found.pending + Content(pieces));
                  && SerialLog(l, InputsInOrder(s)[..i + 1]) == Log(ring, [])
                  && s.threads[s.order[i]].reply == Content(ring)
                  && s.threads[s.order[i]].ending == Completed)
  {
    hide After, LogFits, Body, SerialLog, Content, MessageInPieces, FullThenShort;
    Serialisable(l, actions);
    var s := After(l, actions);
    if SentMessage(l, s, i, pieces) {
      var inputs := InputsInOrder(s);
      var events := inputs[i].events;
      assert events == Chunks(pieces) + events[|pieces|..];
      MessageServedAnyway(SerialLog(l, inputs[..i]), pieces, events[|pieces|..]);
      assert inputs[..i + 1][..i] == inputs[..i];
      SerialStep(l, inputs[..i + 1]);
    }
  }

  /** A thread on its course has sent the beginning of its reply. */
  lemma CourseReply(from: Log, l: Log, th: Thread)
    requires LogFits(from) && Fresh(th) && Locked(th.pc) && OnCourse(from, l, th)
    ensures th.reply <= Body(from, th.input).reply
  {
    hide LogFits, RecvAll, SendAll, SentSoFar, HeardSoFar;
  }

  /**
   In every state, whatever failed or stalled, what a thread has sent is the beginning of the file from the
   position it received for, on the device of its turn in the serial run.
   */
  lemma RepliesAreBeginnings(l: Log, actions: seq<Action>, i: nat)
    requires LogFits(l) && i < |After(l, actions).order|
    ensures var s := After(l, actions);
            && OrderInRange(s)
            && var inputs := InputsInOrder(s);
               s.threads[s.order[i]].reply <= FileAhead(RecvAll(SerialLog(l, inputs[..i]), 0, inputs[i].events))
  {
    hide After, LifeInv, LogFits, SerialLog, Body, RecvAll, FileAhead;
    EveryStateSound(l, actions);
    var s := After(l, actions);
    var inputs := InputsInOrder(s);
    BodyReply(SerialLog(l, inputs[..i]), inputs[i]);
    if i < |s.released| {
      assert Answered(l, s, i);
    } else {
      var th := s.threads[s.order[i]];
      CourseReply(FoundBy(l, s), s.log, th);
    }
  }

  // ----- lifetime

  /** At the head of the main loop the list is exactly the threads created and not yet joined. */
  lemma ListIsUnjoined(l: Log, actions: seq<Action>, t: Tid)
    requires LogFits(l)
    requires After(l, actions).main.LoopHead?
    ensures var s := After(l, actions);
            Distinct(s.list) && (t in s.list <==> t < |s.threads| && t !in s.joined)
  {
    hide After, SerialInv, LockInv, LogFits, HeapInv;
    EveryStateSound(l, actions);
  }

  /**
   A thread that has exited has its flag set exactly when the device opened for it. One whose device did
   not open is never joined before shutdown: it stays in the list until then.
   */
  lemma FlagDecidesReaping(l: Log, actions: seq<Action>, t: Tid)
    requires LogFits(l)
    requires t < |After(l, actions).threads|
    ensures var s := After(l, actions);
            && (s.threads[t].pc.Exited? ==> (s.threads[t].complete <==> s.threads[t].input.opens))
            && (!s.threads[t].input.opens && !ShuttingDown(s.main) ==>
                  t !in s.joined && (t in s.list || s.main == Inserting(t)))
  {
    hide After, SerialInv, LockInv, LogFits, HeapInv, CursorInv;
    EveryStateSound(l, actions);
    assert FlagInv(After(l, actions).threads[t]);
  }

  predicate InPass(main: MainPc) {
    main.Scanning? || main.Joining? || main.Freeing?
  }

  /** The flagged thread is still ahead of the pass, under its cursor, or freed. */
  predicate AheadOrGone(s: State, u: Tid) {
    match s.main
    case Scanning(rest) => u in s.gone || u in rest
    case Joining(t, rest) => u in s.gone || u in rest || u == t
    case Freeing(t, rest) => u in s.gone || u in rest || u == t
    case _ => u in s.gone
  }

  lemma PassStep(s: State, a: Action, u: Tid)
    requires LogFits(s.log) && LifeInv(s) && Enabled(s, a)
    requires InPass(s.main) && u < |s.threads| && s.threads[u].complete && AheadOrGone(s, u)
    ensures var s' := Next(s, a);
            u < |s'.threads| && s'.threads[u].complete && AheadOrGone(s', u)
  {
    hide LogFits, ThreadNext, HeapInv, ListInv, CursorInv;
    if a.ThreadStep? {
      FlagKept(s.log, s.threads[a.t], a.t in s.closed);
    } else if a.Scan? && s.main.rest != [] {
      assert s.main.rest == [s.main.rest[0]] + s.main.rest[1..];
    }
  }

  lemma LoopStarts(s: State)
    requires LogFits(s.log) && s.main.LoopHead?
    ensures Next(s, LoopTest(false)) == s.(main := Scanning(s.list))
  {
  }

  lemma OneMore(l: Log, actions: seq<Action>, a: Action)
    requires LogFits(l)
    ensures var s := After(l, actions);
            After(l, actions + [a]) == if Enabled(s, a) then Next(s, a) else s
  {
    hide LogFits, Next, Enabled;
    assert (actions + [a])[..|actions|] == actions;
  }

  /**
   A pass reaps: when the main thread has gone through the list once, from the loop head to accepting
   again, every thread listed with its flag set at the loop head has been joined and freed, whatever
   the other threads did meanwhile.
   */
  lemma {:induction false} PassReapsFlagged(l: Log, actions: seq<Action>, pass: seq<Action>, u: Tid)
    requires LogFits(l)
    requires var s := After(l, actions);
             s.main.LoopHead? && u in s.list && u < |s.threads| && s.threads[u].complete
    requires forall i :: 0 <= i < |pass| ==> InPass(After(l, actions + [LoopTest(false)] + pass[..i]).main)
    ensures var s := After(l, actions + [LoopTest(false)] + pass);
            && u < |s.threads| && s.threads[u].complete && AheadOrGone(s, u)
            && (s.main.Accepting? ==> u in s.joined && u in s.gone && u !in s.list)
    decreases |pass|
  {
    hide After, SerialInv, LockInv, LogFits, HeapInv, CursorInv, Next;
    var start := actions + [LoopTest(false)];
    if pass == [] {
      OneMore(l, actions, LoopTest(false));
      assert start + pass == start;
      LoopStarts(After(l, actions));
    } else {
      var n := |pass| - 1;
      var front, a := pass[..n], pass[n];
      assert forall i :: 0 <= i < n ==> front[..i] == pass[..i];
      PassReapsFlagged(l, actions, front, u);
      assert start + pass == start + front + [a];
      var s := After(l, start + front);
      EveryStateSound(l, start + front);
      assert InPass(s.main);
      OneMore(l, start + front, a);
      if Enabled(s, a) {
        PassStep(s, a, u);
      }
    }
    EveryStateSound(l, start + pass);
  }

  lemma MutexLives(s: State)
    requires HeapInv(s) && !s.main.Stopped?
    ensures Mutex in s.live
  {
  }

  lemma ListedAreLive(s: State, t: Tid)
    requires LifeInv(s) && t in s.list
    ensures RecordSet(t) <= s.live
  {
    hide CursorInv, JoinInv;
  }

  lemma TouchedByThread(s: State, t: Tid)
    requires LifeInv(s) && Enabled(s, ThreadStep(t))
    ensures Conn(t) in s.live && Mutex in s.live
  {
    assert t !in s.gone by { assert t in s.gone ==> t in s.joined; }
    assert t in s.list || s.main == Inserting(t);
  }

  lemma TouchedAreLive(s: State, a: Action)
    requires LifeInv(s) && Enabled(s, a)
    ensures Touches(s, a) <= s.live
  {
    hide HeapInv, ListInv, JoinInv, InputAllowed, Reachable, EventAllowed;
    if !s.main.Stopped? {
      MutexLives(s);
    }
    if a.ThreadStep? {
      TouchedByThread(s, a.t);
    } else if a.Scan? && s.main.rest != [] {
      assert s.list[|s.list| - |s.main.rest|] == s.main.rest[0];
      ListedAreLive(s, s.main.rest[0]);
    } else if a.Join? || a.Free? {
      assert s.list[|s.list| - |s.main.rest| - 1] == s.main.t;
      ListedAreLive(s, s.main.t);
      forall u | u in s.list ensures Node(u) in s.live { ListedAreLive(s, u); }
    } else if s.list != [] {
      ListedAreLive(s, s.list[0]);
    }
  }

  /** Nothing is touched that is not live: no use after free, no double free. */
  lemma TouchesOnlyLive(l: Log, actions: seq<Action>, a: Action)
    requires LogFits(l)
    requires Enabled(After(l, actions), a)
    ensures Touches(After(l, actions), a) <= After(l, actions).live
  {
    hide After, SerialInv, LockInv, LogFits;
    EveryStateSound(l, actions);
    var s := After(l, actions);
    TouchedAreLive(s, a);
  }

  /** The mutex is destroyed only when every thread created has been joined and the mutex is free. */
  lemma MutexOutlivesThreads(l: Log, actions: seq<Action>)
    requires LogFits(l)
    requires Enabled(After(l, actions), Destroy)
    ensures var s := After(l, actions);
            s.owner.None? && forall t :: 0 <= t < |s.threads| ==> t in s.joined && s.threads[t].pc.Exited?
  {
    hide After, SerialInv, LogFits, HeapInv;
    EveryStateSound(l, actions);
    var s := After(l, actions);
    forall t | 0 <= t < |s.threads|
      ensures t in s.joined && s.threads[t].pc.Exited?
    {
      assert t in s.gone;
    }
  }

  /** Once stopped, nothing is live, and every block of every thread created was freed exactly once. */
  lemma StoppedIsClean(l: Log, actions: seq<Action>, t: Tid)
    requires LogFits(l)
    requires After(l, actions).main.Stopped?
    requires t < |After(l, actions).threads|
    ensures var s := After(l, actions);
            && s.live == {}
            && Distinct(s.frees)
            && Mutex in s.frees && Conn(t) in s.frees && Handle(t) in s.frees && Node(t) in s.frees
  {
    hide After, SerialInv, LockInv, LogFits;
    EveryStateSound(l, actions);
    var s := After(l, actions);
    assert t in s.gone;
    assert forall u :: 0 <= u < |s.threads| ==> u in s.gone;
    assert forall a :: !ShouldLive(s, a);
  }

  lemma AllExited(s: State)
    requires s.main.Stopped? && RegionInv(s) && ListInv(s) && JoinInv(s) && CursorInv(s)
    ensures s.owner.None? && forall u :: 0 <= u < |s.threads| ==> s.threads[u].pc.Exited?
  {
    assert forall u :: 0 <= u < |s.threads| ==> u in s.gone && s.threads[u].pc.Exited?;
  }

  /** Once stopped, every connection was served: the device is that of the serial run over all threads. */
  lemma StoppedServedAll(l: Log, actions: seq<Action>, t: Tid)
    requires LogFits(l)
    requires After(l, actions).main.Stopped?
    ensures var s := After(l, actions);
            && (t in s.order <==> t < |s.threads|)
            && OrderInRange(s)
            && s.log == SerialLog(l, InputsInOrder(s))
  {
    hide After, LogFits, HeapInv, SerialLog, Body, Distinct, OnCourse, Fresh, Answered;
    EveryStateSound(l, actions);
    AllExited(After(l, actions));
  }
}
