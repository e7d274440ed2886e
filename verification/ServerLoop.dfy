/**
 The main loop of run_server: when it is left, that every turn comes back to its head whatever accept
 returns, in which order it keeps and frees its records, and when the threads' flags are set.
 */
module ServerLoop {
  import opened Bytes
  import Commands
  import opened DeviceSpec
  import opened Connections
  import SLists
  import opened Servers
  import opened ServerLocking
  import opened ServerLifetime
  import opened ServerTheorems

  // ----- when the loop is left

  /** The i-th action is the test of the loop condition, at the loop head, with the quit flag set. */
  ghost predicate QuitTested(l: Log, actions: seq<Action>, i: nat)
    requires LogFits(l) && i < |actions|
  {
    actions[i] == LoopTest(true) && After(l, actions[..i]).main.LoopHead?
  }

  /** The test of a set quit flag begins the shutdown, and nothing else begins or ends it. */
  lemma ShutdownBegins(s: State, a: Action)
    requires LogFits(s.log) && Enabled(s, a)
    ensures ShuttingDown(Next(s, a).main) <==> ShuttingDown(s.main) || a == LoopTest(true)
  {
    hide LogFits, ThreadNext;
  }

  lemma TestEnabled(s: State, a: Action)
    ensures a.LoopTest? ==> (Enabled(s, a) <==> s.main.LoopHead?)
  {
  }

  /** In every state the server is shutting down exactly when its loop condition has been tested with the quit flag set. */
  lemma {:induction false} ShutdownExactlyWhenTold(l: Log, actions: seq<Action>)
    requires LogFits(l)
    ensures ShuttingDown(After(l, actions).main) <==> exists i :: 0 <= i < |actions| && QuitTested(l, actions, i)
  {
    hide LogFits, Enabled, Next;
    if actions != [] {
      var n := |actions| - 1;
      var front, a := actions[..n], actions[n];
      ShutdownExactlyWhenTold(l, front);
      var s := After(l, front);
      if Enabled(s, a) {
        ShutdownBegins(s, a);
      }
      TestEnabled(s, a);
      forall i | 0 <= i < n ensures QuitTested(l, actions, i) <==> QuitTested(l, front, i) {
        assert actions[..i] == front[..i];
      }
      assert QuitTested(l, actions, n) <==> a == LoopTest(true) && s.main.LoopHead?;
    }
  }

  // ----- every turn of the loop comes to its end

  /** An action of the main thread. */
  predicate OfMain(a: Action) {
    !a.ThreadStep? && !a.Arrive?
  }

  function MainSteps(actions: seq<Action>): nat {
    if actions == [] then 0 else MainSteps(actions[..|actions| - 1]) + if OfMain(actions[|actions| - 1]) then 1 else 0
  }

  /** Steps of its own that the main thread has still to take until accept. */
  function UntilAccept(main: MainPc): nat {
    match main
    case Scanning(rest) => 3 * |rest| + 1
    case Joining(_, rest) => 3 * |rest| + 3
    case Freeing(_, rest) => 3 * |rest| + 2
    case _ => 0
  }

  /** At most so many steps of its own until it is at the head of the loop. */
  function UntilHead(main: MainPc): nat {
    match main
    case LoopHead => 0
    case Inserting(_) => 1
    case _ => UntilAccept(main) + 2
  }

  /** Each step of the main thread in a turn of the loop brings it nearer; the other threads and the network do not move it. */
  lemma TurnAdvances(s: State, a: Action)
    requires LogFits(s.log) && Enabled(s, a) && !ShuttingDown(s.main) && !s.main.LoopHead?
    ensures var main := Next(s, a).main;
            && !ShuttingDown(main)
            && (!OfMain(a) ==> main == s.main)
            && (OfMain(a) ==> UntilHead(main) < UntilHead(s.main))
            && (OfMain(a) && InPass(s.main) ==> (InPass(main) || main.Accepting?) && UntilAccept(main) < UntilAccept(s.main))
  {
    hide LogFits, ThreadNext;
  }

  /** Every action of `more` is possible when its turn comes after `actions`. */
  ghost predicate Possible(l: Log, actions: seq<Action>, more: seq<Action>)
    requires LogFits(l)
  {
    forall i :: 0 <= i < |more| ==> Enabled(After(l, actions + more[..i]), more[i])
  }

  lemma PossibleFront(l: Log, actions: seq<Action>, more: seq<Action>)
    requires LogFits(l) && more != [] && Possible(l, actions, more)
    ensures var front, a := more[..|more| - 1], more[|more| - 1];
            && Possible(l, actions, front)
            && Enabled(After(l, actions + front), a)
            && After(l, actions + more) == Next(After(l, actions + front), a)
  {
    hide After, LogFits, Enabled, Next;
    var n := |more| - 1;
    assert forall i :: 0 <= i < n ==> more[..n][..i] == more[..i];
    assert actions + more == actions + more[..n] + [more[n]];
    OneMore(l, actions + more[..n], more[n]);
  }

  /** While it has not come to the head, the steps taken and those still to take are within the bound. */
  lemma {:induction false} HeadCountdown(l: Log, actions: seq<Action>, more: seq<Action>)
    requires LogFits(l) && Possible(l, actions, more) && !ShuttingDown(After(l, actions).main)
    requires forall i :: 0 <= i < |more| ==> !After(l, actions + more[..i]).main.LoopHead?
    ensures !ShuttingDown(After(l, actions + more).main)
    ensures MainSteps(more) + UntilHead(After(l, actions + more).main) <= UntilHead(After(l, actions).main)
    decreases |more|
  {
    hide After, LogFits, Enabled, Next, UntilHead;
    if more == [] {
      assert actions + more == actions;
    } else {
      var n := |more| - 1;
      assert forall i :: 0 <= i < n ==> more[..n][..i] == more[..i];
      PossibleFront(l, actions, more);
      HeadCountdown(l, actions, more[..n]);
      TurnAdvances(After(l, actions + more[..n]), more[n]);
    }
  }

  lemma NotThereYet(main: MainPc)
    requires !main.LoopHead? && !ShuttingDown(main)
    ensures UntilHead(main) > 0
  {
  }

  /**
   Whatever accept returns and whatever the others do meanwhile, the main thread is at the head of its loop again
   once it has taken as many steps as the place it is at and the length of the list say.
   */
  lemma ReturnsToLoopHead(l: Log, actions: seq<Action>, more: seq<Action>)
    requires LogFits(l) && Possible(l, actions, more)
    requires !ShuttingDown(After(l, actions).main)
    requires MainSteps(more) >= UntilHead(After(l, actions).main)
    ensures exists i :: 0 <= i <= |more| && After(l, actions + more[..i]).main.LoopHead?
  {
    hide After, LogFits, Enabled, Next;
    if forall i :: 0 <= i <= |more| ==> !After(l, actions + more[..i]).main.LoopHead? {
      HeadCountdown(l, actions, more);
      assert more[..|more|] == more;
      NotThereYet(After(l, actions + more).main);
    }
  }

  lemma {:induction false} AcceptCountdown(l: Log, actions: seq<Action>, more: seq<Action>)
    requires LogFits(l) && Possible(l, actions, more) && InPass(After(l, actions).main)
    requires forall i :: 0 <= i <= |more| ==> !After(l, actions + more[..i]).main.Accepting?
    ensures InPass(After(l, actions + more).main)
    ensures MainSteps(more) + UntilAccept(After(l, actions + more).main) <= UntilAccept(After(l, actions).main)
    decreases |more|
  {
    hide After, LogFits, Enabled, Next, UntilAccept;
    if more == [] {
      assert actions + more == actions;
    } else {
      var n := |more| - 1;
      assert forall i :: 0 <= i <= n ==> more[..n][..i] == more[..i];
      PossibleFront(l, actions, more);
      AcceptCountdown(l, actions, more[..n]);
      TurnAdvances(After(l, actions + more[..n]), more[n]);
      assert more[..|more|] == more;
    }
  }

  lemma StillInPass(main: MainPc)
    requires InPass(main)
    ensures UntilAccept(main) > 0
  {
  }

  /** From the head of the loop, without a quit, it is at accept again within three steps for each record in the list and one more. */
  lemma ReachesAccept(l: Log, actions: seq<Action>, more: seq<Action>)
    requires LogFits(l) && After(l, actions).main.LoopHead?
    requires Possible(l, actions + [LoopTest(false)], more)
    requires MainSteps(more) >= 3 * |After(l, actions).list| + 1
    ensures exists i :: 0 <= i <= |more| && After(l, actions + [LoopTest(false)] + more[..i]).main.Accepting?
  {
    hide After, LogFits, Enabled, Next;
    var start := actions + [LoopTest(false)];
    TestEnabled(After(l, actions), LoopTest(false));
    OneMore(l, actions, LoopTest(false));
    LoopStarts(After(l, actions));
    if forall i :: 0 <= i <= |more| ==> !After(l, start + more[..i]).main.Accepting? {
      AcceptCountdown(l, start, more);
      StillInPass(After(l, start + more).main);
    }
  }

  /**
   And nothing keeps it from taking them: before shutdown, in every state, the main thread can take a step, or it
   joins a thread that is flagged and has nothing left to do but to give the mutex back. At accept both outcomes are possible.
   */
  lemma LoopGoesOn(l: Log, actions: seq<Action>, input: Input) returns (a: Action)
    requires LogFits(l) && !ShuttingDown(After(l, actions).main)
    ensures var s := After(l, actions);
            && Enabled(s, a)
            && (!OfMain(a) ==>
                  && s.main.Joining? && a == ThreadStep(s.main.t) && s.main.t < |s.threads|
                  && s.threads[s.main.t].pc.FailUnlock? && s.threads[s.main.t].complete)
            && (s.main.Accepting? && InputAllowed(input) ==> Enabled(s, AcceptNone) && Enabled(s, AcceptOne(input)))
  {
    hide After, LogFits, SerialInv, LockInv, HeapInv, ListInv;
    EveryStateSound(l, actions);
    var s := After(l, actions);
    match s.main
    case LoopHead => a := LoopTest(false);
    case Scanning(_) => a := Scan;
    case Joining(t, _) =>
      assert FlagInv(s.threads[t]);
      a := if s.threads[t].pc.Exited? then Join else ThreadStep(t);
    case Freeing(_, _) => a := Free;
    case Accepting => a := AcceptNone;
    case Inserting(_) => a := Insert;
  }

  // ----- the order of the list and of the frees

  predicate Descending(list: seq<Tid>) {
    forall i, j :: 0 <= i < j < |list| ==> list[i] > list[j]
  }

  predicate AllBelow(list: seq<Tid>, n: nat) {
    forall i :: 0 <= i < |list| ==> list[i] < n
  }

  /** The list is newest first, and a thread that is being inserted is newer than all of it. */
  ghost predicate NewestInv(s: State) {
    && Descending(s.list)
    && AllBelow(s.list, |s.threads|)
    && (s.main.Inserting? ==> s.main.t < |s.threads| && AllBelow(s.list, s.main.t))
  }

  lemma DroppedDescends(list: seq<Tid>, k: nat, n: nat)
    requires Descending(list) && AllBelow(list, n) && k < |list|
    ensures Descending(list[..k] + list[k + 1..]) && AllBelow(list[..k] + list[k + 1..], n)
  {
    var out := list[..k] + list[k + 1..];
    assert forall i :: 0 <= i < |out| ==> out[i] == list[if i < k then i else i + 1];
  }

  lemma RemovedDescends(list: seq<Tid>, t: Tid, rest: seq<Tid>, n: nat)
    requires Descending(list) && AllBelow(list, n) && EndOf([t] + rest, list)
    ensures Descending(SLists.Without(list, t)) && AllBelow(SLists.Without(list, t), n)
  {
    hide SLists.Without;
    var k := |list| - |rest| - 1;
    assert list[k..] == [t] + rest;
    assert list[k] == t;
    SLists.WithoutAt(list, k);
    DroppedDescends(list, k, n);
  }

  lemma TailDescends(list: seq<Tid>, n: nat)
    requires Descending(list) && AllBelow(list, n) && list != []
    ensures Descending(list[1..]) && AllBelow(list[1..], n)
  {
  }

  lemma HeadDescends(list: seq<Tid>, t: Tid, n: nat)
    requires Descending(list) && AllBelow(list, t) && t < n
    ensures Descending([t] + list) && AllBelow([t] + list, n)
  {
  }

  lemma AllBelowMore(list: seq<Tid>, n: nat)
    requires AllBelow(list, n)
    ensures AllBelow(list, n + 1)
  {
  }

  lemma NewestKept(s: State, a: Action)
    requires LogFits(s.log) && LifeInv(s) && NewestInv(s) && Enabled(s, a)
    ensures NewestInv(Next(s, a))
  {
    hide LogFits, ThreadNext, HeapInv, JoinInv, ListInv, SLists.Without, Descending, AllBelow, EndOf;
    if a.Free? {
      RemovedDescends(s.list, s.main.t, s.main.rest, |s.threads|);
    } else if a.DrainFree? {
      TailDescends(s.list, |s.threads|);
    } else if a.Insert? {
      HeadDescends(s.list, s.main.t, |s.threads|);
    } else if a.AcceptOne? {
      AllBelowMore(s.list, |s.threads|);
    }
  }

  /** Each node is freed right behind its connection record, and that right behind its thread handle. */
  ghost predicate FreedInOrder(frees: seq<Addr>) {
    forall i :: 0 <= i < |frees| && frees[i].Node? ==> i >= 2 && frees[i - 2..i + 1] == RecordOf(frees[i].t)
  }

  lemma OneRecordMore(frees: seq<Addr>, t: Tid)
    requires FreedInOrder(frees)
    ensures FreedInOrder(frees + RecordOf(t))
  {
    var all, n := frees + RecordOf(t), |frees|;
    forall i | 0 <= i < |all| && all[i].Node?
      ensures i >= 2 && all[i - 2..i + 1] == RecordOf(all[i].t)
    {
      if i < n {
        assert all[i - 2..i + 1] == frees[i - 2..i + 1];
      } else {
        assert i == n + 2 && all[n..n + 3] == RecordOf(t);
      }
    }
  }

  lemma MutexLast(frees: seq<Addr>)
    requires FreedInOrder(frees)
    ensures FreedInOrder(frees + [Mutex])
  {
    var all := frees + [Mutex];
    forall i | 0 <= i < |all| && all[i].Node?
      ensures i >= 2 && all[i - 2..i + 1] == RecordOf(all[i].t)
    {
      assert all[i - 2..i + 1] == frees[i - 2..i + 1];
    }
  }

  lemma FreesKept(s: State, a: Action)
    requires LogFits(s.log) && FreedInOrder(s.frees) && Enabled(s, a)
    ensures FreedInOrder(Next(s, a).frees)
  {
    hide LogFits, ThreadNext, RecordOf, FreedInOrder;
    if a.Free? || a.DrainFree? {
      OneRecordMore(s.frees, s.main.t);
    } else if a.Destroy? {
      MutexLast(s.frees);
    }
  }

  // ----- whose descriptors are closed

  /** Closed are the descriptors of the thread that a shutdown is joining and of those it has joined, and no others. */
  ghost predicate CloseInv(s: State) {
    && (!ShuttingDown(s.main) ==> s.closed == {})
    && (s.main.DrainJoining? || s.main.DrainFreeing? ==> s.main.t in s.closed)
    && (forall t :: t in s.closed ==> t in s.joined || s.main == DrainJoining(t))
  }

  lemma CloseKept(s: State, a: Action)
    requires LogFits(s.log) && CloseInv(s) && Enabled(s, a)
    ensures CloseInv(Next(s, a))
  {
    hide LogFits, ThreadNext;
  }

  // ----- when the flag is set

  /** How a thread ends is fixed on its way out. */
  predicate EndingInv(th: Thread) {
    match th.pc
    case InSend => th.ending.Stalled?
    case FailFlags => th.ending.Failed?
    case FailUnlock => th.ending.Failed?
    case DoneUnlock => th.ending.Completed?
    case DoneFlags => th.ending.Completed?
    case Exited => !th.ending.Stalled? && (th.ending.NotOpened? <==> !th.input.opens)
    case QuietUnlock => th.ending.NotOpened?
    case _ => th.ending.NotOpened?
  }

  lemma EndingKept(l: Log, th: Thread, closed: bool)
    requires LogFits(l) && EndingInv(th) && FlagInv(th)
    ensures EndingInv(ThreadNext(l, th, closed).1)
  {
    hide LogFits, Consumed, ReceiveNext, SendNext;
    if th.pc.InRecv? {
      ReceiveMoves(l, th);
    } else if th.pc.Sending? {
      SendMoves(l, th);
    }
  }

  ghost predicate LoopInv(s: State) {
    && NewestInv(s)
    && FreedInOrder(s.frees)
    && CloseInv(s)
    && (forall t :: 0 <= t < |s.threads| ==> EndingInv(s.threads[t]))
  }

  lemma EndingsKept(s: State, a: Action, t: Tid)
    requires LogFits(s.log) && JoinInv(s) && Enabled(s, a)
    requires forall u :: 0 <= u < |s.threads| ==> EndingInv(s.threads[u])
    requires t < |Next(s, a).threads|
    ensures EndingInv(Next(s, a).threads[t])
  {
    hide LogFits, ThreadNext, MainMoves;
    if a.ThreadStep? {
      EndingKept(s.log, s.threads[a.t], a.t in s.closed);
    }
  }

  lemma StartInOrder(l: Log)
    ensures LoopInv(Initial(l))
  {
  }

  lemma JoinPart(s: State)
    requires LifeInv(s)
    ensures JoinInv(s)
  {
  }

  lemma {:induction false} EveryStateInOrder(l: Log, actions: seq<Action>)
    requires LogFits(l)
    ensures LoopInv(After(l, actions))
  {
    hide LogFits, Enabled, Next, LockInv, SerialInv, LifeInv, NewestInv, EndingInv, FreedInOrder, CloseInv;
    if actions == [] {
      StartInOrder(l);
    } else {
      var front, a := actions[..|actions| - 1], actions[|actions| - 1];
      EveryStateInOrder(l, front);
      EveryStateSound(l, front);
      var s := After(l, front);
      if Enabled(s, a) {
        NewestKept(s, a);
        FreesKept(s, a);
        CloseKept(s, a);
        JoinPart(s);
        forall t | 0 <= t < |Next(s, a).threads| { EndingsKept(s, a, t); }
      }
    }
  }

  /**
   In every state: the list is newest first, so that a shutdown closes and joins the newest thread first; every
   record is freed as thread handle, connection record, node, in this order.
   */
  lemma NewestFirst(l: Log, actions: seq<Action>, i: nat, j: nat)
    requires LogFits(l)
    ensures var s := After(l, actions);
            && (i < j < |s.list| ==> s.list[i] > s.list[j])
            && (i < |s.frees| && s.frees[i].Node? ==>
                  i >= 2 && s.frees[i - 1] == Conn(s.frees[i].t) && s.frees[i - 2] == Handle(s.frees[i].t))
  {
    hide After, LogFits, EndingInv;
    EveryStateInOrder(l, actions);
    var frees := After(l, actions).frees;
    if i < |frees| && frees[i].Node? {
      assert frees[i - 2..i + 1][0] == frees[i - 2] && frees[i - 2..i + 1][1] == frees[i - 1];
    }
  }

  /**
   In every state: the main thread closes no descriptor before shutdown, and then exactly that of the thread it
   goes on to join; every other closed one belongs to a thread that has been joined.
   */
  lemma ClosesWhatItJoins(l: Log, actions: seq<Action>, t: Tid)
    requires LogFits(l)
    ensures var s := After(l, actions);
            && (s.main == DrainJoining(t) ==> t in s.closed)
            && (t in s.closed ==> ShuttingDown(s.main) && (s.main == DrainJoining(t) || t in s.joined))
  {
    hide After, LogFits, EndingInv, NewestInv, FreedInOrder;
    EveryStateInOrder(l, actions);
  }

  /**
   In every state: a thread that has its flag set has exited, or has failed and is about to give the mutex back; so
   the flag of a thread that served its client is set only after its unlock. A thread that has failed or served its
   client and has exited has it set.
   */
  lemma FlagTiming(l: Log, actions: seq<Action>, t: Tid)
    requires LogFits(l) && t < |After(l, actions).threads|
    ensures var s := After(l, actions);
            var th := s.threads[t];
            && (th.complete && !th.pc.Exited? ==> s.owner == Some(t) && th.ending == Failed)
            && (t in s.released && th.ending == Failed ==> th.complete)
            && (th.pc.Exited? && th.ending != NotOpened ==> th.complete)
  {
    hide After, LogFits, SerialInv, HeapInv, ListInv, CursorInv, NewestInv, FreedInOrder;
    EveryStateInOrder(l, actions);
    EveryStateSound(l, actions);
    var s := After(l, actions);
    assert FlagInv(s.threads[t]) && EndingInv(s.threads[t]);
    if t in s.released {
      var i :| 0 <= i < |s.released| && s.released[i] == t;
      assert s.order[i] == t;
      DistinctPositions(s, i);
    }
  }
}
