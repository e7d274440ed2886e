/** Lifetime of threads and of their heap records, for every interleaving. */
module ServerLifetime {
  import opened Bytes
  import Commands
  import opened DeviceSpec
  import opened Connections
  import opened Servers
  import SLists

  /** `tail` is the end of `list`. */
  predicate EndOf(tail: seq<Tid>, list: seq<Tid>) {
    |tail| <= |list| && list[|list| - |tail|..] == tail
  }

  /** The thread the main thread has joined and is about to free. */
  function AboutToFree(main: MainPc): set<Tid> {
    if main.Freeing? || main.DrainFreeing? then {main.t} else {}
  }

  /** Where the main thread's cursor is in the list. */
  predicate CursorInv(s: State) {
    match s.main
    case Scanning(rest) => EndOf(rest, s.list)
    case Joining(t, rest) => EndOf([t] + rest, s.list) && t < |s.threads| && s.threads[t].complete
    case Freeing(t, rest) => EndOf([t] + rest, s.list)
    case Inserting(t) => t < |s.threads| && t !in s.list && t !in s.gone
    case DrainJoining(t) => s.list != [] && s.list[0] == t
    case DrainFreeing(t) => s.list != [] && s.list[0] == t
    case Destroying => s.list == []
    case Stopped => s.list == []
    case _ => true
  }

  /** The list holds exactly the created threads whose records are not freed, but for one not inserted yet. */
  ghost predicate ListInv(s: State) {
    && Distinct(s.list)
    && (forall t :: t in s.list ==> t < |s.threads| && t !in s.gone)
    && (forall t :: 0 <= t < |s.threads| && t !in s.gone ==> t in s.list || s.main == Inserting(t))
  }

  /** The thread_complete flag along the paths of a thread: it is set on the way out unless the device did not open. */
  predicate FlagInv(th: Thread) {
    match th.pc
    case Exited => th.complete <==> th.input.opens
    case FailUnlock => th.complete && th.input.opens
    case QuietUnlock => !th.complete && !th.input.opens
    case Starting => !th.complete
    case AtLock => !th.complete
    case AtOpen => !th.complete
    case _ => !th.complete && th.input.opens
  }

  /** Joined threads have exited; all of them are freed but the one about to be; the loop joins only flagged ones. */
  ghost predicate JoinInv(s: State) {
    && (forall t :: t in s.joined ==> t < |s.threads| && s.threads[t].pc.Exited?)
    && s.joined == s.gone + AboutToFree(s.main)
    && AboutToFree(s.main) * s.gone == {}
    && (forall t :: 0 <= t < |s.threads| ==> FlagInv(s.threads[t]))
    && (forall t :: t in s.joined && !ShuttingDown(s.main) ==> s.threads[t].complete)
  }

  predicate ShouldLive(s: State, a: Addr) {
    match a
    case Mutex => !s.main.Stopped?
    case Conn(t) => t < |s.threads| && t !in s.gone
    case Handle(t) => t < |s.threads| && t !in s.gone
    case Node(t) => t in s.list
  }

  predicate ShouldBeFreed(s: State, a: Addr) {
    match a
    case Mutex => s.main.Stopped?
    case Conn(t) => t in s.gone
    case Handle(t) => t in s.gone
    case Node(t) => t in s.gone
  }

  /** The live blocks are exactly what the list and the created threads say; each dead block was freed once. */
  ghost predicate HeapInv(s: State) {
    && (forall a :: a in s.live <==> ShouldLive(s, a))
    && (forall a :: a in s.frees <==> ShouldBeFreed(s, a))
    && Distinct(s.frees)
  }

  ghost predicate LifeInv(s: State) {
    CursorInv(s) && ListInv(s) && JoinInv(s) && HeapInv(s)
  }

  lemma LifeStart(l: Log)
    ensures LifeInv(Initial(l))
  {
  }

  // ----- list facts

  /** SLIST_REMOVE under the cursor: the element goes, the rest of the pass still ends the list. */
  lemma RemoveAtCursor(list: seq<Tid>, t: Tid, rest: seq<Tid>)
    requires Distinct(list) && EndOf([t] + rest, list)
    ensures Distinct(SLists.Without(list, t)) && EndOf(rest, SLists.Without(list, t))
    ensures t in list && forall u :: u in SLists.Without(list, t) <==> u in list && u != t
  {
    var k := |list| - |rest| - 1;
    assert list[k..] == [t] + rest;
    assert list[k] == t && list[k + 1..] == rest;
    SLists.WithoutAt(list, k);
    SLists.DropAt(list, k);
  }

  // ----- every step keeps the invariant

  lemma FlagKept(l: Log, th: Thread, closed: bool)
    requires LogFits(l) && FlagInv(th)
    ensures var next := ThreadNext(l, th, closed).1;
            FlagInv(next) && (th.complete ==> next.complete)
  {
    hide HandleChunk, Commands.ReadAt;
  }

  lemma LifeKeptByThread(s: State, t: Tid)
    requires LogFits(s.log) && LifeInv(s) && Enabled(s, ThreadStep(t))
    ensures LifeInv(Next(s, ThreadStep(t)))
  {
    hide LogFits, ThreadNext, FlagInv;
    FlagKept(s.log, s.threads[t], t in s.closed);
    var s' := Next(s, ThreadStep(t));
    assert s' == s.(log := s'.log, threads := s'.threads, owner := s'.owner, order := s'.order, released := s'.released);
    assert CursorInv(s');
    assert HeapInv(s') by {
      forall a ensures ShouldLive(s', a) == ShouldLive(s, a) && ShouldBeFreed(s', a) == ShouldBeFreed(s, a) {}
    }
  }

  lemma LifeKeptByArrival(s: State, t: Tid, event: RecvEvent)
    requires LogFits(s.log) && LifeInv(s) && Enabled(s, Arrive(t, event))
    ensures LifeInv(Next(s, Arrive(t, event)))
  {
    hide LogFits;
    var s' := Next(s, Arrive(t, event));
    assert HeapInv(s') by {
      forall a ensures ShouldLive(s', a) == ShouldLive(s, a) && ShouldBeFreed(s', a) == ShouldBeFreed(s, a) {}
    }
  }

  /** Freeing the records of a joined thread that is in the list. */
  lemma RecordsFreed(s: State, s': State, t: Tid)
    requires HeapInv(s) && ListInv(s) && t in s.list && !s.main.Stopped? && !s'.main.Stopped?
    requires s'.threads == s.threads && s'.gone == s.gone + {t}
    requires s'.live == s.live - RecordSet(t) && s'.frees == s.frees + RecordOf(t)
    requires forall u :: u in s'.list <==> u in s.list && u != t
    ensures HeapInv(s')
  {
    forall a
      ensures a in s'.live <==> ShouldLive(s', a)
      ensures a in s'.frees <==> ShouldBeFreed(s', a)
    {
      assert a in s'.frees <==> a in s.frees || a in RecordOf(t);
    }
    assert forall a :: a in RecordOf(t) ==> a !in s.frees;
  }

  lemma LifeKeptByFree(s: State)
    requires LifeInv(s) && Enabled(s, Free)
    ensures LifeInv(MainMoves(s, Free))
  {
    hide HeapInv, SLists.Without;
    RemoveAtCursor(s.list, s.main.t, s.main.rest);
    RecordsFreed(s, MainMoves(s, Free), s.main.t);
  }

  lemma LifeKeptByDrainFree(s: State)
    requires LifeInv(s) && Enabled(s, DrainFree)
    ensures LifeInv(MainMoves(s, DrainFree))
  {
    hide HeapInv;
    var t, rest := s.main.t, s.list[1..];
    forall u ensures u in rest <==> u in s.list && u != t {
      if u in s.list && u != t {
        var i :| 0 <= i < |s.list| && s.list[i] == u;
        assert rest[i - 1] == u;
      }
    }
    RecordsFreed(s, MainMoves(s, DrainFree), t);
  }

  lemma LifeKeptByAccept(s: State, input: Input)
    requires LifeInv(s) && Enabled(s, AcceptOne(input))
    ensures LifeInv(MainMoves(s, AcceptOne(input)))
  {
    var s' := MainMoves(s, AcceptOne(input));
    assert HeapInv(s') by {
      forall a ensures a in s'.live <==> ShouldLive(s', a) {}
    }
  }

  lemma LifeKeptByInsert(s: State)
    requires LifeInv(s) && Enabled(s, Insert)
    ensures LifeInv(MainMoves(s, Insert))
  {
    var s' := MainMoves(s, Insert);
    assert s'.list[0] == s.main.t && s'.list[1..] == s.list;
    assert HeapInv(s') by {
      forall a ensures a in s'.live <==> ShouldLive(s', a) {}
    }
  }

  lemma AppendedMember(s: seq<Addr>, x: Addr, a: Addr)
    ensures a in s + [x] <==> a in s || a == x
  {
    assert (s + [x])[|s|] == x;
  }

  lemma LifeKeptByDestroy(s: State)
    requires LifeInv(s) && Enabled(s, Destroy)
    ensures LifeInv(MainMoves(s, Destroy))
  {
    var s' := MainMoves(s, Destroy);
    assert Mutex !in s.frees;
    forall a
      ensures a in s'.live <==> ShouldLive(s', a)
      ensures a in s'.frees <==> ShouldBeFreed(s', a)
    {
      AppendedMember(s.frees, Mutex, a);
      assert a == Mutex || (ShouldLive(s', a) == ShouldLive(s, a) && ShouldBeFreed(s', a) == ShouldBeFreed(s, a));
    }
  }

  /** Moving the main thread on keeps the heap facts while list, threads and blocks stay. */
  lemma HeapUnmoved(s: State, main: MainPc, joined: set<Tid>, closed: set<Tid>)
    requires HeapInv(s) && !s.main.Stopped? && !main.Stopped?
    ensures HeapInv(s.(main := main, joined := joined, closed := closed))
  {
    var s' := s.(main := main, joined := joined, closed := closed);
    forall a ensures ShouldLive(s', a) == ShouldLive(s, a) && ShouldBeFreed(s', a) == ShouldBeFreed(s, a) {}
  }

  lemma LifeKeptByScan(s: State)
    requires LifeInv(s) && Enabled(s, Scan)
    ensures LifeInv(MainMoves(s, Scan))
  {
    hide HeapInv;
    var s' := MainMoves(s, Scan);
    HeapUnmoved(s, s'.main, s.joined, s.closed);
    var rest := s.main.rest;
    if rest != [] {
      assert [rest[0]] + rest[1..] == rest;
      assert s.list[|s.list| - |rest|] == rest[0];
    }
  }

  lemma LifeKeptByJoin(s: State)
    requires LifeInv(s) && Enabled(s, Join)
    ensures LifeInv(MainMoves(s, Join))
  {
    hide HeapInv;
    HeapUnmoved(s, Freeing(s.main.t, s.main.rest), s.joined + {s.main.t}, s.closed);
    assert s.list[|s.list| - |s.main.rest| - 1] == s.main.t;
  }

  /** The other steps of the main thread that only move its cursor or join. */
  lemma LifeKeptByMove(s: State, a: Action)
    requires LifeInv(s) && Enabled(s, a)
    requires a.LoopTest? || a.AcceptNone? || a.Drain? || a.DrainJoin?
    ensures LifeInv(MainMoves(s, a))
  {
    hide HeapInv;
    var s' := MainMoves(s, a);
    HeapUnmoved(s, s'.main, s'.joined, s'.closed);
  }

  lemma LifeKept(s: State, a: Action)
    requires LogFits(s.log) && LifeInv(s) && Enabled(s, a)
    ensures LifeInv(Next(s, a))
  {
    hide LifeInv, LogFits;
    match a
    case ThreadStep(t) => LifeKeptByThread(s, t);
    case Arrive(t, event) => LifeKeptByArrival(s, t, event);
    case Free => LifeKeptByFree(s);
    case DrainFree => LifeKeptByDrainFree(s);
    case AcceptOne(input) => LifeKeptByAccept(s, input);
    case Insert => LifeKeptByInsert(s);
    case Destroy => LifeKeptByDestroy(s);
    case Scan => LifeKeptByScan(s);
    case Join => LifeKeptByJoin(s);
    case _ => LifeKeptByMove(s, a);
  }
}
