/** What holds of the device over whole runs, proved from one-call behaviour. */
module DeviceTheorems {
  import opened Bytes
  import opened Commands
  import opened DeviceSpec

  // ----- conservation: nothing is lost but by eviction

  /** Every command ever committed, and the text pending after them. */
  datatype History = History(all: seq<Command>, pending: seq<byte>)

  /** The history that a sequence of accepted writes makes; nothing is ever evicted here. */
  function Assemble(writes: seq<seq<byte>>): History {
    if writes == [] then History([], [])
    else
      var h := Assemble(writes[..|writes| - 1]);
      var text := h.pending + writes[|writes| - 1];
      if EndsLine(text) then History(h.all + [text], []) else History(h.all, text)
  }

  predicate Accepted(s: System, op: Op) {
    op.Write? && op.fd < |s.files| && Succeeds(s.log, op.data, op.env)
  }

  /** The data of the writes that went through, in order. */
  function AcceptedWrites(s: System, ops: seq<Op>): seq<seq<byte>>
    requires LogFits(s.log)
  {
    if ops == [] then []
    else
      var before := AcceptedWrites(s, ops[..|ops| - 1]);
      var op := ops[|ops| - 1];
      if Accepted(Run(s, ops[..|ops| - 1]).0, op) then before + [op.data] else before
  }

  lemma PushNewest<T>(s: seq<T>, x: T)
    ensures Push(Newest(s), x) == Newest(s + [x])
  {
  }

  /** Assembling neither loses nor reorders bytes, and cuts exactly after terminated text. */
  lemma {:induction false} AssembleConserves(writes: seq<seq<byte>>)
    ensures var h := Assemble(writes);
            && Content(h.all) + h.pending == Content(writes)
            && (forall i :: 0 <= i < |h.all| ==> EndsLine(h.all[i]))
            && !EndsLine(h.pending)
  {
    if writes != [] {
      var front, last := writes[..|writes| - 1], writes[|writes| - 1];
      var h := Assemble(front);
      AssembleConserves(front);
      assert Content(h.all) + (h.pending + last) == Content(writes);
      ContentConcat(h.all, [h.pending + last]);
      ContentOne(h.pending + last);
    }
  }

  /** The ring is the newest ten commands of the history, and the pending text is the history's. */
  lemma {:induction false} RingIsNewestHistory(ops: seq<Op>)
    ensures var h := Assemble(AcceptedWrites(BOOTED, ops));
            Run(BOOTED, ops).0.log == Log(Newest(h.all), h.pending)
  {
    if ops != [] {
      var front, op := ops[..|ops| - 1], ops[|ops| - 1];
      RingIsNewestHistory(front);
      var s := Run(BOOTED, front).0;
      var writes := AcceptedWrites(BOOTED, front);
      if Accepted(s, op) {
        assert (writes + [op.data])[..|writes|] == writes;
        PushNewest(Assemble(writes).all, s.log.pending + op.data);
      }
    }
  }

  /** The commands committed before the newest ten. */
  function Evicted(all: seq<Command>): seq<Command> {
    if |all| <= CAPACITY then [] else all[..|all| - CAPACITY]
  }

  /**
   Stream conservation over every run: the bytes of the accepted writes are the
   evicted commands, then the ring, then the pending text; the ring holds the last
   min(n, 10) of the n commands committed, each ends in a newline, and the pending
   text does not.
   */
  lemma StreamConservation(ops: seq<Op>)
    ensures var log := Run(BOOTED, ops).0.log;
            var writes := AcceptedWrites(BOOTED, ops);
            var all := Assemble(writes).all;
            && |log.commands| == Min(|all|, 10)
            && all == Evicted(all) + log.commands
            && Content(Evicted(all)) + Content(log.commands) + log.pending == Content(writes)
            && (forall i :: 0 <= i < |log.commands| ==> log.commands[i] != [] && log.commands[i][|log.commands[i]| - 1] == 10)
            && (log.pending != [] ==> log.pending[|log.pending| - 1] != 10)
  {
    hide Run, Assemble, AcceptedWrites, Content;
    RingIsNewestHistory(ops);
    AssembleConserves(AcceptedWrites(BOOTED, ops));
    var all := Assemble(AcceptedWrites(BOOTED, ops)).all;
    assert all == Evicted(all) + Newest(all);
    ContentConcat(Evicted(all), Newest(all));
  }

  // ----- splitting a write

  function AcceptAll(l: Log, pieces: seq<seq<byte>>): Log {
    if pieces == [] then l else Accept(AcceptAll(l, pieces[..|pieces| - 1]), pieces[|pieces| - 1])
  }

  /** No piece but the last ends a line. */
  predicate OnlyLastMayEnd(pieces: seq<seq<byte>>) {
    forall i :: 0 <= i < |pieces| - 1 ==> !EndsLine(pieces[i])
  }

  lemma {:induction false} UnendedPiecesPend(l: Log, pieces: seq<seq<byte>>)
    requires forall i :: 0 <= i < |pieces| ==> pieces[i] != [] && !EndsLine(pieces[i])
    ensures AcceptAll(l, pieces) == Log(l.commands, l.pending + Content(pieces))
  {
    if pieces != [] {
      var front, last := pieces[..|pieces| - 1], pieces[|pieces| - 1];
      UnendedPiecesPend(l, front);
      assert l.pending + Content(front) + last == l.pending + Content(pieces);
    }
  }

  lemma {:induction false} PendingShrinks(l: Log, pieces: seq<seq<byte>>)
    requires forall i :: 0 <= i < |pieces| ==> pieces[i] != []
    requires exists i :: 0 <= i < |pieces| && EndsLine(pieces[i])
    ensures |AcceptAll(l, pieces).pending| < |l.pending| + |Content(pieces)|
  {
    var front, last := pieces[..|pieces| - 1], pieces[|pieces| - 1];
    if !EndsLine(last) {
      var i :| 0 <= i < |pieces| && EndsLine(pieces[i]);
      assert EndsLine(front[i]);
      PendingShrinks(l, front);
    }
  }

  lemma NewestIs(l: Log, data: seq<byte>)
    requires EndsLine(l.pending + data)
    ensures Accept(l, data).commands[|Accept(l, data).commands| - 1] == l.pending + data
  {
  }

  /** Writing in non-empty pieces is the same as writing at once, exactly when no proper piece ends a line. */
  lemma SplittingIsInvisible(l: Log, pieces: seq<seq<byte>>)
    requires pieces != []
    requires forall i :: 0 <= i < |pieces| ==> pieces[i] != []
    ensures AcceptAll(l, pieces) == Accept(l, Content(pieces)) <==> OnlyLastMayEnd(pieces)
  {
    var front, last := pieces[..|pieces| - 1], pieces[|pieces| - 1];
    var whole := l.pending + Content(pieces);
    assert whole == l.pending + Content(front) + last;
    if OnlyLastMayEnd(pieces) {
      UnendedPiecesPend(l, front);
    } else {
      var i :| 0 <= i < |pieces| - 1 && EndsLine(pieces[i]);
      assert EndsLine(front[i]);
      PendingShrinks(l, front);
      var text := AcceptAll(l, front).pending + last;
      assert |text| < |whole|;
      if EndsLine(last) {
        NewestIs(AcceptAll(l, front), last);
        NewestIs(l, Content(pieces));
      }
    }
  }

  // ----- failed writes leave no trace

  predicate FailedWrite(s: System, op: Op) {
    op.Write? && !Accepted(s, op)
  }

  /** The run without its failed writes, and the responses to what is left. */
  function WithoutFailures(s: System, ops: seq<Op>): (seq<Op>, seq<Response>)
    requires LogFits(s.log)
  {
    if ops == [] then ([], [])
    else
      var front, op := ops[..|ops| - 1], ops[|ops| - 1];
      var kept := WithoutFailures(s, front);
      var now := Run(s, front).0;
      if FailedWrite(now, op) then kept else (kept.0 + [op], kept.1 + [Step(now, op).1])
  }

  /** Leaving out the failed writes changes neither the state nor any other response. */
  lemma {:induction false} FailedWritesLeaveNoTrace(s: System, ops: seq<Op>)
    requires LogFits(s.log)
    ensures var kept := WithoutFailures(s, ops);
            Run(s, kept.0) == (Run(s, ops).0, kept.1)
  {
    if ops != [] {
      var front, op := ops[..|ops| - 1], ops[|ops| - 1];
      FailedWritesLeaveNoTrace(s, front);
      var kept := WithoutFailures(s, front);
      var now := Run(s, front).0;
      if !FailedWrite(now, op) {
        assert (kept.0 + [op])[..|kept.0|] == kept.0;
      }
    }
  }

  // ----- what the return code of a write tells

  /** Nothing at all could be copied from the caller. */
  predicate WholeCopyFaults(l: Log, data: seq<byte>, env: Env) {
    !env.interrupted && !env.noMemory && |l.pending| + |data| <= KMALLOC_MAX && env.residue >= |data|
  }

  /**
   The code of a write of something is negative for an interrupt and for want of memory, and otherwise the
   number of bytes stored or, when the copy faults, of bytes not copied. So "all of it" means stored
   exactly when the copy did not fault as a whole; in that case nothing was stored.
   */
  lemma CodeTellsStored(l: Log, data: seq<byte>, env: Env)
    requires data != []
    ensures WriteCode(l, data, env) == |data| <==> Succeeds(l, data, env) || WholeCopyFaults(l, data, env)
    ensures (WriteCode(l, data, env) == |data| <==> Succeeds(l, data, env)) <==> !WholeCopyFaults(l, data, env)
    ensures WholeCopyFaults(l, data, env) ==> !Succeeds(l, data, env) && WriteEffect(l, data, env) == l
    ensures WriteCode(l, data, env) < 0 <==> env.interrupted || env.noMemory || |l.pending| + |data| > KMALLOC_MAX
  {
  }

  // ----- eviction

  lemma DropOldest(cmds: seq<Command>)
    requires cmds != []
    ensures Content(cmds) == cmds[0] + Content(cmds[1..])
  {
    ContentConcat(cmds[..1], cmds[1..]);
    ContentOne(cmds[0]);
    assert cmds[..1] == [cmds[0]];
    assert cmds == cmds[..1] + cmds[1..];
  }

  lemma DropOldestSize(cmds: seq<Command>, k: nat)
    requires k < |cmds|
    ensures Sum(Sizes(cmds)[..k + 1]) == |cmds[0]| + Sum(Sizes(cmds[1..])[..k])
  {
    var sizes := Sizes(cmds);
    assert sizes[..k + 1] == sizes[..1] + Sizes(cmds[1..])[..k];
    SumConcat(sizes[..1], Sizes(cmds[1..])[..k]);
    SumStep(sizes, 0);
  }

  /**
   Committing into a full ring drops the oldest command and nothing else: the byte that
   (k + 1, o) named is now named by (k, o), and sits lower by the size of what was dropped.
   */
  lemma EvictionShifts(l: Log, data: seq<byte>, k: nat, o: nat)
    requires |l.commands| == CAPACITY
    requires EndsLine(l.pending + data)
    requires k + 1 < CAPACITY
    ensures var after := Accept(l, data).commands;
            var oldest := |l.commands[0]|;
            && oldest <= |Content(l.commands)|
            && Content(after) == Content(l.commands)[oldest..] + (l.pending + data)
            && var was := SeekPosition(l.commands, k + 1, o);
               var now := SeekPosition(after, k, o);
               && (was.Some? <==> now.Some?)
               && (was.Some? ==>
                     && now.value == was.value - oldest
                     && was.value < |Content(l.commands)|
                     && now.value < |Content(after)|
                     && Content(after)[now.value] == Content(l.commands)[was.value])
  {
    hide Sum, Content, Locate;
    var cmds, text := l.commands, l.pending + data;
    var after := Accept(l, data).commands;
    assert after == cmds[1..] + [text];
    DropOldest(cmds);
    ContentConcat(cmds[1..], [text]);
    ContentOne(text);
    if o < |cmds[k + 1]| {
      DropOldestSize(cmds, k);
      assert Sizes(after)[..k] == Sizes(cmds[1..])[..k];
      SeekThenLocate(cmds, k + 1, o);
      SeekThenLocate(after, k, o);
    }
  }

  // ----- seeking to the end

  /** SEEK_END with offset 0 moves to the least position at which a lookup finds nothing. */
  lemma SeekEndIsFirstMiss(l: Log, pos: FilePos, miss: nat)
    requires LogFits(l)
    ensures var end := LlseekResult(l, pos, 0, SEEK_END, FINE);
            && end.Some?
            && (Locate(Sizes(l.commands), miss).None? <==> end.value <= miss)
  {
    ContentBound(l.commands);
    ContentLength(l.commands);
    LocateCorrect(Sizes(l.commands), miss);
  }

  /** SEEK_END moving back n bytes and then reading to the end delivers exactly the last n bytes. */
  lemma SeekEndThenDrain(l: Log, pos: FilePos, offset: Loff, count: nat)
    requires LogFits(l)
    requires -|Content(l.commands)| <= offset <= 0 && count > 0
    ensures var start := LlseekResult(l, pos, offset, SEEK_END, FINE);
            && start.Some?
            && Content(Drain(l.commands, start.value, count)) == Content(l.commands)[|Content(l.commands)| + offset..]
  {
    hide Drain, Content;
    ContentBound(l.commands);
    DrainDeliversRest(l.commands, |Content(l.commands)| + offset, count);
  }
}
