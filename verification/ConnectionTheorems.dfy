/** What a client gets for a message, end to end. */
module ConnectionTheorems {
  import opened Bytes
  import opened Commands
  import opened DeviceSpec
  import opened DeviceTheorems
  import opened SeekCommands
  import opened Connections

  // ----- the reply

  /** When nothing fails, the reply is the whole rest of the file, and the send loop succeeds. */
  lemma {:induction false} ReplyIsRest(cmds: seq<Command>, pos: nat)
    ensures SendAll(cmds, pos, []) == Sent(From(cmds, pos), Success)
    decreases |Content(cmds)| - pos
  {
    hide ReadAt, Content;
    ReadIsSlice(cmds, pos, BUFFER_SIZE);
    var data := ReadAt(cmds, pos, BUFFER_SIZE);
    if data != [] {
      ReplyIsRest(cmds, pos + |data|);
      assert Content(cmds)[pos..] == Content(cmds)[pos..pos + |data|] + Content(cmds)[pos + |data|..];
    }
  }

  lemma FromSplits(cmds: seq<Command>, pos: nat)
    ensures var data := ReadAt(cmds, pos, BUFFER_SIZE);
            From(cmds, pos) == data + From(cmds, pos + |data|)
  {
    hide ReadAt, Content;
    ReadIsSlice(cmds, pos, BUFFER_SIZE);
    var all, data := Content(cmds), ReadAt(cmds, pos, BUFFER_SIZE);
    if data != [] {
      assert all[pos..] == all[pos..pos + |data|] + all[pos + |data|..];
    }
  }

  lemma SendUnfold(cmds: seq<Command>, pos: nat, plan: seq<SendEvent>)
    ensures var data := ReadAt(cmds, pos, BUFFER_SIZE);
            || SendAll(cmds, pos, plan).data == []
            || (data != [] && SendAll(cmds, pos, plan).data == data + SendAll(cmds, pos + |data|, Rest(plan)).data)
  {
    hide ReadAt, Content;
  }

  /** Whatever fails or stalls, what has been sent is the beginning of that. */
  lemma {:induction false} ReplyIsPrefix(cmds: seq<Command>, pos: nat, plan: seq<SendEvent>)
    ensures SendAll(cmds, pos, plan).data <= From(cmds, pos)
    decreases |Content(cmds)| - pos
  {
    hide ReadAt, Content, SendAll, From;
    ReadIsSlice(cmds, pos, BUFFER_SIZE);
    SendUnfold(cmds, pos, plan);
    var data := ReadAt(cmds, pos, BUFFER_SIZE);
    if data != [] {
      ReplyIsPrefix(cmds, pos + |data|, Rest(plan));
      FromSplits(cmds, pos);
    }
  }

  /** The file from the position that receiving leaves. */
  function FileAhead(r: Received): seq<byte> {
    From(r.log.commands, r.pos)
  }

  lemma {:induction false} CompleteReply(cmds: seq<Command>, pos: nat, plan: seq<SendEvent>)
    requires SendAll(cmds, pos, plan).verdict.Success?
    ensures SendAll(cmds, pos, plan) == SendAll(cmds, pos, [])
    decreases |Content(cmds)| - pos
  {
    hide ReadAt, Content;
    ReadIsSlice(cmds, pos, BUFFER_SIZE);
    var data := ReadAt(cmds, pos, BUFFER_SIZE);
    if data != [] {
      CompleteReply(cmds, pos + |data|, Rest(plan));
    }
  }

  /** For every input: the reply is the beginning of the file from the position on, all of it on success. */
  lemma BodyReply(l: Log, input: Input)
    requires LogFits(l)
    ensures var o := Body(l, input);
            var r := RecvAll(l, 0, input.events);
            && (input.opens ==> o.log == r.log)
            && o.reply <= FileAhead(r)
            && (o.ending.Completed? ==> o.reply == FileAhead(r))
  {
    hide RecvAll, Content, SendAll;
    if input.opens {
      var r := RecvAll(l, 0, input.events);
      ReplyIsPrefix(r.log.commands, r.pos, input.plan);
      if SendAll(r.log.commands, r.pos, input.plan).verdict.Success? {
        CompleteReply(r.log.commands, r.pos, input.plan);
        ReplyIsRest(r.log.commands, r.pos);
      }
    }
  }

  predicate Works(e: SendEvent) {
    e.fate.Sends? && !e.env.interrupted
  }

  /** How the send loop ends at its k-th turn, after k turns that worked. */
  function TurnVerdict(plan: seq<SendEvent>, k: nat, more: bool): Verdict {
    if k < |plan| && (plan[k].env.interrupted || plan[k].fate.Breaks?) then Failure
    else if more then Waiting
    else Success
  }

  lemma FirstTurn(cmds: seq<Command>, pos: nat, plan: seq<SendEvent>)
    ensures var data, e := ReadAt(cmds, pos, 1024), First(plan);
            && Drain(cmds, pos, 1024) == (if data == [] then [] else [data] + Drain(cmds, pos + |data|, 1024))
            && SendAll(cmds, pos, plan)
               == if e.env.interrupted || e.fate.Breaks? then Sent([], Failure)
                  else if data == [] then Sent([], Success)
                  else if e.fate.Stalls? then Sent([], Waiting)
                  else
                    var later := SendAll(cmds, pos + |data|, Rest(plan));
                    Sent(data + later.data, later.verdict)
  {
    hide ReadAt, Content;
  }

  /**
   The send loop, exactly: the first k reads of the drain are sent if k turns work; then the next turn fails or
   stalls, or there is nothing more to send. An interrupted read and a failing send are -1, even at the end.
   */
  lemma {:induction false} SendExactly(cmds: seq<Command>, pos: nat, plan: seq<SendEvent>, k: nat)
    requires var turns := Drain(cmds, pos, 1024);
             k <= |turns| && (k < |turns| ==> k < |plan| && !Works(plan[k]))
    requires forall j :: 0 <= j < k && j < |plan| ==> Works(plan[j])
    ensures var turns := Drain(cmds, pos, 1024);
            SendAll(cmds, pos, plan) == Sent(Content(turns[..k]), TurnVerdict(plan, k, k < |turns|))
    decreases k
  {
    hide ReadAt, Content, SendAll, Drain;
    var data, turns := ReadAt(cmds, pos, 1024), Drain(cmds, pos, 1024);
    FirstTurn(cmds, pos, plan);
    ContentNone();
    if k == 0 {
      assert turns[..0] == [];
    } else {
      var rest := Drain(cmds, pos + |data|, 1024);
      SendExactly(cmds, pos + |data|, Rest(plan), k - 1);
      assert turns[..k] == [data] + rest[..k - 1];
      ContentConcat([data], rest[..k - 1]);
      ContentOne(data);
    }
  }

  // ----- a message received in pieces

  function Chunks(pieces: seq<seq<byte>>): (r: seq<RecvEvent>)
    ensures |r| == |pieces|
    ensures forall i :: 0 <= i < |r| ==> r[i] == Chunk(pieces[i], FINE)
  {
    seq(|pieces|, i requires 0 <= i < |pieces| => Chunk(pieces[i], FINE))
  }

  predicate NoNewline(s: seq<byte>) {
    forall i :: 0 <= i < |s| ==> s[i] != NEWLINE
  }

  /**
   Pieces as recv may deliver them of a message whose only newline is its last byte. The last piece must
   not have the shape of a seek request; the others cannot, for want of a newline.
   */
  ghost predicate MessageInPieces(pieces: seq<seq<byte>>) {
    && pieces != []
    && (forall i :: 0 <= i < |pieces| ==> 0 < |pieces[i]| <= BUFFER_SIZE)
    && (forall i :: 0 <= i < |pieces| - 1 ==> NoNewline(pieces[i]))
    && var last := pieces[|pieces| - 1];
       EndsLine(last) && NoNewline(last[..|last| - 1]) && !SeekShaped(last)
  }

  /** Every piece but the last fills the receive buffer, and the last does not. */
  predicate FullThenShort(pieces: seq<seq<byte>>)
    requires pieces != []
  {
    && (forall i :: 0 <= i < |pieces| - 1 ==> |pieces[i]| == 1024)
    && |pieces[|pieces| - 1]| < 1024
  }

  lemma {:induction false} PayloadIsAll(s: seq<byte>)
    requires s != [] && NoNewline(s[..|s| - 1])
    ensures Payload(s) == s
  {
    if |s| > 1 {
      assert s[0] == s[..|s| - 1][0] != NEWLINE;
      assert forall i :: 0 <= i < |s| - 2 ==> s[1..][i] == s[..|s| - 1][i + 1];
      PayloadIsAll(s[1..]);
    }
  }

  /** Of a chunk with a newline in it, exactly the bytes up to the first one are written. */
  lemma PayloadIsFirstLine(s: seq<byte>, k: nat)
    requires k < |s| && s[k] == 10
    requires forall i :: 0 <= i < k ==> s[i] != 10
    ensures Payload(s) == s[..k + 1]
  {
    hide Payload;
    PayloadEnds(s, k);
  }

  /** A chunk without a newline only extends the pending text. */
  lemma ChunkPends(l: Log, pos: FilePos, piece: seq<byte>)
    requires LogFits(l) && piece != [] && NoNewline(piece)
    requires |l.pending| + |piece| <= KMALLOC_MAX
    ensures HandleChunk(l, pos, piece, FINE) == Received(Log(l.commands, l.pending + piece), pos, Success)
  {
    hide ParseSeek, Payload;
    SeekExactlyWhenShaped(piece);
    PayloadIsAll(piece);
  }

  /** A chunk that ends the line commits everything pending with it. */
  lemma ChunkCommits(l: Log, pos: FilePos, piece: seq<byte>)
    requires LogFits(l) && EndsLine(piece) && NoNewline(piece[..|piece| - 1]) && !SeekShaped(piece)
    requires |l.pending| + |piece| <= KMALLOC_MAX
    ensures HandleChunk(l, pos, piece, FINE) == Received(Log(Push(l.commands, l.pending + piece), []), pos, Success)
  {
    hide ParseSeek, Payload, SeekShaped;
    SeekExactlyWhenShaped(piece);
    PayloadIsAll(piece);
  }

  /** A chunk for which there is no memory makes the write fail. */
  lemma ChunkTooLarge(l: Log, pos: FilePos, piece: seq<byte>)
    requires LogFits(l) && piece != [] && NoNewline(piece[..|piece| - 1])
    requires NoNewline(piece) || !SeekShaped(piece)
    requires |l.pending| + |piece| > KMALLOC_MAX
    ensures HandleChunk(l, pos, piece, FINE).verdict.Failure?
  {
    hide ParseSeek, Payload;
    SeekExactlyWhenShaped(piece);
    PayloadIsAll(piece);
  }

  lemma Peel(pieces: seq<seq<byte>>)
    requires |pieces| > 1
    ensures Content(pieces) == pieces[0] + Content(pieces[1..])
    ensures Chunks(pieces)[1..] == Chunks(pieces[1..])
    ensures MessageInPieces(pieces) ==> MessageInPieces(pieces[1..])
    ensures FullThenShort(pieces) <==> |pieces[0]| == BUFFER_SIZE && FullThenShort(pieces[1..])
  {
    hide SeekShaped;
    DropOldest(pieces);
    var tail := pieces[1..];
    assert forall i :: 0 <= i < |tail| ==> tail[i] == pieces[i + 1];
    assert pieces[|pieces| - 1] == tail[|tail| - 1];
    if |pieces[0]| == BUFFER_SIZE && FullThenShort(tail) {
      forall i | 0 <= i < |pieces| - 1
        ensures |pieces[i]| == BUFFER_SIZE
      {
        if i > 0 {
          assert |tail[i - 1]| == BUFFER_SIZE;
        }
      }
    }
  }

  /** Full pieces and then a short one: the whole message is committed as one command. */
  lemma {:induction false} ReceiveCommits(l: Log, pos: FilePos, pieces: seq<seq<byte>>)
    requires LogFits(l) && MessageInPieces(pieces) && FullThenShort(pieces)
    requires |l.pending| + |Content(pieces)| <= KMALLOC_MAX
    ensures RecvAll(l, pos, Chunks(pieces)) == Received(Log(Push(l.commands, l.pending + Content(pieces)), []), pos, Success)
    decreases pieces
  {
    hide HandleChunk, SeekShaped, Content;
    if |pieces| == 1 {
      ContentOne(pieces[0]);
      assert pieces == [pieces[0]];
      ChunkCommits(l, pos, pieces[0]);
    } else {
      Peel(pieces);
      ChunkPends(l, pos, pieces[0]);
      var l' := Log(l.commands, l.pending + pieces[0]);
      ReceiveCommits(l', pos, pieces[1..]);
      assert l'.pending + Content(pieces[1..]) == l.pending + Content(pieces);
    }
  }

  /** In any other shape, or when it is too large, receiving fails or stops with text left pending. */
  lemma {:induction false} ReceiveFallsShort(l: Log, pos: FilePos, pieces: seq<seq<byte>>)
    requires LogFits(l) && MessageInPieces(pieces)
    requires !FullThenShort(pieces) || |l.pending| + |Content(pieces)| > KMALLOC_MAX
    ensures var r := RecvAll(l, pos, Chunks(pieces));
            !r.verdict.Success? || r.log.pending != []
    decreases pieces
  {
    hide HandleChunk, SeekShaped, Content;
    if |pieces| == 1 {
      ContentOne(pieces[0]);
      assert pieces == [pieces[0]];
      assert Chunks(pieces)[1..] == [];
    }
    if |l.pending| + |pieces[0]| > KMALLOC_MAX {
      ChunkTooLarge(l, pos, pieces[0]);
    } else if |pieces| == 1 {
      ChunkCommits(l, pos, pieces[0]);
    } else {
      Peel(pieces);
      ChunkPends(l, pos, pieces[0]);
      if |pieces[0]| == BUFFER_SIZE {
        ReceiveFallsShort(Log(l.commands, l.pending + pieces[0]), pos, pieces[1..]);
      }
    }
  }

  lemma RingEndsIn(cmds: seq<Command>, text: seq<byte>)
    ensures var ring := Push(cmds, text);
            && |Content(ring)| >= |text|
            && Content(ring)[|Content(ring)| - |text|..] == text
  {
    hide Content;
    var ring := Push(cmds, text);
    ContentConcat(ring[..|ring| - 1], [text]);
    ContentOne(text);
    assert ring == ring[..|ring| - 1] + [text];
  }

  /**
   End to end: a message, joined to whatever text was pending, is committed as exactly one newest command and
   answered with the whole ring, which ends in it, exactly when there is memory for it and the pieces it is
   received in are full but for a short last one.
   */
  lemma MessageServed(l: Log, pieces: seq<seq<byte>>)
    requires LogFits(l) && MessageInPieces(pieces)
    ensures var text := l.pending + Content(pieces);
            var ring := Push(l.commands, text);
            && (Body(l, Input(true, Chunks(pieces), [])) == Outcome(Log(ring, []), Content(ring), Completed)
                <==> FullThenShort(pieces) && |text| <= KMALLOC_MAX)
            && |Content(ring)| >= |text|
            && Content(ring)[|Content(ring)| - |text|..] == text
  {
    assert pieces != [];
    hide RecvAll, SendAll, Content, MessageInPieces, FullThenShort, LogFits, Push;
    var text := l.pending + Content(pieces);
    var ring := Push(l.commands, text);
    RingEndsIn(l.commands, text);
    if FullThenShort(pieces) && |text| <= KMALLOC_MAX {
      ReceiveCommits(l, 0, pieces);
      ReplyIsRest(ring, 0);
      assert Content(ring)[0..] == Content(ring);
    } else {
      ReceiveFallsShort(l, 0, pieces);
    }
  }

  lemma {:induction false} ReceiveAllFull(l: Log, pos: FilePos, pieces: seq<seq<byte>>)
    requires LogFits(l) && MessageInPieces(pieces)
    requires forall i :: 0 <= i < |pieces| ==> |pieces[i]| == BUFFER_SIZE
    requires |l.pending| + |Content(pieces)| <= KMALLOC_MAX
    ensures RecvAll(l, pos, Chunks(pieces)) == Received(Log(Push(l.commands, l.pending + Content(pieces)), []), pos, Waiting)
    decreases pieces
  {
    hide HandleChunk, SeekShaped, Content;
    if |pieces| == 1 {
      ContentOne(pieces[0]);
      assert pieces == [pieces[0]];
      ChunkCommits(l, pos, pieces[0]);
      assert Chunks(pieces)[1..] == [];
    } else {
      Peel(pieces);
      ChunkPends(l, pos, pieces[0]);
      var l' := Log(l.commands, l.pending + pieces[0]);
      ReceiveAllFull(l', pos, pieces[1..]);
      assert l'.pending + Content(pieces[1..]) == l.pending + Content(pieces);
    }
  }

  /** The other way to miss a reply: a message of whole buffers is committed, and the server waits for more with the mutex held. */
  lemma WholeBuffersGetNoReply(l: Log, pieces: seq<seq<byte>>)
    requires LogFits(l)
    requires MessageInPieces(pieces) && |l.pending| + |Content(pieces)| <= KMALLOC_MAX
    requires forall i :: 0 <= i < |pieces| ==> |pieces[i]| == BUFFER_SIZE
    ensures Body(l, Input(true, Chunks(pieces), []))
         == Outcome(Log(Push(l.commands, l.pending + Content(pieces)), []), [], Stalled)
  {
    hide RecvAll, SeekShaped, Content;
    ReceiveAllFull(l, 0, pieces);
  }

  /** What arrives after the receive loop has ended makes no difference. */
  lemma {:induction false} RecvIgnoresLater(l: Log, pos: FilePos, a: seq<RecvEvent>, b: seq<RecvEvent>)
    requires LogFits(l) && !RecvAll(l, pos, a).verdict.Waiting?
    ensures RecvAll(l, pos, a + b) == RecvAll(l, pos, a)
    decreases a
  {
    hide HandleChunk, LogFits;
    assert (a + b)[0] == a[0] && (a + b)[1..] == a[1..] + b;
    if a[0].Chunk? && a[0].data != [] {
      var r := HandleChunk(l, pos, a[0].data, a[0].env);
      if r.verdict.Success? && |a[0].data| >= BUFFER_SIZE {
        RecvIgnoresLater(r.log, r.pos, a[1..], b);
      }
    }
  }

  /** The message is served as above whatever arrives after it. */
  lemma MessageServedAnyway(l: Log, pieces: seq<seq<byte>>, later: seq<RecvEvent>)
    requires LogFits(l) && |l.pending| + |Content(pieces)| <= KMALLOC_MAX
    requires MessageInPieces(pieces) && FullThenShort(pieces)
    ensures var ring := Push(l.commands, l.pending + Content(pieces));
            Body(l, Input(true, Chunks(pieces) + later, [])) == Outcome(Log(ring, []), Content(ring), Completed)
  {
    hide RecvAll, SendAll, Content, MessageInPieces, FullThenShort;
    MessageServed(l, pieces);
    ReceiveCommits(l, 0, pieces);
    RecvIgnoresLater(l, 0, Chunks(pieces), later);
  }

  // ----- several lines, and unfinished lines

  /**
   Of several lines in one short chunk exactly the first is stored, as one command behind whatever was pending;
   the rest of the chunk is lost, and the sender gets the ring that ends in its first line.
   */
  lemma FirstLineServed(l: Log, line: seq<byte>, rest: seq<byte>)
    requires LogFits(l) && NoNewline(line) && |line| + 1 + |rest| < 1024 && !SeekShaped(line + [10] + rest)
    requires |l.pending| + |line| + 1 <= KMALLOC_MAX
    ensures var ring := Push(l.commands, l.pending + (line + [10]));
            Body(l, Input(true, [Chunk(line + [10] + rest, FINE)], [])) == Outcome(Log(ring, []), Content(ring), Completed)
  {
    hide ParseSeek, SeekShaped, Payload, SendAll, Content, Push;
    var data := line + [10] + rest;
    SeekExactlyWhenShaped(data);
    PayloadIsFirstLine(data, |line|);
    assert data[..|line| + 1] == line + [10];
    var text := l.pending + (line + [10]);
    assert text[|text| - 1] == 10;
    ReplyIsRest(Push(l.commands, text), 0);
    assert Content(Push(l.commands, text))[0..] == Content(Push(l.commands, text));
  }

  /** A short chunk without a newline is kept pending, and the sender gets the ring as it was. */
  lemma UnfinishedLinePends(l: Log, data: seq<byte>)
    requires LogFits(l) && data != [] && NoNewline(data) && |data| < 1024
    requires |l.pending| + |data| <= KMALLOC_MAX
    ensures Body(l, Input(true, [Chunk(data, FINE)], []))
         == Outcome(Log(l.commands, l.pending + data), Content(l.commands), Completed)
  {
    hide HandleChunk, SendAll, Content;
    ChunkPends(l, 0, data);
    ReplyIsRest(l.commands, 0);
    assert Content(l.commands)[0..] == Content(l.commands);
  }

  // ----- one event after another, failing calls included

  /** Receiving in two goes is receiving in one, if the first ran out of input. */
  lemma {:induction false} RecvConcat(l: Log, pos: FilePos, a: seq<RecvEvent>, b: seq<RecvEvent>)
    requires LogFits(l) && RecvAll(l, pos, a).verdict.Waiting?
    ensures var r := RecvAll(l, pos, a);
            RecvAll(l, pos, a + b) == RecvAll(r.log, r.pos, b)
    decreases a
  {
    hide HandleChunk, LogFits;
    if a == [] {
      assert a + b == b;
    } else {
      assert (a + b)[0] == a[0] && (a + b)[1..] == a[1..] + b;
      var r := HandleChunk(l, pos, a[0].data, a[0].env);
      RecvConcat(r.log, r.pos, a[1..], b);
    }
  }

  /** The device call for this chunk fails: interrupted, without memory, or a seek to no byte of the ring. */
  ghost predicate CallFails(l: Log, data: seq<byte>, env: Env) {
    || env.interrupted
    || (!SeekShaped(data) && (env.noMemory || |l.pending| + |Payload(data)| > KMALLOC_MAX))
    || (SeekShaped(data)
        && (env.residue != 0
            || var s := ParseSeek(data);
               s.Some? && !(s.value.writeCmd < |l.commands| && s.value.writeCmdOffset < |l.commands[s.value.writeCmd]|)))
  }

  lemma FailingCall(l: Log, pos: FilePos, data: seq<byte>, env: Env)
    requires LogFits(l)
    ensures var r := HandleChunk(l, pos, data, env);
            && (r.verdict.Failure? <==> CallFails(l, data, env))
            && (r.verdict.Failure? ==> r == Received(l, pos, Failure))
  {
    hide ParseSeek, SeekShaped, Payload, Sum;
    SeekExactlyWhenShaped(data);
  }

  /**
   Wherever the receive loop is: an error, a close and a failing device call end it with -1 and leave device and
   position as they are; a short chunk whose call works ends it with 0; only a full one makes it go on.
   */
  lemma NextEvent(l: Log, pos: FilePos, before: seq<RecvEvent>, e: RecvEvent, later: seq<RecvEvent>)
    requires LogFits(l) && RecvAll(l, pos, before).verdict.Waiting?
    ensures var at := RecvAll(l, pos, before);
            var r := RecvAll(l, pos, before + ([e] + later));
            if e.RecvError? || e.data == [] || CallFails(at.log, e.data, e.env) then r == Received(at.log, at.pos, Failure)
            else if |e.data| < 1024 then r.verdict.Success?
            else RecvAll(l, pos, before + [e]).verdict.Waiting?
  {
    hide HandleChunk, LogFits, CallFails;
    var at := RecvAll(l, pos, before);
    RecvConcat(l, pos, before, [e] + later);
    RecvConcat(l, pos, before, [e]);
    assert ([e] + later)[1..] == later && [e][1..] == [];
    if e.Chunk? {
      FailingCall(at.log, at.pos, e.data, e.env);
    }
  }

  /** Who meets such an end gets no reply, and the mutex is given back. */
  lemma FailureGetsNoReply(l: Log, before: seq<RecvEvent>, e: RecvEvent, later: seq<RecvEvent>, plan: seq<SendEvent>)
    requires LogFits(l) && RecvAll(l, 0, before).verdict.Waiting?
    requires e.RecvError? || e.data == [] || CallFails(RecvAll(l, 0, before).log, e.data, e.env)
    ensures Body(l, Input(true, before + ([e] + later), plan)) == Outcome(RecvAll(l, 0, before).log, [], Failed)
  {
    hide RecvAll, LogFits, CallFails;
    NextEvent(l, 0, before, e, later);
  }

  /** Without the device nothing is touched and nothing sent. */
  lemma UnopenedTouchesNothing(l: Log, events: seq<RecvEvent>, plan: seq<SendEvent>)
    requires LogFits(l)
    ensures Body(l, Input(false, events, plan)) == Outcome(l, [], NotOpened)
  {
  }

  // ----- a seek request

  /**
   A seek request in one short chunk changes nothing in the device. An accepted pair is answered
   with the ring from that byte on; a rejected one gets no reply.
   */
  lemma SeekRequestServed(l: Log, prefix: seq<byte>, cmd: nat, off: nat)
    requires LogFits(l)
    requires forall i :: 0 <= i < |prefix| ==> prefix[i] != COLON && prefix[i] != NUL
    requires cmd < 1_000_000_000 && off < 1_000_000_000
    requires |SeekText(prefix, cmd, off)| < BUFFER_SIZE
    ensures var reply := Body(l, Input(true, [Chunk(SeekText(prefix, cmd, off), FINE)], []));
            match SeekPosition(l.commands, cmd, off)
            case None => reply == Outcome(l, [], Failed)
            case Some(pos) =>
              && pos < |Content(l.commands)|
              && Content(l.commands)[pos] == l.commands[cmd][off]
              && reply == Outcome(l, Content(l.commands)[pos..], Completed)
  {
    hide SendAll, Content, ParseSeek, SeekText, Payload;
    SeekTextNonempty(prefix, cmd, off);
    SeekRoundTrip(prefix, cmd, off);
    if SeekPosition(l.commands, cmd, off).Some? {
      SeekThenLocate(l.commands, cmd, off);
      ReplyIsRest(l.commands, SeekPosition(l.commands, cmd, off).value);
    }
  }

  // ----- lines lost to the seek check

  /** A chunk that has the shape of a seek request never reaches the device, whatever else it says. */
  lemma SeekShapeIsNotWritten(l: Log, pos: FilePos, data: seq<byte>, env: Env)
    requires LogFits(l) && SeekShaped(data)
    ensures HandleChunk(l, pos, data, env).log == l
  {
    hide ParseSeek, SeekShaped;
    SeekExactlyWhenShaped(data);
  }

  /** "a:b,c\n": no seek request, but of its shape. */
  const LOST_LINE: seq<byte> := [97, 58, 98, 44, 99, 10]

  lemma LostLineParses()
    ensures ParseSeek(LOST_LINE) == Some(SeekTo(0, 0))
  {
    FirstIndexIs(LOST_LINE, 0, COLON, 1);
    FirstIndexIs(LOST_LINE, 1, COMMA, 3);
    FirstIndexIs(LOST_LINE, 3, NEWLINE, 5);
    assert LOST_LINE[2..3] == [98] && LOST_LINE[4..5] == [99];
    assert Atoi([98]) == 0 && Atoi([99]) == 0;
  }

  /** Sent on its own it is lost: the device keeps what it had, and the sender gets the old ring. */
  lemma PlainLineIsLost(l: Log)
    requires LogFits(l) && l.commands != [] && l.commands[0] != []
    ensures Body(l, Input(true, [Chunk(LOST_LINE, FINE)], [])) == Outcome(l, Content(l.commands), Completed)
  {
    hide SendAll, Content, Payload;
    assert ParseSeek(LOST_LINE) == Some(SeekTo(0, 0)) by { LostLineParses(); }
    assert SeekPosition(l.commands, 0, 0) == Some(0);
    hide ParseSeek;
    ReplyIsRest(l.commands, 0);
    assert Content(l.commands)[0..] == Content(l.commands);
  }
}
