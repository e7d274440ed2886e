/** What of a client's bytes reaches the device. */
module ConnectionWrites {
  import opened Bytes
  import opened Commands
  import opened DeviceSpec
  import opened DeviceTheorems
  import opened SeekCommands
  import opened Connections
  import opened ConnectionTheorems

  lemma {:induction false} AcceptAllFront(l: Log, x: seq<byte>, rest: seq<seq<byte>>)
    ensures AcceptAll(l, [x] + rest) == AcceptAll(Accept(l, x), rest)
  {
    if rest == [] {
      assert [x] + rest == [x];
      assert [x][..0] == [];
    } else {
      AcceptAllFront(l, x, rest[..|rest| - 1]);
      assert ([x] + rest)[..|rest|] == [x] + rest[..|rest| - 1];
    }
  }

  // ----- what reaches the device, whatever happens

  /** The payloads that the receive loop writes and the device takes. */
  function Written(l: Log, pos: FilePos, events: seq<RecvEvent>): seq<seq<byte>>
    requires LogFits(l)
    decreases events
  {
    if events == [] || events[0].RecvError? || events[0].data == [] then []
    else
      var e := events[0];
      var r := HandleChunk(l, pos, e.data, e.env);
      var now := if ParseSeek(e.data).None? && Succeeds(l, Payload(e.data), e.env) then [Payload(e.data)] else [];
      if r.verdict.Success? && |e.data| >= BUFFER_SIZE then now + Written(r.log, r.pos, events[1..]) else now
  }

  lemma ChunkWritten(l: Log, pos: FilePos, data: seq<byte>, env: Env)
    requires LogFits(l)
    ensures HandleChunk(l, pos, data, env).log
         == if ParseSeek(data).None? && Succeeds(l, Payload(data), env) then Accept(l, Payload(data)) else l
  {
    hide ParseSeek, Payload;
  }

  /** For all events, errors and failing calls among them: receiving leaves the device that those payloads make. */
  lemma {:induction false} ReceivingWrites(l: Log, pos: FilePos, events: seq<RecvEvent>)
    requires LogFits(l)
    ensures RecvAll(l, pos, events).log == AcceptAll(l, Written(l, pos, events))
    decreases events
  {
    hide HandleChunk, ParseSeek, Payload, Accept, Succeeds, LogFits;
    if events != [] && events[0].Chunk? && events[0].data != [] {
      var e := events[0];
      var r := HandleChunk(l, pos, e.data, e.env);
      ChunkWritten(l, pos, e.data, e.env);
      ReceivingWrites(r.log, r.pos, events[1..]);
      var w := Written(r.log, r.pos, events[1..]);
      AcceptAllFront(l, Payload(e.data), w);
      AcceptAllFront(l, Payload(e.data), []);
      assert [Payload(e.data)] + [] == [Payload(e.data)] && [] + w == w;
    }
  }

  // ----- what reaches the device of chunks when no call to it fails

  /** The chunks recv is called for: up to the first that does not fill the buffer. */
  function Heard(chunks: seq<seq<byte>>): seq<seq<byte>> {
    if chunks == [] then []
    else if |chunks[0]| < BUFFER_SIZE then chunks[..1]
    else [chunks[0]] + Heard(chunks[1..])
  }

  /** What is written of chunks: the payloads of those that are no seek. */
  function Writes(chunks: seq<seq<byte>>): seq<seq<byte>> {
    if chunks == [] then []
    else (if ParseSeek(chunks[0]).None? then [Payload(chunks[0])] else []) + Writes(chunks[1..])
  }

  /** The chunks that are no seek, in full. */
  function PlainChunks(chunks: seq<seq<byte>>): seq<seq<byte>> {
    if chunks == [] then []
    else (if ParseSeek(chunks[0]).None? then [chunks[0]] else []) + PlainChunks(chunks[1..])
  }

  lemma NewlineLater(s: seq<byte>)
    requires |s| > 1 && s[0] != NEWLINE
    ensures NoNewline(s[..|s| - 1]) <==> NoNewline(s[1..][..|s| - 2])
  {
    var a, b := s[..|s| - 1], s[1..][..|s| - 2];
    assert forall i :: 0 <= i < |b| ==> b[i] == a[i + 1];
    assert forall i :: 0 < i < |a| ==> a[i] == b[i - 1];
  }

  lemma {:induction false} PayloadIsPrefix(s: seq<byte>)
    ensures Payload(s) <= s
    ensures s != [] ==> Payload(s) != []
    ensures s != [] ==> (Payload(s) == s <==> NoNewline(s[..|s| - 1]))
  {
    if s != [] && s[0] != NEWLINE && |s| > 1 {
      PayloadIsPrefix(s[1..]);
      NewlineLater(s);
      assert s == [s[0]] + s[1..];
      assert Payload(s)[1..] == Payload(s[1..]);
    } else if s != [] && |s| > 1 {
      assert s[..|s| - 1][0] == NEWLINE;
    }
  }

  /** The j-th chunk ends receiving with an error: the client has closed, or it is a seek to no byte of the ring of that moment. */
  predicate Rejected(l: Log, chunks: seq<seq<byte>>, j: nat)
    requires j < |chunks|
  {
    || chunks[j] == []
    || (&& ParseSeek(chunks[j]).Some?
        && var s := ParseSeek(chunks[j]).value;
           SeekPosition(AcceptAll(l, Writes(chunks[..j])).commands, s.writeCmd, s.writeCmdOffset).None?)
  }

  /** How receiving ends that gets through the first k of the chunks heard. */
  function VerdictAt(heard: seq<seq<byte>>, k: nat): Verdict
    requires k <= |heard|
  {
    if k < |heard| then Failure
    else if heard != [] && |heard[|heard| - 1]| < BUFFER_SIZE then Success
    else Waiting
  }

  lemma WritesNone(l: Log)
    ensures Writes([]) == [] && AcceptAll(l, Writes([])) == l
  {
  }

  /** What the device takes of the first chunk, and then of the others. */
  lemma WrittenFront(l: Log, pos: FilePos, chunks: seq<seq<byte>>)
    requires LogFits(l) && chunks != [] && chunks[0] != [] && |l.pending| + |chunks[0]| <= KMALLOC_MAX
    ensures var c, r := chunks[0], HandleChunk(l, pos, chunks[0], FINE);
            Written(l, pos, Chunks(chunks))
            == (if ParseSeek(c).None? then [Payload(c)] else [])
               + if r.verdict.Success? && |c| >= BUFFER_SIZE then Written(r.log, r.pos, Chunks(chunks[1..])) else []
  {
    hide HandleChunk, ParseSeek, Payload;
    PayloadIsPrefix(chunks[0]);
    assert Chunks(chunks)[1..] == Chunks(chunks[1..]);
  }

  lemma HeardFront(chunks: seq<seq<byte>>)
    requires chunks != []
    ensures Heard(chunks) == if |chunks[0]| < BUFFER_SIZE then [chunks[0]] else [chunks[0]] + Heard(chunks[1..])
  {
  }

  lemma FirstRejected(l: Log, heard: seq<seq<byte>>)
    requires heard != []
    ensures Rejected(l, heard, 0) <==>
              || heard[0] == []
              || (ParseSeek(heard[0]).Some?
                  && SeekPosition(l.commands, ParseSeek(heard[0]).value.writeCmd, ParseSeek(heard[0]).value.writeCmdOffset).None?)
  {
    hide ParseSeek, AcceptAll, Writes;
    WritesNone(l);
    assert heard[..0] == [];
  }

  lemma WritesFront(c: seq<byte>, rest: seq<seq<byte>>, l: Log)
    ensures Writes([c] + rest) == (if ParseSeek(c).None? then [Payload(c)] else []) + Writes(rest)
    ensures AcceptAll(l, Writes([c] + rest))
         == AcceptAll(if ParseSeek(c).None? then Accept(l, Payload(c)) else l, Writes(rest))
  {
    hide ParseSeek, Payload, AcceptAll, Accept;
    assert ([c] + rest)[1..] == rest;
    if ParseSeek(c).None? {
      AcceptAllFront(l, Payload(c), Writes(rest));
    } else {
      assert Writes([c] + rest) == Writes(rest);
    }
  }

  /** A later chunk is rejected behind an accepted first one exactly when it is on the device that one leaves. */
  lemma RejectedLater(l: Log, c: seq<byte>, rest: seq<seq<byte>>, j: nat)
    requires 0 < j <= |rest|
    ensures var l' := if ParseSeek(c).None? then Accept(l, Payload(c)) else l;
            Rejected(l, [c] + rest, j) <==> Rejected(l', rest, j - 1)
  {
    hide ParseSeek, Payload, AcceptAll, Accept, Writes;
    assert ([c] + rest)[..j] == [c] + rest[..j - 1];
    assert ([c] + rest)[j] == rest[j - 1];
    WritesFront(c, rest[..j - 1], l);
  }

  lemma FrontSize(chunks: seq<seq<byte>>)
    requires chunks != []
    ensures Sum(Sizes(chunks)) == |chunks[0]| + Sum(Sizes(chunks[1..]))
  {
    hide Sum;
    DropOldestSize(chunks, |chunks| - 1);
    assert Sizes(chunks)[..|chunks|] == Sizes(chunks);
    assert Sizes(chunks[1..])[..|chunks| - 1] == Sizes(chunks[1..]);
  }

  /** One chunk: its payload if it is no seek, nothing otherwise; exactly a seek to no byte fails. */
  lemma OneChunk(l: Log, pos: FilePos, c: seq<byte>)
    requires LogFits(l) && c != [] && |l.pending| + |c| <= KMALLOC_MAX
    ensures var r := HandleChunk(l, pos, c, FINE);
            && r.log == (if ParseSeek(c).None? then Accept(l, Payload(c)) else l)
            && r.verdict == (if ParseSeek(c).Some?
                                && SeekPosition(l.commands, ParseSeek(c).value.writeCmd, ParseSeek(c).value.writeCmdOffset).None?
                             then Failure else Success)
            && |r.log.pending| <= |l.pending| + |c|
  {
    hide ParseSeek, Payload;
    PayloadIsPrefix(c);
  }

  /** Receiving gets through the first k of the chunks heard and no further. */
  ghost predicate GetsThrough(l: Log, pos: FilePos, chunks: seq<seq<byte>>, k: nat)
    requires LogFits(l)
  {
    var heard := Heard(chunks);
    && k <= |heard|
    && Written(l, pos, Chunks(chunks)) == Writes(heard[..k])
    && (forall j :: 0 <= j < k ==> !Rejected(l, heard, j))
    && (k < |heard| ==> Rejected(l, heard, k))
    && RecvAll(l, pos, Chunks(chunks)).verdict == VerdictAt(heard, k)
  }

  lemma ThroughNone(l: Log, pos: FilePos, chunks: seq<seq<byte>>)
    requires LogFits(l) && (chunks == [] || chunks[0] == [])
    ensures GetsThrough(l, pos, chunks, 0)
  {
    hide HandleChunk, ParseSeek, Payload, Accept, AcceptAll, Writes, Rejected;
    WritesNone(l);
    assert Heard(chunks)[..0] == [];
    if chunks != [] {
      HeardFront(chunks);
      FirstRejected(l, Heard(chunks));
    }
  }

  /** The first chunk ends receiving with an error. */
  lemma ThroughFails(l: Log, pos: FilePos, chunks: seq<seq<byte>>)
    requires LogFits(l) && chunks != [] && chunks[0] != [] && |l.pending| + |chunks[0]| <= KMALLOC_MAX
    requires HandleChunk(l, pos, chunks[0], FINE).verdict.Failure?
    ensures GetsThrough(l, pos, chunks, 0)
  {
    hide HandleChunk, ParseSeek, Payload, Accept, AcceptAll, Writes, Written, Rejected, Heard, LogFits;
    HeardFront(chunks);
    FirstRejected(l, Heard(chunks));
    OneChunk(l, pos, chunks[0]);
    WrittenFront(l, pos, chunks);
    WritesNone(l);
    assert Heard(chunks)[..0] == [];
  }

  /** The first chunk ends receiving because it is short. */
  lemma ThroughShort(l: Log, pos: FilePos, chunks: seq<seq<byte>>)
    requires LogFits(l) && chunks != [] && 0 < |chunks[0]| < BUFFER_SIZE && |l.pending| + |chunks[0]| <= KMALLOC_MAX
    requires HandleChunk(l, pos, chunks[0], FINE).verdict.Success?
    ensures GetsThrough(l, pos, chunks, 1)
  {
    hide HandleChunk, ParseSeek, Payload, Accept, AcceptAll, Writes, Written, Rejected, Heard, LogFits;
    var c := chunks[0];
    HeardFront(chunks);
    FirstRejected(l, [c]);
    OneChunk(l, pos, c);
    WrittenFront(l, pos, chunks);
    WritesNone(l);
    WritesFront(c, [], l);
    assert [c] + [] == [c] == [c][..1];
  }

  /** The first chunk fills the buffer and is taken. */
  lemma ThroughMore(l: Log, pos: FilePos, chunks: seq<seq<byte>>, k: nat)
    requires LogFits(l) && chunks != [] && |chunks[0]| >= BUFFER_SIZE && |l.pending| + |chunks[0]| <= KMALLOC_MAX
    requires var r := HandleChunk(l, pos, chunks[0], FINE);
             r.verdict.Success? && GetsThrough(r.log, r.pos, chunks[1..], k)
    ensures GetsThrough(l, pos, chunks, k + 1)
  {
    hide HandleChunk, ParseSeek, Payload, Accept, AcceptAll, Writes, Written, Rejected;
    var c, rest := chunks[0], chunks[1..];
    var r := HandleChunk(l, pos, c, FINE);
    HeardFront(chunks);
    FirstRejected(l, Heard(chunks));
    OneChunk(l, pos, c);
    WrittenFront(l, pos, chunks);
    WritesFront(c, Heard(rest)[..k], l);
    assert Chunks(chunks)[1..] == Chunks(rest);
    assert Heard(chunks)[..k + 1] == [c] + Heard(rest)[..k];
    forall j | 0 < j < |Heard(chunks)| ensures Rejected(l, Heard(chunks), j) <==> Rejected(r.log, Heard(rest), j - 1) {
      RejectedLater(l, c, Heard(rest), j);
    }
  }

  /** For any chunks, there is such a k when no call to the device fails for want of memory or by interrupt. */
  lemma {:induction false} SomewhereThrough(l: Log, pos: FilePos, chunks: seq<seq<byte>>) returns (k: nat)
    requires LogFits(l) && |l.pending| + Sum(Sizes(chunks)) <= KMALLOC_MAX
    ensures GetsThrough(l, pos, chunks, k)
    decreases chunks
  {
    hide HandleChunk, Sum, GetsThrough, ParseSeek, Payload, Accept;
    if chunks == [] || chunks[0] == [] {
      ThroughNone(l, pos, chunks);
      k := 0;
    } else {
      var c := chunks[0];
      var r := HandleChunk(l, pos, c, FINE);
      FrontSize(chunks);
      OneChunk(l, pos, c);
      if r.verdict.Failure? {
        ThroughFails(l, pos, chunks);
        k := 0;
      } else if |c| < BUFFER_SIZE {
        ThroughShort(l, pos, chunks);
        k := 1;
      } else {
        k := SomewhereThrough(r.log, r.pos, chunks[1..]);
        ThroughMore(l, pos, chunks, k);
        k := k + 1;
      }
    }
  }

  /**
   For any chunks, when no call to the device fails for want of memory or by interrupt: the device gets
   exactly the payloads of the first k chunks heard, where the k-th is the first that is rejected; if none is,
   of all of them.
   */
  lemma DeviceGetsPayloads(l: Log, pos: FilePos, chunks: seq<seq<byte>>) returns (k: nat)
    requires LogFits(l) && |l.pending| + Sum(Sizes(chunks)) <= KMALLOC_MAX
    ensures var r := RecvAll(l, pos, Chunks(chunks));
            var heard := Heard(chunks);
            && k <= |heard|
            && Written(l, pos, Chunks(chunks)) == Writes(heard[..k])
            && r.log == AcceptAll(l, Writes(heard[..k]))
            && (forall j :: 0 <= j < k ==> !Rejected(l, heard, j))
            && (k < |heard| ==> Rejected(l, heard, k))
            && r.verdict == VerdictAt(heard, k)
  {
    hide RecvAll, Heard, AcceptAll, Writes, Written, Rejected, VerdictAt, Sum;
    k := SomewhereThrough(l, pos, chunks);
    ReceivingWrites(l, pos, Chunks(chunks));
  }

  lemma ChunksFront(chunks: seq<seq<byte>>)
    ensures chunks == [] ==> Writes(chunks) == [] == PlainChunks(chunks)
    ensures chunks != [] ==>
              var c, rest := chunks[0], chunks[1..];
              if ParseSeek(c).None? then Writes(chunks) == [Payload(c)] + Writes(rest) && PlainChunks(chunks) == [c] + PlainChunks(rest)
              else Writes(chunks) == Writes(rest) && PlainChunks(chunks) == PlainChunks(rest)
  {
    hide ParseSeek, Payload;
  }

  /** Two concatenations, part by part no longer than the other's, are equal only part by part. */
  lemma EqualSums(a: seq<byte>, b: seq<byte>, c: seq<byte>, d: seq<byte>)
    requires |a| <= |c| && |b| <= |d|
    ensures a + b == c + d <==> a == c && b == d
  {
    if a + b == c + d {
      assert |a| == |c|;
      assert a == (a + b)[..|a|] && c == (c + d)[..|a|];
      assert b == (a + b)[|a|..] && d == (c + d)[|a|..];
    }
  }

  lemma OneMoreText(c: seq<byte>, w: seq<seq<byte>>, t: seq<seq<byte>>)
    requires c != [] && Sum(Sizes(w)) <= Sum(Sizes(t))
    ensures Sum(Sizes([Payload(c)] + w)) <= Sum(Sizes([c] + t))
    ensures Content([Payload(c)] + w) == Content([c] + t) <==> Content(w) == Content(t) && NoNewline(c[..|c| - 1])
  {
    hide Payload, Sum, Content, NoNewline;
    PayloadIsPrefix(c);
    assert ([Payload(c)] + w)[1..] == w && ([c] + t)[1..] == t;
    DropOldest([Payload(c)] + w);
    DropOldest([c] + t);
    FrontSize([Payload(c)] + w);
    FrontSize([c] + t);
    ContentLength(w);
    ContentLength(t);
    EqualSums(Payload(c), Content(w), c, Content(t));
  }

  /** Every byte of the texts is written exactly when no text has a newline before its last byte. */
  lemma {:induction false} AllBytesWritten(chunks: seq<seq<byte>>)
    requires forall i :: 0 <= i < |chunks| ==> chunks[i] != []
    ensures Sum(Sizes(Writes(chunks))) <= Sum(Sizes(PlainChunks(chunks)))
    ensures Content(Writes(chunks)) == Content(PlainChunks(chunks))
            <==> forall i :: 0 <= i < |chunks| && ParseSeek(chunks[i]).None? ==> NoNewline(chunks[i][..|chunks[i]| - 1])
  {
    hide ParseSeek, Payload, Sum, Content, NoNewline, Writes, PlainChunks;
    ChunksFront(chunks);
    if chunks != [] {
      var c, rest := chunks[0], chunks[1..];
      AllBytesWritten(rest);
      assert forall i :: 0 < i < |chunks| ==> chunks[i] == rest[i - 1];
      if ParseSeek(c).None? {
        OneMoreText(c, Writes(rest), PlainChunks(rest));
      }
    }
  }
}
