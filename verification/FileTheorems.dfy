/**
 What a program sees through its open files: each system call on the abstract system in the numbers of
 the kernel interface, and what runs of them deliver. LoadRunUnload carries all of it to the code.
 */
module FileTheorems {
  import opened Bytes
  import opened Commands
  import opened DeviceSpec

  // ----- reading

  /** File `fd` is at position `p` now, and the others are where they were. */
  predicate Moved(was: seq<FilePos>, now: seq<FilePos>, fd: nat, p: int)
    requires fd < |was|
  {
    && |now| == |was|
    && now[fd] == p
    && forall j :: 0 <= j < |was| && j != fd ==> now[j] == was[j]
  }

  /**
   A read delivers a slice of the flat file at the position, no longer than asked for and empty only at the
   end or when nothing is asked for, returns its length and moves the position by it; nothing else changes.
   */
  lemma ReadResponds(s: System, fd: nat, count: nat)
    requires LogFits(s.log) && fd < |s.files|
    ensures var file, pos := Content(s.log.commands), s.files[fd];
            var next, r := Step(s, Read(fd, count, FINE)).0, Step(s, Read(fd, count, FINE)).1;
            && r.retval == |r.data| <= count
            && (r.data == [] <==> pos >= |file| || count == 0)
            && (r.data != [] ==> pos + |r.data| <= |file| && r.data == file[pos..pos + |r.data|])
            && next.log == s.log
            && Moved(s.files, next.files, fd, pos + |r.data|)
  {
    hide ReadAt, Content;
    ReadIsSlice(s.log.commands, s.files[fd], count);
  }

  /** From byte o of command k it delivers that command's next bytes: all that are left of it or as many as asked for. */
  lemma ReadStopsAtCommand(s: System, fd: nat, count: nat, k: nat, o: nat)
    requires LogFits(s.log) && fd < |s.files|
    requires k < |s.log.commands| && o < |s.log.commands[k]|
    requires s.files[fd] == |Content(s.log.commands[..k])| + o
    ensures var c := s.log.commands[k];
            var n := if count < |c| - o then count else |c| - o;
            Step(s, Read(fd, count, FINE)).1 == Response(n, c[o..o + n])
  {
    hide Content, Sum, Locate;
    ContentAround(s.log.commands, k);
    LocateComplete(Sizes(s.log.commands), s.files[fd], Place(k, o));
  }

  /** An interrupted read returns -EINTR, one whose copy faults returns what was not copied; both leave everything as it was. */
  lemma FailedReadResponds(s: System, fd: nat, count: nat, env: Env)
    requires LogFits(s.log) && fd < |s.files|
    requires env.interrupted || env.residue > 0
    ensures var n := |Step(s, Read(fd, count, FINE)).1.data|;
            Step(s, Read(fd, count, env))
            == (s, Response(if env.interrupted then -4 else if env.residue < n then env.residue else n, []))
  {
    hide ReadAt;
    assert s.files[fd := s.files[fd]] == s.files;
  }

  // ----- runs

  lemma RunOne(s: System, op: Op)
    requires LogFits(s.log)
    ensures Run(s, [op]) == (Step(s, op).0, [Step(s, op).1])
  {
    hide Step;
    assert [op][..0] == [];
    assert Run(s, []) == (s, []);
    assert [] + [Step(s, op).1] == [Step(s, op).1];
  }

  lemma {:induction false} RunConcat(s: System, a: seq<Op>, b: seq<Op>)
    requires LogFits(s.log)
    ensures var first := Run(s, a);
            Run(s, a + b) == (Run(first.0, b).0, first.1 + Run(first.0, b).1)
  {
    hide Step, LogFits;
    if b == [] {
      assert a + b == a;
      assert Run(s, a).1 + [] == Run(s, a).1;
    } else {
      var n := |b| - 1;
      RunConcat(s, a, b[..n]);
      assert (a + b)[..|a + b| - 1] == a + b[..n];
      var x, y := Run(s, a).1, Run(Run(s, a).0, b[..n]);
      var r := Step(y.0, b[n]).1;
      assert x + (y.1 + [r]) == x + y.1 + [r];
    }
  }

  /** Reads on one file, of as many bytes each time as `counts` says. */
  function Reads(fd: nat, counts: seq<nat>): (ops: seq<Op>)
    ensures |ops| == |counts|
  {
    seq(|counts|, i requires 0 <= i < |counts| => Read(fd, counts[i], FINE))
  }

  /** All bytes of the responses, in order. */
  function AllData(responses: seq<Response>): seq<byte> {
    if responses == [] then [] else AllData(responses[..|responses| - 1]) + responses[|responses| - 1].data
  }

  lemma {:induction false} AllDataConcat(a: seq<Response>, b: seq<Response>)
    ensures AllData(a + b) == AllData(a) + AllData(b)
  {
    if b == [] {
      assert a + b == a;
    } else {
      var front, last := b[..|b| - 1], b[|b| - 1];
      AllDataConcat(a, front);
      assert (a + b)[..|a + b| - 1] == a + front;
      assert AllData(a) + (AllData(front) + last.data) == AllData(a) + AllData(front) + last.data;
    }
  }

  lemma ReadsNone(s: System, fd: nat)
    requires LogFits(s.log)
    ensures Run(s, Reads(fd, [])) == (s, []) && AllData([]) == []
  {
    assert Reads(fd, []) == [];
  }

  lemma ReadsStep(s: System, fd: nat, counts: seq<nat>)
    requires LogFits(s.log) && counts != []
    ensures var n := |counts| - 1;
            var before := Run(s, Reads(fd, counts[..n]));
            var now := Step(before.0, Read(fd, counts[n], FINE));
            && Run(s, Reads(fd, counts)).0 == now.0
            && AllData(Run(s, Reads(fd, counts)).1) == AllData(before.1) + now.1.data
  {
    hide Step, LogFits;
    var n := |counts| - 1;
    assert Reads(fd, counts)[..n] == Reads(fd, counts[..n]);
    var before := Run(s, Reads(fd, counts[..n]));
    var r := Step(before.0, Read(fd, counts[n], FINE)).1;
    assert (before.1 + [r])[..n] == before.1;
  }

  lemma SliceOnward(file: seq<byte>, pos: nat, got: seq<byte>, n: nat)
    requires pos + |got| + n <= |file| && got <= file[pos..]
    ensures got + file[pos + |got|..pos + |got| + n] <= file[pos..]
  {
    assert got + file[pos + |got|..pos + |got| + n] == file[pos..][..|got| + n];
  }

  /** What reads have got after some turns: a beginning of the file ahead, at least a byte each turn until its end. */
  lemma {:induction false} ReadsAdvance(s: System, fd: nat, counts: seq<nat>)
    requires LogFits(s.log) && fd < |s.files|
    requires forall i :: 0 <= i < |counts| ==> counts[i] > 0
    ensures var run := Run(s, Reads(fd, counts));
            var got, ahead := AllData(run.1), From(s.log.commands, s.files[fd]);
            && got <= ahead
            && (got == ahead || |got| >= |counts|)
            && run.0.log == s.log
            && Moved(s.files, run.0.files, fd, s.files[fd] + |got|)
    decreases |counts|
  {
    hide Run, Step, LogFits, Content, AllData;
    var ahead := From(s.log.commands, s.files[fd]);
    if counts == [] {
      ReadsNone(s, fd);
    } else {
      var n := |counts| - 1;
      ReadsAdvance(s, fd, counts[..n]);
      ReadsStep(s, fd, counts);
      var before := Run(s, Reads(fd, counts[..n]));
      var got := AllData(before.1);
      ReadResponds(before.0, fd, counts[n]);
      var data := Step(before.0, Read(fd, counts[n], FINE)).1.data;
      if data != [] {
        SliceOnward(Content(s.log.commands), s.files[fd], got, |data|);
      } else {
        assert got == ahead && got + data == got;
      }
    }
  }

  /** Reading on, with any positive counts and often enough, delivers exactly the file from the position on. */
  lemma ReadingOnDelivers(s: System, fd: nat, counts: seq<nat>)
    requires LogFits(s.log) && fd < |s.files|
    requires forall i :: 0 <= i < |counts| ==> counts[i] > 0
    requires s.files[fd] + |counts| >= |Content(s.log.commands)|
    ensures AllData(Run(s, Reads(fd, counts)).1) == From(s.log.commands, s.files[fd])
  {
    hide Run, Content, AllData;
    ReadsAdvance(s, fd, counts);
  }

  // ----- llseek, with whence 0 for SEEK_SET, 1 for SEEK_CUR and 2 for SEEK_END

  /** What the offset is counted from. */
  function Origin(s: System, fd: nat, whence: int): nat
    requires fd < |s.files|
  {
    if whence == 0 then 0 else if whence == 1 then s.files[fd] else |Content(s.log.commands)|
  }

  /**
   A move is refused with -EINVAL exactly for another whence and for a target below 0 or past the largest
   loff_t; nothing changes then. Otherwise the position is the target, and the target is returned.
   */
  lemma LlseekResponds(s: System, fd: nat, offset: Loff, whence: int, env: Env)
    requires LogFits(s.log) && fd < |s.files|
    ensures var target := Origin(s, fd, whence) + offset;
            Step(s, Llseek(fd, offset, whence, env))
            == if !env.interrupted && 0 <= whence <= 2 && 0 <= target < 0x8000_0000_0000_0000
               then (s.(files := s.files[fd := target]), Response(target, []))
               else (s, Response(-22, []))
  {
    hide Content;
    FitsKept(s.log, [], FINE);
  }

  function Lseek(fd: nat, offset: Loff, whence: int): Op {
    Llseek(fd, offset, whence, FINE)
  }

  /** A call that only moves the file, and then reading on. */
  lemma MoveThenReadOn(s: System, op: Op, fd: nat, counts: seq<nat>)
    requires LogFits(s.log)
    requires var moved := Step(s, op);
             && moved.1.data == [] && moved.0.log == s.log && fd < |moved.0.files|
             && moved.0.files[fd] + |counts| >= |Content(s.log.commands)|
    requires forall i :: 0 <= i < |counts| ==> counts[i] > 0
    ensures AllData(Run(s, [op] + Reads(fd, counts)).1) == From(s.log.commands, Step(s, op).0.files[fd])
  {
    hide Run, Step, Content, From, Reads, LogFits;
    var moved := Step(s, op);
    RunOne(s, op);
    RunConcat(s, [op], Reads(fd, counts));
    ReadingOnDelivers(moved.0, fd, counts);
    AllDataConcat([moved.1], Run(moved.0, Reads(fd, counts)).1);
    assert [moved.1][..0] == [];
  }

  /** lseek(fd, p, SEEK_SET), wherever the file was, and then reading on delivers the file from p on. */
  lemma SetThenReadOn(s: System, fd: nat, p: FilePos, counts: seq<nat>)
    requires LogFits(s.log) && fd < |s.files|
    requires forall i :: 0 <= i < |counts| ==> counts[i] > 0
    requires p + |counts| >= |Content(s.log.commands)|
    ensures AllData(Run(s, [Lseek(fd, p, 0)] + Reads(fd, counts)).1) == From(s.log.commands, p)
  {
    hide Run, Step, Content, From, AllData;
    LlseekResponds(s, fd, p, 0, FINE);
    MoveThenReadOn(s, Lseek(fd, p, 0), fd, counts);
  }

  /** lseek(fd, 0, SEEK_CUR) reports the position and changes nothing. */
  lemma CurReports(s: System, fd: nat)
    requires LogFits(s.log) && fd < |s.files|
    ensures Step(s, Lseek(fd, 0, 1)) == (s, Response(s.files[fd], []))
  {
    hide Step, Content;
    LlseekResponds(s, fd, 0, 1, FINE);
    assert s.files[fd := s.files[fd]] == s.files;
  }

  lemma Pair<T>(x: T, y: T)
    ensures [x] + [y] == [x, y]
  {
  }

  lemma TwoMoves(s: System, a: Op, b: Op)
    requires LogFits(s.log)
    ensures var first := Step(s, a);
            Run(s, [a, b]) == (Step(first.0, b).0, [first.1, Step(first.0, b).1])
  {
    hide Run, Step;
    RunOne(s, a);
    RunOne(Step(s, a).0, b);
    RunConcat(s, [a], [b]);
    Pair(a, b);
    Pair(Step(s, a).1, Step(Step(s, a).0, b).1);
  }

  /** Two moves relative to the position are one by their sum, if the first is not refused. */
  lemma CurComposes(s: System, fd: nat, a: Loff, b: Loff)
    requires LogFits(s.log) && fd < |s.files|
    requires 0 <= s.files[fd] + a < 0x8000_0000_0000_0000
    requires -0x8000_0000_0000_0000 <= a + b < 0x8000_0000_0000_0000
    requires 0 <= s.files[fd] + a + b < 0x8000_0000_0000_0000
    ensures var two, one := Run(s, [Lseek(fd, a, 1), Lseek(fd, b, 1)]), Run(s, [Lseek(fd, a + b, 1)]);
            two.0 == one.0 && two.1[1] == one.1[0]
  {
    hide Run, Step, Content;
    TwoMoves(s, Lseek(fd, a, 1), Lseek(fd, b, 1));
    RunOne(s, Lseek(fd, a + b, 1));
    LlseekResponds(s, fd, a, 1, FINE);
    LlseekResponds(s.(files := s.files[fd := s.files[fd] + a]), fd, b, 1, FINE);
    LlseekResponds(s, fd, a + b, 1, FINE);
    assert s.files[fd := s.files[fd] + a][fd := s.files[fd] + a + b] == s.files[fd := s.files[fd] + a + b];
  }

  /** Moving to p and then by d is moving to p + d, wherever the file was before. */
  lemma SetThenCur(s: System, fd: nat, p: FilePos, d: Loff)
    requires LogFits(s.log) && fd < |s.files|
    requires 0 <= p + d < 0x8000_0000_0000_0000
    ensures var two, one := Run(s, [Lseek(fd, p, 0), Lseek(fd, d, 1)]), Run(s, [Lseek(fd, p + d, 0)]);
            two.0 == one.0 && two.1[1] == one.1[0]
  {
    hide Run, Step, Content;
    TwoMoves(s, Lseek(fd, p, 0), Lseek(fd, d, 1));
    RunOne(s, Lseek(fd, p + d, 0));
    LlseekResponds(s, fd, p, 0, FINE);
    LlseekResponds(s.(files := s.files[fd := p]), fd, d, 1, FINE);
    LlseekResponds(s, fd, p + d, 0, FINE);
    assert s.files[fd := p][fd := p + d] == s.files[fd := p + d];
  }

  // ----- the seek ioctl

  /** _IOWR of type 0x16, number 1 and a struct of 8 bytes: direction, size, type and number in their places. */
  const SEEKTO_REQUEST: int := 3 * 0x4000_0000 + 8 * 0x1_0000 + 0x16 * 0x100 + 1

  lemma SeekFits(l: Log, cmd: nat, off: nat)
    requires LogFits(l) && cmd < |l.commands| && off < |l.commands[cmd]|
    ensures |Content(l.commands[..cmd])| + off < LOFF_LIMIT
  {
    hide Content, Sum;
    ContentAround(l.commands, cmd);
    SeekStaysInRange(l, cmd, off);
  }

  /**
   The one request moves to byte `off` of command `cmd`, counted in the flat file, if there is such a byte.
   Everything else, an interrupt and a fault of the copy included, is -EINVAL and changes nothing.
   */
  lemma IoctlResponds(s: System, fd: nat, request: int, cmd: nat, off: nat, env: Env)
    requires LogFits(s.log) && fd < |s.files|
    ensures var cmds := s.log.commands;
            Step(s, Ioctl(fd, request, cmd, off, env))
            == if !env.interrupted && env.residue == 0 && request == SEEKTO_REQUEST && cmd < |cmds| && off < |cmds[cmd]|
               then
                 var target := |Content(cmds[..cmd])| + off;
                 SeekFits(s.log, cmd, off);
                 (s.(files := s.files[fd := target]), Response(target, []))
               else (s, Response(-22, []))
  {
    hide Content, Sum;
    if cmd < |s.log.commands| && off < |s.log.commands[cmd]| {
      ContentAround(s.log.commands, cmd);
    }
  }

  lemma RestOfMiddle(a: seq<byte>, c: seq<byte>, b: seq<byte>, off: nat)
    requires off <= |c|
    ensures (a + c + b)[|a| + off..] == c[off..] + b
  {
  }

  /** Seeking to a byte of a command and reading on delivers the rest of that command and the commands after it. */
  lemma IoctlThenReadOn(s: System, fd: nat, cmd: nat, off: nat, counts: seq<nat>)
    requires LogFits(s.log) && fd < |s.files|
    requires cmd < |s.log.commands| && off < |s.log.commands[cmd]|
    requires forall i :: 0 <= i < |counts| ==> counts[i] > 0
    requires |counts| >= |Content(s.log.commands)|
    ensures var cmds := s.log.commands;
            AllData(Run(s, [Ioctl(fd, SEEKTO_REQUEST, cmd, off, FINE)] + Reads(fd, counts)).1)
            == cmds[cmd][off..] + Content(cmds[cmd + 1..])
  {
    hide Run, Step, Content, AllData, Sum, Reads;
    var op, cmds := Ioctl(fd, SEEKTO_REQUEST, cmd, off, FINE), s.log.commands;
    IoctlResponds(s, fd, SEEKTO_REQUEST, cmd, off, FINE);
    MoveThenReadOn(s, op, fd, counts);
    ContentAround(cmds, cmd);
    RestOfMiddle(Content(cmds[..cmd]), cmds[cmd], Content(cmds[cmd + 1..]), off);
  }

  // ----- writing

  /** The last nine commands, or all of them if there are fewer: what a commit keeps. */
  function Kept(cmds: seq<Command>): seq<Command> {
    if |cmds| < 10 then cmds else cmds[|cmds| - 9..]
  }

  /**
   A write returns -EINTR when interrupted, -ENOMEM without memory, what was not copied when the copy faults,
   and the whole length otherwise; only then does anything change: a text that ends in byte 10 becomes the
   newest command, with everything pending before it, and any other text is pending with it.
   */
  lemma WriteResponds(s: System, fd: nat, data: seq<byte>, env: Env)
    requires LogFits(s.log) && fd < |s.files|
    ensures var text := s.log.pending + data;
            Step(s, Write(fd, data, env))
            == if env.interrupted then (s, Response(-4, []))
               else if env.noMemory || |text| > KMALLOC_MAX then (s, Response(-12, []))
               else if env.residue > 0 && data != [] then
                 (s, Response(if env.residue < |data| then env.residue else |data|, []))
               else if text != [] && text[|text| - 1] == 10 then
                 (s.(log := Log(Kept(s.log.commands) + [text], [])), Response(|data|, []))
               else (s.(log := Log(s.log.commands, text)), Response(|data|, []))
  {
  }

  // ----- descriptors

  /** Opening gives the next descriptor, at position 0. */
  lemma OpenResponds(s: System)
    requires LogFits(s.log)
    ensures Step(s, Open) == (System(s.log, s.files + [0]), Response(|s.files|, []))
  {
  }

  predicate On(op: Op, fd: nat) {
    !op.Open? && op.fd == fd
  }

  /** A call on a descriptor that is not open is -EBADF and changes nothing. */
  lemma BadDescriptor(s: System, op: Op)
    requires LogFits(s.log) && !op.Open? && op.fd >= |s.files|
    ensures Step(s, op) == (s, Response(-9, []))
  {
  }

  /** Only a write changes the device, and it moves no file; no call moves a file it is not made on. */
  lemma StepTouches(s: System, op: Op, fd: nat)
    requires LogFits(s.log) && fd < |s.files|
    ensures var next := Step(s, op).0;
            && |next.files| >= |s.files|
            && (!op.Write? ==> next.log == s.log)
            && (op.Write? ==> next.files == s.files)
            && (!On(op, fd) ==> next.files[fd] == s.files[fd])
  {
    hide ReadAt, Content, WriteEffect, WriteCode, LlseekResult, IoctlResult;
  }

  /** Over every run: what others do moves no file of mine, and without writes the device stays as it is. */
  lemma {:induction false} RunTouches(s: System, ops: seq<Op>, fd: nat)
    requires LogFits(s.log) && fd < |s.files|
    ensures var last := Run(s, ops).0;
            && |last.files| >= |s.files|
            && ((forall i :: 0 <= i < |ops| ==> !ops[i].Write?) ==> last.log == s.log)
            && ((forall i :: 0 <= i < |ops| ==> !On(ops[i], fd)) ==> last.files[fd] == s.files[fd])
  {
    hide Step, LogFits;
    if ops != [] {
      var n := |ops| - 1;
      RunTouches(s, ops[..n], fd);
      StepTouches(Run(s, ops[..n]).0, ops[n], fd);
    }
  }
}
