/**
 What the device does, as a function of its abstract state: the commands in the
 ring from oldest to newest, and the pending text that no newline has ended yet.
 The driver's methods (module Devices) are proved against these functions; the
 theorems about whole runs are in module DeviceTheorems.
 */
module DeviceSpec {
  import opened Bytes
  import opened Commands

  // ----- constants of the kernel interface

  const EINTR: int := 4
  const ENOMEM: int := 12
  const EINVAL: int := 22
  const EBADF: int := 9
  const SEEK_SET: int := 0
  const SEEK_CUR: int := 1
  const SEEK_END: int := 2

  /** _IOWR(0x16, 1, struct aesd_seekto) */
  const IOCSEEKTO: int := 0xC008_1601

  /** The largest block kmalloc hands out. */
  const KMALLOC_MAX: nat := 0x40_0000

  const LOFF_LIMIT: int := 0x8000_0000_0000_0000

  /** loff_t */
  type Loff = n: int | -LOFF_LIMIT <= n < LOFF_LIMIT

  /** A file position: a loff_t that is never negative. */
  type FilePos = n: int | 0 <= n < LOFF_LIMIT

  // ----- state, operations, environment

  datatype Log = Log(commands: seq<Command>, pending: seq<byte>)

  /**
   What the kernel does to one call: whether the mutex wait is interrupted, whether
   the allocator is out of memory, and how many bytes a user copy would leave uncopied.
   */
  datatype Env = Env(interrupted: bool, noMemory: bool, residue: nat)

  const FINE: Env := Env(false, false, 0)

  /** The result of copying `n` bytes to or from user space: the number of bytes not copied. */
  function CopyError(env: Env, n: nat): nat {
    Min(env.residue, n)
  }

  /** The device and the position of every open file, by descriptor. */
  datatype System = System(log: Log, files: seq<FilePos>)

  datatype Op =
    | Open
    | Read(fd: nat, count: nat, env: Env)
    | Write(fd: nat, data: seq<byte>, env: Env)
    | Llseek(fd: nat, offset: Loff, whence: int, env: Env)
    | Ioctl(fd: nat, request: int, writeCmd: nat, writeCmdOffset: nat, env: Env)

  datatype Response = Response(retval: int, data: seq<byte>)

  const EMPTY: Log := Log([], [])
  const BOOTED: System := System(EMPTY, [])

  // ----- one call

  /** A write that goes through: the text joins the pending text and commits it if it ends the line. */
  function Accept(l: Log, data: seq<byte>): Log {
    var text := l.pending + data;
    if EndsLine(text) then Log(Push(l.commands, text), []) else Log(l.commands, text)
  }

  predicate Succeeds(l: Log, data: seq<byte>, env: Env) {
    && !env.interrupted
    && !env.noMemory
    && |l.pending| + |data| <= KMALLOC_MAX
    && CopyError(env, |data|) == 0
  }

  function WriteEffect(l: Log, data: seq<byte>, env: Env): Log {
    if Succeeds(l, data, env) then Accept(l, data) else l
  }

  function WriteCode(l: Log, data: seq<byte>, env: Env): int {
    if env.interrupted then -EINTR
    else if env.noMemory || |l.pending| + |data| > KMALLOC_MAX then -ENOMEM
    else if CopyError(env, |data|) != 0 then CopyError(env, |data|)
    else |data|
  }

  /** The bytes one read delivers; a failed call delivers none. */
  function ReadData(l: Log, pos: nat, count: nat, env: Env): seq<byte> {
    var data := ReadAt(l.commands, pos, count);
    if env.interrupted || CopyError(env, |data|) != 0 then [] else data
  }

  function ReadCode(l: Log, pos: nat, count: nat, env: Env): int {
    var data := ReadAt(l.commands, pos, count);
    if env.interrupted then -EINTR
    else if CopyError(env, |data|) != 0 then CopyError(env, |data|)
    else |data|
  }

  /** The position llseek asks for, before range checks. */
  function LlseekTarget(l: Log, pos: FilePos, offset: Loff, whence: int): Option<int> {
    if whence == SEEK_SET then Some(offset)
    else if whence == SEEK_CUR then Some(pos + offset)
    else if whence == SEEK_END then Some(|Content(l.commands)| + offset)
    else None
  }

  /** The position llseek moves to, or None for -EINVAL. */
  function LlseekResult(l: Log, pos: FilePos, offset: Loff, whence: int, env: Env): Option<FilePos> {
    var target := LlseekTarget(l, pos, offset, whence);
    if env.interrupted || target.None? || target.value < 0 || target.value >= LOFF_LIMIT then None
    else Some(target.value)
  }

  /** The position the seek ioctl moves to, or None for -EINVAL. */
  function IoctlResult(l: Log, request: int, writeCmd: nat, writeCmdOffset: nat, env: Env): Option<nat> {
    if env.interrupted || request != IOCSEEKTO || env.residue != 0 then None
    else SeekPosition(l.commands, writeCmd, writeCmdOffset)
  }

  // ----- sizes stay far below every integer limit

  predicate LogFits(l: Log) {
    && |l.commands| <= CAPACITY
    && (forall i :: 0 <= i < |l.commands| ==> |l.commands[i]| <= KMALLOC_MAX)
    && |l.pending| <= KMALLOC_MAX
  }

  lemma FitsKept(l: Log, data: seq<byte>, env: Env)
    requires LogFits(l)
    ensures LogFits(WriteEffect(l, data, env))
  {
  }

  lemma {:induction false} ContentBound(cmds: seq<Command>)
    requires forall i :: 0 <= i < |cmds| ==> |cmds[i]| <= KMALLOC_MAX
    ensures |Content(cmds)| <= |cmds| * KMALLOC_MAX
  {
    if cmds != [] {
      ContentBound(cmds[..|cmds| - 1]);
    }
  }

  lemma ReadStaysInRange(l: Log, pos: FilePos, count: nat, env: Env)
    requires LogFits(l)
    ensures pos + |ReadData(l, pos, count, env)| < LOFF_LIMIT
  {
    ContentBound(l.commands);
    ReadIsSlice(l.commands, pos, count);
  }

  lemma SeekStaysInRange(l: Log, index: nat, offset: nat)
    requires LogFits(l)
    requires SeekPosition(l.commands, index, offset).Some?
    ensures SeekPosition(l.commands, index, offset).value < LOFF_LIMIT
  {
    ContentBound(l.commands);
    SeekThenLocate(l.commands, index, offset);
  }

  // ----- one operation and whole runs

  /** The one write the driver does not define: nothing pending and nothing written. */
  predicate Defined(s: System, op: Op) {
    op.Write? && op.fd < |s.files| ==>
      op.env.interrupted || op.env.noMemory || |s.log.pending| + |op.data| >= 1
  }

  function Step(s: System, op: Op): (r: (System, Response))
    requires LogFits(s.log)
    ensures LogFits(r.0.log)
  {
    FitsKept(s.log, if op.Write? then op.data else [], if op.Write? then op.env else FINE);
    match op
    case Open => (s.(files := s.files + [0]), Response(|s.files|, []))
    case Read(fd, count, env) =>
      if fd >= |s.files| then (s, Response(-EBADF, []))
      else
        var data := ReadData(s.log, s.files[fd], count, env);
        ReadStaysInRange(s.log, s.files[fd], count, env);
        (s.(files := s.files[fd := s.files[fd] + |data|]), Response(ReadCode(s.log, s.files[fd], count, env), data))
    case Write(fd, data, env) =>
      if fd >= |s.files| then (s, Response(-EBADF, []))
      else (s.(log := WriteEffect(s.log, data, env)), Response(WriteCode(s.log, data, env), []))
    case Llseek(fd, offset, whence, env) =>
      if fd >= |s.files| then (s, Response(-EBADF, []))
      else
        (match LlseekResult(s.log, s.files[fd], offset, whence, env)
         case None => (s, Response(-EINVAL, []))
         case Some(p) => (s.(files := s.files[fd := p]), Response(p, [])))
    case Ioctl(fd, request, writeCmd, writeCmdOffset, env) =>
      if fd >= |s.files| then (s, Response(-EBADF, []))
      else
        (match IoctlResult(s.log, request, writeCmd, writeCmdOffset, env)
         case None => (s, Response(-EINVAL, []))
         case Some(p) =>
           SeekStaysInRange(s.log, writeCmd, writeCmdOffset);
           (s.(files := s.files[fd := p]), Response(p, [])))
  }

  /** The state after a run of operations, and the response to each. */
  function Run(s: System, ops: seq<Op>): (r: (System, seq<Response>))
    requires LogFits(s.log)
    ensures LogFits(r.0.log)
    ensures |r.1| == |ops|
  {
    if ops == [] then (s, [])
    else
      var before := Run(s, ops[..|ops| - 1]);
      var last := Step(before.0, ops[|ops| - 1]);
      (last.0, before.1 + [last.1])
  }

  /** No operation of the run is the undefined write. */
  ghost predicate AllDefined(s: System, ops: seq<Op>)
    requires LogFits(s.log)
  {
    forall i :: 0 <= i < |ops| ==> Defined(Run(s, ops[..i]).0, ops[i])
  }
}
