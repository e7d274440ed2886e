/**
 The life of the driver module: load, any sequence of calls on any number of open
 files, unload. It carries the run theorems of DeviceTheorems to the driver's code.
 */
module DeviceSessions {
  import opened Bytes
  import opened DeviceSpec
  import KernelHeap
  import opened Devices

  lemma RunNothing(s: System, ops: seq<Op>)
    requires LogFits(s.log)
    ensures Run(s, ops[..0]) == (s, [])
  {
  }

  /** One more operation of a run, and that it is defined when its turn comes. */
  lemma RunOneMore(s: System, ops: seq<Op>, i: nat)
    requires LogFits(s.log) && i < |ops|
    ensures var before := Run(s, ops[..i]);
            Run(s, ops[..i + 1]) == (Step(before.0, ops[i]).0, before.1 + [Step(before.0, ops[i]).1])
    ensures AllDefined(s, ops) ==> Defined(Run(s, ops[..i]).0, ops[i])
  {
    hide Step, Defined;
    assert ops[..i + 1][..i] == ops[..i];
  }

  /** The loaded module and the files open on it, by descriptor. */
  class Session {
    const dev: Device

    var files: seq<OpenFile>

    ghost predicate Valid()
      reads this, files, dev, dev.ring, dev.ring.entry, dev.heap
    {
      && dev.Valid()
      && (forall i, j :: 0 <= i < j < |files| ==> files[i] != files[j])
    }

    ghost function Positions(): seq<FilePos>
      reads this, files
    {
      seq(|files|, i requires 0 <= i < |files| reads this, files => files[i].fPos)
    }

    /** The abstract system this session is in. */
    ghost function View(): (s: System)
      requires Valid()
      reads this, files, dev, dev.ring, dev.ring.entry, dev.heap
      ensures LogFits(s.log)
    {
      System(dev.View(), Positions())
    }

    constructor ()
      ensures Valid() && View() == BOOTED
      ensures fresh(dev) && fresh(dev.ring) && fresh(dev.ring.entry) && fresh(dev.heap)
      ensures files == []
    {
      dev := new Device();
      files := [];
    }

    /** read on an open file. */
    method ReadFile(fd: nat, count: nat, env: Env) returns (r: Response)
      requires Valid() && fd < |files|
      modifies files
      ensures Valid()
      ensures (View(), r) == Step(old(View()), Read(fd, count, env))
    {
      hide ReadData, ReadCode, WriteEffect, WriteCode, LlseekResult, IoctlResult, KernelHeap.LogOf, KernelHeap.Owns;
      ghost var was := View();
      var code, data := dev.Read(files[fd], count, env);
      r := Response(code, data);
      assert Positions() == was.files[fd := files[fd].fPos];
    }

    /** write on an open file. */
    method WriteFile(fd: nat, data: seq<byte>, env: Env) returns (r: Response)
      requires Valid() && fd < |files|
      requires Defined(View(), Write(fd, data, env))
      modifies dev, dev.ring, dev.ring.entry, dev.heap
      ensures Valid()
      ensures (View(), r) == Step(old(View()), Write(fd, data, env))
    {
      hide ReadData, ReadCode, WriteEffect, WriteCode, LlseekResult, IoctlResult, KernelHeap.LogOf, KernelHeap.Owns;
      ghost var was := View();
      var code := dev.Write(data, env);
      r := Response(code, []);
      assert Positions() == was.files;
    }

    /** llseek on an open file. */
    method LlseekFile(fd: nat, offset: Loff, whence: int, env: Env) returns (r: Response)
      requires Valid() && fd < |files|
      modifies files
      ensures Valid()
      ensures (View(), r) == Step(old(View()), Llseek(fd, offset, whence, env))
    {
      hide ReadData, ReadCode, WriteEffect, WriteCode, LlseekResult, IoctlResult, KernelHeap.LogOf, KernelHeap.Owns;
      ghost var was := View();
      var code := dev.Llseek(files[fd], offset, whence, env);
      assert was.files[fd := was.files[fd]] == was.files;
      r := Response(code, []);
      assert Positions() == was.files[fd := files[fd].fPos];
    }

    /** ioctl on an open file. */
    method IoctlFile(fd: nat, request: int, writeCmd: nat, writeCmdOffset: nat, env: Env) returns (r: Response)
      requires Valid() && fd < |files|
      modifies files
      ensures Valid()
      ensures (View(), r) == Step(old(View()), Ioctl(fd, request, writeCmd, writeCmdOffset, env))
    {
      hide ReadData, ReadCode, WriteEffect, WriteCode, LlseekResult, IoctlResult, KernelHeap.LogOf, KernelHeap.Owns;
      ghost var was := View();
      var code := dev.Ioctl(files[fd], request, writeCmd, writeCmdOffset, env);
      assert was.files[fd := was.files[fd]] == was.files;
      r := Response(code, []);
      assert Positions() == was.files[fd := files[fd].fPos];
    }

    /** One system call. */
    method Perform(op: Op) returns (r: Response)
      requires Valid()
      requires Defined(View(), op)
      modifies this, files, dev, dev.ring, dev.ring.entry, dev.heap
      ensures Valid()
      ensures (View(), r) == Step(old(View()), op)
      ensures old(files) <= files && forall i :: |old(files)| <= i < |files| ==> fresh(files[i])
    {
      hide ReadData, ReadCode, WriteEffect, WriteCode, LlseekResult, IoctlResult, KernelHeap.LogOf, KernelHeap.Owns;
      ghost var was := View();
      if op.Open? {
        var f := new OpenFile();
        r := Response(|files|, []);
        files := files + [f];
        assert Positions() == was.files + [0];
      } else if op.fd >= |files| {
        r := Response(-EBADF, []);
      } else {
        hide Step, Positions;
        match op
        case Read(fd, count, env) => r := ReadFile(fd, count, env);
        case Write(fd, data, env) => r := WriteFile(fd, data, env);
        case Llseek(fd, offset, whence, env) => r := LlseekFile(fd, offset, whence, env);
        case Ioctl(fd, request, writeCmd, writeCmdOffset, env) => r := IoctlFile(fd, request, writeCmd, writeCmdOffset, env);
      }
    }

    /** A sequence of system calls. */
    method PerformAll(ops: seq<Op>) returns (responses: seq<Response>)
      requires Valid()
      requires AllDefined(View(), ops)
      modifies this, files, dev, dev.ring, dev.ring.entry, dev.heap
      ensures Valid()
      ensures (View(), responses) == Run(old(View()), ops)
    {
      hide Step, KernelHeap.LogOf, KernelHeap.Owns, Defined, Run, Positions;
      ghost var was := View();
      responses := [];
      RunNothing(was, ops);
      for i := 0 to |ops|
        invariant Valid()
        invariant old(files) <= files && forall k :: |old(files)| <= k < |files| ==> fresh(files[k])
        invariant (View(), responses) == Run(was, ops[..i])
      {
        RunOneMore(was, ops, i);
        var r := Perform(ops[i]);
        responses := responses + [r];
      }
      assert ops[..|ops|] == ops;
    }
  }

  /**
   Load, run any operations, unload. The responses are those of the abstract run, and no
   heap block outlives the module. `last` is the abstract state just before unloading.
   */
  method LoadRunUnload(ops: seq<Op>) returns (responses: seq<Response>, blocksLeft: nat, ghost last: System)
    requires AllDefined(BOOTED, ops)
    ensures (last, responses) == Run(BOOTED, ops)
    ensures blocksLeft == 0
  {
    hide Run, AllDefined, KernelHeap.LogOf, KernelHeap.Owns;
    var session := new Session();
    responses := session.PerformAll(ops);
    last := session.View();
    session.dev.Cleanup();
    blocksLeft := |session.dev.heap.blocks|;
  }
}
