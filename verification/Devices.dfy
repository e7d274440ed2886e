/**
 The character device (aesd-char-driver/main.c): the driver's entry points working on
 the ring, the pending entry and the kernel heap, proved against module DeviceSpec.
 The driver's own mutex is held from the first to the last line of every entry point,
 so one call is one step.
 */
module Devices {
  import opened Bytes
  import opened Commands
  import opened CircularBuffers
  import opened DeviceSpec
  import opened KernelHeap

  /** The part of struct file that the driver uses. */
  class OpenFile {
    var fPos: FilePos

    constructor ()
      ensures fPos == 0
    {
      fPos := 0;
    }
  }

  /** Signed 64-bit wrap-around of a sum of two loff_t values. */
  function WrapLoff(n: int): Loff
    requires -2 * LOFF_LIMIT <= n < 2 * LOFF_LIMIT
  {
    if n >= LOFF_LIMIT then n - 2 * LOFF_LIMIT
    else if n < -LOFF_LIMIT then n + 2 * LOFF_LIMIT
    else n
  }

  /** struct aesd_dev */
  class Device {
    const ring: CircularBuffer
    const heap: Heap
    var current: Entry

    ghost predicate Valid()
      reads this, ring, ring.entry, heap
    {
      && ring.Valid()
      && heap.Valid()
      && Owns(ring.Entries(), current, heap.blocks)
    }

    ghost function View(): (l: Log)
      requires Valid()
      reads this, ring, ring.entry, heap
      ensures LogFits(l)
    {
      LogOf(ring.Entries(), current, heap.blocks)
    }

    /** The zeroed device that module initialisation leaves. */
    constructor ()
      ensures Valid() && View() == EMPTY
      ensures fresh(ring) && fresh(ring.entry) && fresh(heap)
      ensures heap.blocks == map[]
    {
      ring := new CircularBuffer();
      heap := new Heap();
      current := ZEROED;
    }

    /** aesd_read. On a failed copy the code returns the residue and leaves the position alone. */
    method Read(file: OpenFile, count: nat, env: Env) returns (retval: int, data: seq<byte>)
      requires Valid()
      modifies file
      ensures Valid() && View() == old(View())
      ensures data == ReadData(View(), old(file.fPos), count, env)
      ensures retval == ReadCode(View(), old(file.fPos), count, env)
      ensures file.fPos == old(file.fPos) + |data|
    {
      hide Locate, Sum, Content, SlotAt, IsAt, Owns, LogOf, ReadAt;
      retval, data := 0, [];
      if env.interrupted {
        return -EINTR, [];
      }
      var found, _ := ring.Find(file.fPos);
      LoadIsRead(ring.Entries(), current, heap.blocks, file.fPos, count);
      LocateCorrect(EntrySizes(ring.Entries()), file.fPos);
      if found.Some? {
        var e := ring.entry[found.value.slot];
        var numChars: int := e.size - found.value.byteOffset;
        if numChars > count {
          numChars := count;
        }
        var err := CopyError(env, numChars);
        if err != 0 {
          return err, [];
        }
        data := heap.Load(e.buffptr, found.value.byteOffset, numChars);
        ReadStaysInRange(View(), file.fPos, count, env);
        file.fPos := file.fPos + numChars;
        retval := numChars;
      }
    }

    /** Lines 104-116 of aesd_write: a larger block for the pending text, which moves over. */
    method Enlarge(count: nat, noMemory: bool) returns (temp: Ptr)
      requires Valid()
      modifies this, heap
      ensures Valid() && View() == old(View())
      ensures temp.Null? <==> noMemory || |View().pending| + count > KMALLOC_MAX
      ensures temp.Null? ==> current == old(current)
      ensures temp.At? ==>
                && current == old(current).(buffptr := temp)
                && temp.addr in heap.blocks
                && |heap.blocks[temp.addr]| == current.size + count <= KMALLOC_MAX
    {
      hide Owns, LogOf;
      ghost var entries, cur, before := ring.Entries(), current, heap.blocks;
      CurrentHeld(entries, cur, before);
      temp := heap.Kmalloc(current.size + count, noMemory);
      if temp.Null? {
        return;
      }
      if current.buffptr != Null {
        heap.Store(temp, 0, heap.Load(current.buffptr, 0, current.size));
        heap.Kfree(current.buffptr);
      }
      current := current.(buffptr := temp);
      ghost var block := heap.blocks[temp.addr];
      assert block[..cur.size] == Text(cur, before);
      MoveCurrent(entries, cur, before, temp.addr, block);
      assert heap.blocks == (if cur.buffptr.At? then before - {cur.buffptr.addr} else before)[temp.addr := block];
    }

    /** Lines 117-123 of aesd_write: the copy from the caller; only a complete one makes the pending entry larger. */
    method CopyIn(temp: Ptr, data: seq<byte>, env: Env) returns (err: nat)
      requires Valid()
      requires temp.At? && current.buffptr == temp && temp.addr in heap.blocks
      requires |heap.blocks[temp.addr]| == current.size + |data| <= KMALLOC_MAX
      modifies this, heap
      ensures Valid()
      ensures err == CopyError(env, |data|)
      ensures err != 0 ==> View() == old(View())
      ensures err == 0 ==> View() == old(View()).(pending := old(View()).pending + data)
      ensures current.buffptr == temp && temp.addr in heap.blocks
      ensures err == 0 ==> current.size == |View().pending| && heap.blocks[temp.addr] == View().pending
    {
      hide Owns, LogOf;
      ghost var entries, cur, before := ring.Entries(), current, heap.blocks;
      CurrentHeld(entries, cur, before);
      err := CopyError(env, |data|);
      heap.Store(temp, current.size, data[..|data| - err]);
      ghost var block := heap.blocks[temp.addr];
      if err != 0 {
        ChangeCurrent(entries, cur, before, block, cur.size);
        assert block[..cur.size] == Text(cur, before);
        return;
      }
      current := current.(size := current.size + |data|);
      ChangeCurrent(entries, cur, before, block, current.size);
      assert block[..current.size] == Text(cur, before) + data == block;
    }

    /** Lines 126-131 of aesd_write: the pending entry joins the ring, and the evicted block is freed. */
    method Commit()
      requires Valid()
      requires current.buffptr.At?
      modifies this, ring, ring.entry, heap
      ensures Valid()
      ensures View() == Log(Push(old(View()).commands, old(View()).pending), [])
    {
      hide Owns, LogOf, Push;
      ghost var entries := ring.Entries();
      CommitBlock(entries, current, heap.blocks);
      if ring.full {
        ring.EntryInSlot(0);
        heap.Kfree(ring.entry[ring.inOffs].buffptr);
      }
      ring.AddEntry(current);
      current := ZEROED;
    }

    /** aesd_write */
    method Write(data: seq<byte>, env: Env) returns (retval: int)
      requires Valid()
      requires env.interrupted || env.noMemory || |View().pending| + |data| >= 1
      modifies this, ring, ring.entry, heap
      ensures Valid()
      ensures View() == WriteEffect(old(View()), data, env)
      ensures retval == WriteCode(old(View()), data, env)
    {
      hide Owns, LogOf, Push;
      if env.interrupted {
        return -EINTR;
      }
      var temp := Enlarge(|data|, env.noMemory);
      if temp == Null {
        return -ENOMEM;
      }
      var err := CopyIn(temp, data, env);
      if err != 0 {
        return err;
      }
      ghost var text := View().pending;
      assert text == old(View()).pending + data;
      LastByte(text);
      if heap.Load(temp, current.size - 1, 1) == [NEWLINE] {
        Commit();
      }
      retval := |data|;
    }

    /** aesd_llseek */
    method Llseek(file: OpenFile, offset: Loff, whence: int, env: Env) returns (retval: int)
      requires Valid()
      modifies file
      ensures Valid() && View() == old(View())
      ensures var r := LlseekResult(View(), old(file.fPos), offset, whence, env);
              if r.Some? then retval == file.fPos == r.value
              else retval == -EINVAL && file.fPos == old(file.fPos)
    {
      hide Sum, Content, Owns;
      if env.interrupted {
        return -EINVAL;
      }
      LogSizes(ring.Entries(), current, heap.blocks);
      ContentLength(View().commands);
      ContentBound(View().commands);
      var newpos: Loff := 0;
      if whence == SEEK_SET {
        newpos := offset;
      } else if whence == SEEK_CUR {
        newpos := WrapLoff(file.fPos + offset);
      } else if whence == SEEK_END {
        var bufferSize := ring.TotalSize();
        newpos := WrapLoff(bufferSize + offset);
      } else {
        return -EINVAL;
      }
      if newpos < 0 {
        return -EINVAL;
      }
      file.fPos := newpos;
      return newpos;
    }

    /** aesd_unlocked_ioctl */
    method Ioctl(file: OpenFile, request: int, writeCmd: nat, writeCmdOffset: nat, env: Env) returns (retval: int)
      requires Valid()
      modifies file
      ensures Valid() && View() == old(View())
      ensures var r := IoctlResult(View(), request, writeCmd, writeCmdOffset, env);
              if r.Some? then retval == file.fPos == r.value
              else retval == -EINVAL && file.fPos == old(file.fPos)
    {
      hide Owns, LogOf, Sum;
      if env.interrupted {
        return -EINVAL;
      }
      if request == IOCSEEKTO {
        if env.residue != 0 {
          return -EINVAL;
        }
        LogSizes(ring.Entries(), current, heap.blocks);
        var pos := ring.CommandPosition(writeCmd, writeCmdOffset);
        if pos.None? {
          return -EINVAL;
        }
        SeekStaysInRange(View(), writeCmd, writeCmdOffset);
        file.fPos := pos.value;
        return pos.value;
      } else {
        return -EINVAL;
      }
    }

    /** A slot in use points at a live block that is not the pending one. */
    lemma SlotHeld(i: nat)
      requires Valid() && i < CAPACITY && ring.entry[i].buffptr.At?
      ensures ring.entry[i].buffptr.addr in heap.blocks && ring.entry[i].buffptr != current.buffptr
    {
      hide SlotAt;
      var k := ring.SlotHasEntry(i);
      assert Holds(ring.Entries()[k], heap.blocks);
    }

    /** Two slots in use point at different blocks. */
    lemma SlotsApart(i: nat, j: nat)
      requires Valid() && i < j < CAPACITY && ring.entry[i].buffptr.At?
      ensures ring.entry[i].buffptr != ring.entry[j].buffptr
    {
      hide SlotAt, LogOf;
      if ring.entry[j].buffptr.At? {
        var k := ring.SlotHasEntry(i);
        var m := ring.SlotHasEntry(j);
        EntriesApart(ring.Entries(), current, heap.blocks, k, m);
      }
    }

    /** Every live block but the pending one is some slot's. */
    lemma BlockInSlot(a: nat)
      requires Valid() && a in heap.blocks && current.buffptr != At(a)
      ensures HeldByRing(ring.entry[..], a)
    {
      hide SlotAt;
      var entries := ring.Entries();
      var k :| 0 <= k < |entries| && entries[k].buffptr == At(a);
      ring.EntryInSlot(k);
      assert ring.entry[..][SlotAt(ring.outOffs, k)].buffptr == At(a);
    }

    /** Ownership seen through the slots of the array instead of oldest to newest. */
    lemma SlotsOwnAll()
      requires Valid()
      ensures SlotsOwn(ring.entry[..], current, heap.blocks)
    {
      CurrentHeld(ring.Entries(), current, heap.blocks);
      hide Owns, LogOf, HeldByRing, Text;
      forall i | 0 <= i < CAPACITY && ring.entry[i].buffptr.At?
        ensures ring.entry[i].buffptr.addr in heap.blocks && ring.entry[i].buffptr != current.buffptr
      {
        SlotHeld(i);
      }
      forall i, j | 0 <= i < j < CAPACITY && ring.entry[i].buffptr.At?
        ensures ring.entry[i].buffptr != ring.entry[j].buffptr
      {
        SlotsApart(i, j);
      }
      forall a | a in heap.blocks && current.buffptr != At(a)
        ensures HeldByRing(ring.entry[..], a)
      {
        BlockInSlot(a);
      }
    }

    /** The memory part of aesd_cleanup_module: every block is freed once and none is left. */
    method Cleanup()
      requires Valid()
      modifies heap
      ensures heap.blocks == map[]
    {
      SlotsOwnAll();
      assert ring.entry[0..] == ring.entry[..];
      for i := 0 to CAPACITY
        invariant heap.Valid()
        invariant SlotsOwn(ring.entry[i..], current, heap.blocks)
      {
        FreeFirstSlot(ring.entry[i..], current, heap.blocks);
        assert ring.entry[i..][1..] == ring.entry[i + 1..];
        if ring.entry[i].buffptr != Null {
          heap.Kfree(ring.entry[i].buffptr);
        }
      }
      heap.Kfree(current.buffptr);
    }
  }
}
