/** The kernel allocator as the driver uses it, and who owns which block. */
module KernelHeap {
  import opened Bytes
  import opened Commands
  import opened CircularBuffers
  import opened DeviceSpec

  type Blocks = map<nat, seq<byte>>

  /** A block with `data` stored from position `from` on. */
  function Overwrite(block: seq<byte>, from: nat, data: seq<byte>): (r: seq<byte>)
    requires from + |data| <= |block|
    ensures |r| == |block|
    ensures r[..from] == block[..from]
    ensures r[..from + |data|] == block[..from] + data
  {
    block[..from] + data + block[from + |data|..]
  }

  /**
   Live blocks by address. Freeing a dead block and touching one are excluded by the
   preconditions, so a caller that verifies does neither. Addresses are not reused.
   */
  class Heap {
    var blocks: Blocks
    var next: nat

    ghost predicate Valid()
      reads this
    {
      forall a :: a in blocks ==> a < next
    }

    constructor ()
      ensures Valid() && blocks == map[]
    {
      blocks := map[];
      next := 0;
    }

    /** kmalloc: fails when memory is out or the request is too large; the new bytes are arbitrary. */
    method Kmalloc(size: nat, noMemory: bool) returns (p: Ptr)
      requires Valid()
      modifies this
      ensures Valid()
      ensures p.Null? <==> noMemory || size > KMALLOC_MAX
      ensures p.Null? ==> blocks == old(blocks)
      ensures p.At? ==>
                && p.addr !in old(blocks)
                && p.addr in blocks
                && |blocks[p.addr]| == size
                && blocks == old(blocks)[p.addr := blocks[p.addr]]
    {
      if noMemory || size > KMALLOC_MAX {
        return Null;
      }
      blocks := blocks[next := seq(size, _ => NUL)];
      p := At(next);
      next := next + 1;
    }

    /** kfree: the null pointer, or a live block. */
    method Kfree(p: Ptr)
      requires Valid()
      requires p.At? ==> p.addr in blocks
      modifies this
      ensures Valid()
      ensures blocks == if p.At? then old(blocks) - {p.addr} else old(blocks)
    {
      if p.At? {
        blocks := blocks - {p.addr};
      }
    }

    /** Bytes `from`..`from + n` of a live block. */
    function Load(p: Ptr, from: nat, n: nat): seq<byte>
      requires p.At? && p.addr in blocks
      requires from + n <= |blocks[p.addr]|
      reads this
    {
      blocks[p.addr][from..from + n]
    }

    /** Overwrites bytes of a live block, within its bounds. */
    method Store(p: Ptr, from: nat, data: seq<byte>)
      requires Valid()
      requires p.At? && p.addr in blocks
      requires from + |data| <= |blocks[p.addr]|
      modifies this
      ensures Valid()
      ensures blocks == old(blocks)[p.addr := Overwrite(old(blocks)[p.addr], from, data)]
    {
      blocks := blocks[p.addr := Overwrite(blocks[p.addr], from, data)];
    }
  }

  // ----- ownership

  /** The entry points at a live block that has room for its size. */
  predicate Holds(e: Entry, blocks: Blocks) {
    && e.buffptr.At?
    && e.buffptr.addr in blocks
    && e.size <= |blocks[e.buffptr.addr]| <= KMALLOC_MAX
  }

  ghost predicate HeldByRing(entries: seq<Entry>, a: nat) {
    exists i :: 0 <= i < |entries| && entries[i].buffptr == At(a)
  }

  /**
   The live blocks are exactly the pairwise distinct non-null pointers of the ring
   entries and of the pending entry.
   */
  ghost predicate Owns(entries: seq<Entry>, current: Entry, blocks: Blocks) {
    && (forall i :: 0 <= i < |entries| ==> Holds(entries[i], blocks))
    && (forall i, j :: 0 <= i < j < |entries| ==> entries[i].buffptr != entries[j].buffptr)
    && (current.buffptr.Null? ==> current.size == 0)
    && (current.buffptr.At? ==> Holds(current, blocks))
    && (forall i :: 0 <= i < |entries| ==> entries[i].buffptr != current.buffptr)
    && (forall a :: a in blocks ==> current.buffptr == At(a) || HeldByRing(entries, a))
  }

  function Text(e: Entry, blocks: Blocks): seq<byte>
    requires e.buffptr.At? ==> Holds(e, blocks)
  {
    if e.buffptr.Null? then [] else blocks[e.buffptr.addr][..e.size]
  }

  function Texts(entries: seq<Entry>, blocks: Blocks): (r: seq<Command>)
    requires forall i :: 0 <= i < |entries| ==> Holds(entries[i], blocks)
    ensures |r| == |entries|
    ensures forall i :: 0 <= i < |r| ==> r[i] == Text(entries[i], blocks)
  {
    seq(|entries|, i requires 0 <= i < |entries| => Text(entries[i], blocks))
  }

  /** The abstract device state that ring, pending entry and heap stand for. */
  ghost function LogOf(entries: seq<Entry>, current: Entry, blocks: Blocks): Log
    requires Owns(entries, current, blocks)
  {
    Log(Texts(entries, blocks), Text(current, blocks))
  }

  lemma LogSizes(entries: seq<Entry>, current: Entry, blocks: Blocks)
    requires Owns(entries, current, blocks)
    ensures Sizes(LogOf(entries, current, blocks).commands) == EntrySizes(entries)
    ensures |LogOf(entries, current, blocks).commands| == |entries|
  {
  }

  lemma CurrentHeld(entries: seq<Entry>, current: Entry, blocks: Blocks)
    requires Owns(entries, current, blocks)
    ensures current.buffptr.At? ==> Holds(current, blocks)
    ensures LogOf(entries, current, blocks).pending == Text(current, blocks)
    ensures |Text(current, blocks)| == current.size
  {
  }

  lemma EntriesApart(entries: seq<Entry>, current: Entry, blocks: Blocks, k: nat, m: nat)
    requires Owns(entries, current, blocks) && k < |entries| && m < |entries| && k != m
    ensures entries[k].buffptr != entries[m].buffptr
  {
  }

  /** Reading the found bytes from the heap is reading the flat file. */
  lemma LoadIsRead(entries: seq<Entry>, current: Entry, blocks: Blocks, pos: nat, count: nat)
    requires Owns(entries, current, blocks)
    ensures var data := ReadAt(LogOf(entries, current, blocks).commands, pos, count);
            match Locate(EntrySizes(entries), pos)
            case None => data == []
            case Some(p) =>
              var e := entries[p.index];
              && Holds(e, blocks)
              && data == blocks[e.buffptr.addr][p.offset..p.offset + Min(e.size - p.offset, count)]
  {
    hide Locate;
    LogSizes(entries, current, blocks);
  }

  /** Moving the pending text into a target block of the right size frees the old one and changes no text. */
  lemma MoveCurrent(entries: seq<Entry>, current: Entry, blocks: Blocks, target: nat, block: seq<byte>)
    requires Owns(entries, current, blocks)
    requires target !in blocks
    requires current.size <= |block| <= KMALLOC_MAX
    requires block[..current.size] == Text(current, blocks)
    ensures var moved := (if current.buffptr.At? then blocks - {current.buffptr.addr} else blocks)[target := block];
            && Owns(entries, current.(buffptr := At(target)), moved)
            && LogOf(entries, current.(buffptr := At(target)), moved) == LogOf(entries, current, blocks)
  {
    var moved := (if current.buffptr.At? then blocks - {current.buffptr.addr} else blocks)[target := block];
    assert forall i :: 0 <= i < |entries| ==>
      entries[i].buffptr.addr in moved && moved[entries[i].buffptr.addr] == blocks[entries[i].buffptr.addr];
  }

  /** Changing the pending block and its size changes the pending text only. */
  lemma ChangeCurrent(entries: seq<Entry>, current: Entry, blocks: Blocks, block: seq<byte>, size: SizeT)
    requires Owns(entries, current, blocks) && current.buffptr.At?
    requires size <= |block| <= KMALLOC_MAX
    ensures var changed := blocks[current.buffptr.addr := block];
            && Owns(entries, current.(size := size), changed)
            && LogOf(entries, current.(size := size), changed) == LogOf(entries, current, blocks).(pending := block[..size])
  {
    var changed := blocks[current.buffptr.addr := block];
    assert forall i :: 0 <= i < |entries| ==>
      entries[i].buffptr.addr in changed && changed[entries[i].buffptr.addr] == blocks[entries[i].buffptr.addr];
  }

  /** A younger entry keeps its block and its text. */
  lemma YoungerText(entries: seq<Entry>, current: Entry, blocks: Blocks, i: nat)
    requires Owns(entries, current, blocks) && 0 < i < |entries|
    ensures Holds(entries[0], blocks) && Holds(entries[i], blocks)
    ensures var kept := blocks - {entries[0].buffptr.addr};
            Holds(entries[i], kept) && Text(entries[i], kept) == Text(entries[i], blocks)
  {
    assert entries[0].buffptr != entries[i].buffptr;
  }

  /** Who owns what is left. */
  lemma YoungerHeld(entries: seq<Entry>, current: Entry, blocks: Blocks)
    requires Owns(entries, current, blocks) && entries != []
    ensures Holds(entries[0], blocks)
    ensures Owns(entries[1..], current, blocks - {entries[0].buffptr.addr})
  {
    var kept, young := blocks - {entries[0].buffptr.addr}, entries[1..];
    assert forall i :: 0 <= i < |young| ==> young[i] == entries[i + 1];
    forall a | a in kept && current.buffptr != At(a)
      ensures HeldByRing(young, a)
    {
      var i :| 0 <= i < |entries| && entries[i].buffptr == At(a);
      assert young[i - 1].buffptr == At(a);
    }
  }

  /** Freeing the oldest entry's block leaves the younger ones as they were. */
  lemma FreeOldest(entries: seq<Entry>, current: Entry, blocks: Blocks)
    requires Owns(entries, current, blocks) && entries != []
    ensures Holds(entries[0], blocks)
    ensures var kept := blocks - {entries[0].buffptr.addr};
            && Owns(entries[1..], current, kept)
            && LogOf(entries[1..], current, kept)
               == Log(LogOf(entries, current, blocks).commands[1..], LogOf(entries, current, blocks).pending)
  {
    var kept, young := blocks - {entries[0].buffptr.addr}, entries[1..];
    YoungerHeld(entries, current, blocks);
    forall i | 0 <= i < |young|
      ensures young[i] == entries[i + 1] && Holds(young[i], kept) && Text(young[i], kept) == Text(entries[i + 1], blocks)
    {
      YoungerText(entries, current, blocks, i + 1);
    }
    assert Texts(young, kept) == Texts(entries, blocks)[1..];
    assert Text(current, kept) == Text(current, blocks);
  }

  /** The pending block becomes the newest entry's. */
  lemma HandOver(entries: seq<Entry>, current: Entry, blocks: Blocks)
    requires Owns(entries, current, blocks) && current.buffptr.At?
    ensures Owns(entries + [current], ZEROED, blocks)
    ensures LogOf(entries + [current], ZEROED, blocks)
         == Log(LogOf(entries, current, blocks).commands + [LogOf(entries, current, blocks).pending], [])
  {
    var all := entries + [current];
    forall a | a in blocks
      ensures HeldByRing(all, a)
    {
      if current.buffptr == At(a) {
        assert all[|entries|].buffptr == At(a);
      } else {
        var i :| 0 <= i < |entries| && entries[i].buffptr == At(a);
        assert all[i].buffptr == At(a);
      }
    }
  }

  /** Committing: free the block of a tenth oldest entry, then hand over. */
  lemma CommitBlock(entries: seq<Entry>, current: Entry, blocks: Blocks)
    requires Owns(entries, current, blocks) && current.buffptr.At?
    requires |entries| <= CAPACITY
    ensures |entries| == CAPACITY ==> Holds(entries[0], blocks)
    ensures var kept := if |entries| == CAPACITY then blocks - {entries[0].buffptr.addr} else blocks;
            var l := LogOf(entries, current, blocks);
            && Owns(Push(entries, current), ZEROED, kept)
            && LogOf(Push(entries, current), ZEROED, kept) == Log(Push(l.commands, l.pending), [])
  {
    hide Owns, LogOf;
    LogSizes(entries, current, blocks);
    if |entries| == CAPACITY {
      FreeOldest(entries, current, blocks);
      HandOver(entries[1..], current, blocks - {entries[0].buffptr.addr});
    } else {
      HandOver(entries, current, blocks);
    }
  }

  // ----- ownership slot by slot, for the release at unload

  /** The live blocks are exactly the pairwise distinct non-null pointers of these slots and of `current`. */
  ghost predicate SlotsOwn(slots: seq<Entry>, current: Entry, blocks: Blocks) {
    && (forall i :: 0 <= i < |slots| && slots[i].buffptr.At? ==>
          slots[i].buffptr.addr in blocks && slots[i].buffptr != current.buffptr)
    && (forall i, j :: 0 <= i < j < |slots| && slots[i].buffptr.At? ==> slots[i].buffptr != slots[j].buffptr)
    && (current.buffptr.At? ==> current.buffptr.addr in blocks)
    && (forall a :: a in blocks ==> current.buffptr == At(a) || HeldByRing(slots, a))
  }

  lemma FreeFirstSlot(slots: seq<Entry>, current: Entry, blocks: Blocks)
    requires SlotsOwn(slots, current, blocks) && slots != []
    ensures SlotsOwn(slots[1..], current,
                     if slots[0].buffptr.At? then blocks - {slots[0].buffptr.addr} else blocks)
  {
    var kept := if slots[0].buffptr.At? then blocks - {slots[0].buffptr.addr} else blocks;
    forall a | a in kept && current.buffptr != At(a)
      ensures HeldByRing(slots[1..], a)
    {
      var i :| 0 <= i < |slots| && slots[i].buffptr == At(a);
      assert slots[1..][i - 1].buffptr == At(a);
    }
  }
}
