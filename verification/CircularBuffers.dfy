/**
 The circular buffer of write commands (aesd-char-driver/aesd-circular-buffer.c and .h).
 It holds pointers and sizes only; the bytes live in the kernel heap.
 */
module CircularBuffers {
  import opened Bytes
  import opened Commands

  // ----- size_t, where arithmetic wraps

  const SIZE_MODULUS: int := 0x1_0000_0000_0000_0000

  /** size_t on a 64-bit kernel. */
  type SizeT = n: int | 0 <= n < SIZE_MODULUS

  /** Addition of two size_t values. */
  function AddSize(a: SizeT, b: SizeT): SizeT {
    (a + b) % SIZE_MODULUS
  }

  /** Conversion of an int to size_t. */
  function ToSize(n: int): SizeT {
    n % SIZE_MODULUS
  }

  // ----- data

  /** A pointer into the kernel heap. */
  datatype Ptr = Null | At(addr: nat)

  /** struct aesd_buffer_entry */
  datatype Entry = Entry(buffptr: Ptr, size: SizeT)

  const ZEROED: Entry := Entry(Null, 0)

  /** Where a lookup ended: a slot of the array and a byte of that slot's buffer. */
  datatype Found = Found(slot: nat, byteOffset: SizeT)

  function EntrySizes(entries: seq<Entry>): (r: seq<nat>)
    ensures |r| == |entries|
    ensures forall i :: 0 <= i < |r| ==> r[i] == entries[i].size
  {
    seq(|entries|, i requires 0 <= i < |entries| => entries[i].size as nat)
  }

  // ----- slots and the wrapping cursor

  /** The array slot of the k-th oldest entry. */
  function SlotAt(outOffs: nat, k: nat): nat {
    (outOffs + k) % CAPACITY
  }

  /** The value of current_out_offs_offset when the walk is at the k-th oldest entry. */
  function Cursor(outOffs: nat, k: nat): SizeT {
    ToSize(if outOffs + k < CAPACITY then k else k - CAPACITY)
  }

  /** Storing at the next slot of a full ring and turning it by one. */
  lemma PushFull(slots: seq<Entry>, at: nat, e: Entry)
    requires |slots| == CAPACITY && at < CAPACITY
    ensures var now := slots[at := e];
            var start := if at + 1 >= CAPACITY then 0 else at + 1;
            now[start..] + now[..start] == Push(slots[at..] + slots[..at], e)
  {
    var now := slots[at := e];
    assert (slots[at..] + slots[..at])[1..] == slots[at + 1..] + slots[..at];
    assert now[..at + 1] == slots[..at] + [e] && now[at + 1..] == slots[at + 1..];
  }

  /** Storing at the next slot of a ring that is not full. */
  lemma PushOpen(slots: seq<Entry>, at: nat, e: Entry)
    requires |slots| == CAPACITY && at < CAPACITY
    ensures var now := slots[at := e];
            && now[..at + 1] == Push(slots[..at], e)
            && (at + 1 >= CAPACITY ==> now[0..] + now[..0] == now[..at + 1])
  {
  }

  lemma SlotIs(outOffs: nat, i: nat, k: nat)
    requires i < CAPACITY && (outOffs + k == i || outOffs + k == i + CAPACITY)
    ensures SlotAt(outOffs, k) == i
  {
  }

  lemma SlotStart(outOffs: nat)
    requires outOffs < CAPACITY
    ensures SlotAt(outOffs, 0) == outOffs
  {
  }

  lemma SlotAdvances(outOffs: nat, k: nat)
    ensures SlotAt(outOffs, k) < CAPACITY
    ensures SlotAt(outOffs, k + 1) == if SlotAt(outOffs, k) + 1 >= CAPACITY then 0 else SlotAt(outOffs, k) + 1
  {
  }

  lemma CursorStart(outOffs: nat)
    requires outOffs < CAPACITY
    ensures Cursor(outOffs, 0) == 0
  {
  }

  /** Before and after the wrap, the cursor added to the start in size_t is the slot. */
  lemma CursorNames(outOffs: nat, k: nat)
    requires outOffs < CAPACITY && k < CAPACITY
    ensures outOffs < SIZE_MODULUS
    ensures AddSize(outOffs, Cursor(outOffs, k)) == SlotAt(outOffs, k) < CAPACITY
  {
  }

  lemma SizeOf(a: int)
    requires -20 <= a <= 20
    ensures ToSize(a) == if a < 0 then SIZE_MODULUS + a else a
  {
  }

  lemma WrapOnce(n: int)
    requires 0 <= n < 2 * SIZE_MODULUS
    ensures n % SIZE_MODULUS == if n < SIZE_MODULUS then n else n - SIZE_MODULUS
  {
  }

  /** size_t addition of small numbers, negative ones too, is the image of their sum. */
  lemma SizeSum(a: int, b: int)
    requires -10 <= a <= 10 && -10 <= b <= 10
    ensures AddSize(ToSize(a), ToSize(b)) == ToSize(a + b)
    ensures ToSize(a + b) == if a + b < 0 then SIZE_MODULUS + a + b else a + b
    ensures a >= 0 ==> ToSize(a) == a
    ensures b >= 0 ==> ToSize(b) == b
  {
    hide ToSize;
    SizeOf(a);
    SizeOf(b);
    SizeOf(a + b);
    WrapOnce(ToSize(a) + ToSize(b));
  }

  /** One turn of the loop moves the cursor on; it is zero again exactly after the tenth slot. */
  lemma CursorAdvances(outOffs: nat, k: nat)
    requires outOffs < CAPACITY && k < CAPACITY
    ensures var next := AddSize(Cursor(outOffs, k), 1);
            var turned := if AddSize(outOffs, next) >= CAPACITY then ToSize(-1 * outOffs) else next;
            && (turned == 0 <==> k + 1 == CAPACITY)
            && (k + 1 < CAPACITY ==> turned == Cursor(outOffs, k + 1))
  {
    hide AddSize, ToSize;
    var at: int := if outOffs + k < CAPACITY then k else k - CAPACITY;
    SizeSum(at, 1);
    SizeSum(outOffs, at + 1);
    SizeOf(at + 1);
    SizeOf(-1 * outOffs);
  }

  lemma SumNone(sizes: seq<nat>)
    ensures Sum(sizes[..0]) == 0
  {
  }

  lemma PlaceHere(sizes: seq<nat>, pos: nat, k: nat, offset: nat)
    requires k < |sizes| && offset < sizes[k] && pos == Sum(sizes[..k]) + offset
    ensures Locate(sizes, pos) == Some(Place(k, offset))
    ensures pos < Sum(sizes)
  {
    LocateComplete(sizes, pos, Place(k, offset));
    AtBelowTotal(sizes, pos, Place(k, offset));
  }

  /** struct aesd_circular_buffer */
  class CircularBuffer {
    const entry: array<Entry>

    var inOffs: nat
    var outOffs: nat
    var full: bool

    ghost predicate Valid()
      reads this, entry
    {
      && entry.Length == CAPACITY
      && inOffs < CAPACITY
      && (full ==> outOffs == inOffs)
      && (!full ==> outOffs == 0)
      && (forall i :: 0 <= i < CAPACITY ==> (entry[i].buffptr.At? <==> full || i < inOffs))
      && (forall i :: 0 <= i < CAPACITY && entry[i].buffptr.Null? ==> entry[i].size == 0)
    }

    /** The entries from oldest to newest. */
    ghost function Entries(): (es: seq<Entry>)
      requires Valid()
      reads this, entry
      ensures |es| == if full then CAPACITY else inOffs
      ensures forall k :: 0 <= k < |es| ==> es[k].buffptr.At?
    {
      if full then entry[outOffs..] + entry[..outOffs] else entry[..inOffs]
    }

    /** aesd_circular_buffer_init: everything zeroed. */
    constructor ()
      ensures Valid()
      ensures Entries() == []
      ensures fresh(entry)
    {
      entry := new Entry[CAPACITY](i => ZEROED);
      inOffs, outOffs, full := 0, 0, false;
    }

    /** aesd_circular_buffer_add_entry */
    method AddEntry(e: Entry)
      requires Valid()
      requires e.buffptr.At?
      modifies this, entry
      ensures Valid()
      ensures Entries() == Push(old(Entries()), e)
    {
      ghost var slots := entry[..];
      assert entry[..inOffs] == slots[..inOffs] && entry[outOffs..] == slots[outOffs..] && entry[..outOffs] == slots[..outOffs];
      entry[inOffs] := e;
      assert entry[..] == slots[inOffs := e];
      if full {
        PushFull(slots, inOffs, e);
      } else {
        PushOpen(slots, inOffs, e);
      }
      inOffs := inOffs + 1;
      if inOffs >= CAPACITY {
        full := true;
        inOffs := 0;
      }
      if full {
        outOffs := inOffs;
      }
      hide Push;
      assert Entries() == if full then entry[..][outOffs..] + entry[..][..outOffs] else entry[..][..inOffs];
    }

    /** A slot whose pointer is NULL is the first one after the newest entry. */
    lemma EmptySlot(k: nat)
      requires Valid()
      requires k < CAPACITY && k <= |Entries()|
      requires entry[SlotAt(outOffs, k)].buffptr == Null
      ensures k == |Entries()|
    {
    }

    lemma UsedSlot(k: nat)
      requires Valid()
      requires k < CAPACITY && k <= |Entries()|
      requires entry[SlotAt(outOffs, k)].buffptr != Null
      ensures k < |Entries()|
      ensures Entries()[k] == entry[SlotAt(outOffs, k)]
    {
    }

    /** The walk that has come round to its first slot has seen a full ring. */
    lemma FullWalk(k: nat)
      requires Valid()
      requires k + 1 == CAPACITY && k < |Entries()|
      ensures |Entries()| == CAPACITY
    {
    }

    /**
     aesd_circular_buffer_find_entry_offset_for_fpos. The slot index is
     `outOffs + current` in size_t arithmetic, where `current` passes through
     the huge value of `-1 * outOffs` once the walk wraps past the last slot.
     `steps` counts the iterations.
     */
    method Find(charOffset: SizeT) returns (found: Option<Found>, ghost steps: nat)
      requires Valid()
      ensures steps <= CAPACITY
      ensures found.Some? <==> charOffset < Sum(EntrySizes(Entries()))
      ensures found.Some? ==>
                var p := Locate(EntrySizes(Entries()), charOffset);
                && p.Some?
                && found.value == Found(SlotAt(outOffs, p.value.index), p.value.offset)
                && found.value.slot < CAPACITY
                && entry[found.value.slot] == Entries()[p.value.index]
    {
      hide Sum, Locate, AddSize, ToSize, Cursor, SlotAt, IsAt;
      ghost var sizes := EntrySizes(Entries());
      var remaining: SizeT := charOffset;
      var current: SizeT := 0;
      steps := 0;
      CursorStart(outOffs);
      SumNone(sizes);
      while true
        invariant steps < CAPACITY && steps <= |sizes|
        invariant current == Cursor(outOffs, steps)
        invariant remaining + Sum(sizes[..steps]) == charOffset
        decreases CAPACITY - steps
      {
        ghost var k := steps;
        steps := steps + 1;
        CursorNames(outOffs, k);
        if entry[AddSize(outOffs, current)].buffptr == Null {
          EmptySlot(k);
          assert sizes[..k] == sizes;
          return None, steps;
        }
        UsedSlot(k);
        SumStep(sizes, k);
        if remaining >= entry[AddSize(outOffs, current)].size {
          remaining := remaining - entry[AddSize(outOffs, current)].size;
          CursorAdvances(outOffs, k);
          current := AddSize(current, 1);
          if AddSize(outOffs, current) >= CAPACITY {
            current := ToSize(-1 * outOffs);
          }
          if current == 0 {
            FullWalk(k);
            assert sizes[..steps] == sizes;
            return None, steps;
          }
        } else {
          PlaceHere(sizes, charOffset, k, remaining);
          return Some(Found(AddSize(outOffs, current), remaining)), steps;
        }
      }
    }

    /** The k-th oldest entry is in slot (outOffs + k) mod 10. */
    lemma EntryInSlot(k: nat)
      requires Valid()
      requires k < |Entries()|
      ensures SlotAt(outOffs, k) < CAPACITY
      ensures Entries()[k] == entry[SlotAt(outOffs, k)]
    {
    }

    /** Every slot in use holds one of the entries. */
    lemma SlotHasEntry(i: nat) returns (k: nat)
      requires Valid() && i < CAPACITY
      requires entry[i].buffptr.At?
      ensures k < |Entries()| && Entries()[k] == entry[i] && SlotAt(outOffs, k) == i
    {
      k := if i < outOffs then i + CAPACITY - outOffs else i - outOffs;
      SlotIs(outOffs, i, k);
      hide SlotAt;
      if full && i < outOffs {
        assert Entries()[k] == entry[..outOffs][i];
      }
    }

    /** The SEEK_END branch of aesd_llseek: count the entries, then add up all their sizes. */
    method TotalSize() returns (bufferSize: nat)
      requires Valid()
      ensures bufferSize == Sum(EntrySizes(Entries()))
    {
      hide Sum, SlotAt;
      ghost var sizes := EntrySizes(Entries());
      var numEntries: int := 0;
      if full {
        numEntries := CAPACITY;
      } else {
        numEntries := inOffs - outOffs;
        if numEntries < 0 {
          numEntries := numEntries + CAPACITY;
        }
      }
      bufferSize := 0;
      var index := outOffs;
      SumNone(sizes);
      SlotStart(outOffs);
      for i := 0 to numEntries
        invariant bufferSize == Sum(sizes[..i])
        invariant index == SlotAt(outOffs, i)
      {
        SumStep(sizes, i);
        EntryInSlot(i);
        SlotAdvances(outOffs, i);
        bufferSize := bufferSize + entry[index].size;
        index := index + 1;
        if index >= CAPACITY {
          index := 0;
        }
      }
      assert sizes[..numEntries] == sizes;
    }

    /** The AESDCHAR_IOCSEEKTO branch of aesd_unlocked_ioctl: None is -EINVAL. */
    method CommandPosition(writeCmd: nat, writeCmdOffset: nat) returns (pos: Option<nat>)
      requires Valid()
      ensures pos.Some? <==> writeCmd < |Entries()| && writeCmdOffset < Entries()[writeCmd].size
      ensures pos.Some? ==> pos.value == Sum(EntrySizes(Entries())[..writeCmd]) + writeCmdOffset
    {
      hide Sum, SlotAt;
      ghost var sizes := EntrySizes(Entries());
      var numEntries: int := 0;
      if full {
        numEntries := CAPACITY;
      } else {
        numEntries := inOffs - outOffs;
        if numEntries < 0 {
          numEntries := numEntries + CAPACITY;
        }
      }
      if writeCmd >= numEntries {
        return None;
      }
      var newpos := 0;
      var index := outOffs;
      SumNone(sizes);
      SlotStart(outOffs);
      for i := 0 to writeCmd
        invariant newpos == Sum(sizes[..i])
        invariant index == SlotAt(outOffs, i)
      {
        SumStep(sizes, i);
        EntryInSlot(i);
        SlotAdvances(outOffs, i);
        newpos := newpos + entry[index].size;
        index := index + 1;
        if index >= CAPACITY {
          index := 0;
        }
      }
      EntryInSlot(writeCmd);
      if entry[index].size <= writeCmdOffset {
        return None;
      }
      return Some(newpos + writeCmdOffset);
    }
  }

  /**
   The seek ioctl followed by the lookup of a read: every accepted pair is found again in slot
   (outOffs + writeCmd) mod 10 at the same offset.
   */
  method SeekThenFind(ring: CircularBuffer, writeCmd: nat, writeCmdOffset: nat) returns (found: Option<Found>)
    requires ring.Valid()
    requires Sum(EntrySizes(ring.Entries())) <= SIZE_MODULUS
    ensures found.Some? <==> writeCmd < |ring.Entries()| && writeCmdOffset < ring.Entries()[writeCmd].size
    ensures found.Some? ==> found.value == Found(SlotAt(ring.outOffs, writeCmd), writeCmdOffset)
  {
    hide Sum, Locate, SlotAt;
    var pos := ring.CommandPosition(writeCmd, writeCmdOffset);
    if pos.None? {
      return None;
    }
    PlaceHere(EntrySizes(ring.Entries()), pos.value, writeCmd, writeCmdOffset);
    ghost var steps;
    found, steps := ring.Find(pos.value);
  }
}
