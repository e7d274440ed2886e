/**
 The simple meaning of the ring: a sequence of commands, read as one flat file.
 Everything here is independent of slots, offsets and wrap-around; the loops of
 the driver are proved against it.
 */
module Commands {
  import opened Bytes

  type Command = seq<byte>

  /** AESDCHAR_MAX_WRITE_OPERATIONS_SUPPORTED */
  const CAPACITY: nat := 10

  /** Adding to the ring: of ten entries the oldest makes room. */
  function Push<T>(s: seq<T>, x: T): seq<T> {
    (if |s| < CAPACITY then s else s[|s| - CAPACITY + 1..]) + [x]
  }

  /** The newest ten, or all of them if there are fewer. */
  function Newest<T>(s: seq<T>): seq<T> {
    if |s| <= CAPACITY then s else s[|s| - CAPACITY..]
  }

  /** A byte of the ring: which command, and which byte of it. */
  datatype Place = Place(index: nat, offset: nat)

  function Sum(sizes: seq<nat>): nat {
    if sizes == [] then 0 else Sum(sizes[..|sizes| - 1]) + sizes[|sizes| - 1]
  }

  function Content(cmds: seq<Command>): seq<byte> {
    if cmds == [] then [] else Content(cmds[..|cmds| - 1]) + cmds[|cmds| - 1]
  }

  /** The flat file from `pos` on. */
  function From(cmds: seq<Command>, pos: nat): seq<byte> {
    if pos <= |Content(cmds)| then Content(cmds)[pos..] else []
  }

  function Sizes(cmds: seq<Command>): (r: seq<nat>)
    ensures |r| == |cmds|
    ensures forall i :: 0 <= i < |r| ==> r[i] == |cmds[i]|
  {
    seq(|cmds|, i requires 0 <= i < |cmds| => |cmds[i]|)
  }

  /** Flat position `pos` is byte `p.offset` of command `p.index`. */
  ghost predicate IsAt(sizes: seq<nat>, pos: nat, p: Place) {
    && p.index < |sizes|
    && p.offset < sizes[p.index]
    && pos == Sum(sizes[..p.index]) + p.offset
  }

  /** Flat lookup by walking from the oldest command. */
  function Locate(sizes: seq<nat>, pos: nat): (r: Option<Place>)
    ensures r.Some? ==> r.value.index < |sizes| && r.value.offset < sizes[r.value.index]
  {
    if sizes == [] then None
    else if pos < sizes[0] then Some(Place(0, pos))
    else
      match Locate(sizes[1..], pos - sizes[0])
      case None => None
      case Some(p) => Some(Place(p.index + 1, p.offset))
  }

  /** What one read of at most `count` bytes at `pos` delivers: it stops at the end of the command. */
  function ReadAt(cmds: seq<Command>, pos: nat, count: nat): seq<byte> {
    match Locate(Sizes(cmds), pos)
    case None => []
    case Some(p) =>
      var c := cmds[p.index];
      c[p.offset..p.offset + Min(|c| - p.offset, count)]
  }

  /** The flat position of a byte named by command and offset, when there is such a byte. */
  function SeekPosition(cmds: seq<Command>, index: nat, offset: nat): Option<nat> {
    if index < |cmds| && offset < |cmds[index]|
    then Some(Sum(Sizes(cmds)[..index]) + offset)
    else None
  }

  // ----- sums and concatenations

  lemma {:induction false} SumConcat(a: seq<nat>, b: seq<nat>)
    ensures Sum(a + b) == Sum(a) + Sum(b)
  {
    if b == [] {
      assert a + b == a;
    } else {
      SumConcat(a, b[..|b| - 1]);
      assert (a + b)[..|a + b| - 1] == a + b[..|b| - 1];
    }
  }

  lemma SumStep(sizes: seq<nat>, k: nat)
    requires k < |sizes|
    ensures Sum(sizes[..k + 1]) == Sum(sizes[..k]) + sizes[k]
  {
    assert sizes[..k + 1][..k] == sizes[..k];
  }

  lemma {:induction false} SumMonotone(sizes: seq<nat>, i: nat, j: nat)
    requires i <= j <= |sizes|
    ensures Sum(sizes[..i]) <= Sum(sizes[..j])
  {
    SumConcat(sizes[..i], sizes[i..j]);
    assert sizes[..i] + sizes[i..j] == sizes[..j];
  }

  lemma {:induction false} ContentConcat(a: seq<Command>, b: seq<Command>)
    ensures Content(a + b) == Content(a) + Content(b)
  {
    if b == [] {
      assert a + b == a;
    } else {
      ContentConcat(a, b[..|b| - 1]);
      assert (a + b)[..|a + b| - 1] == a + b[..|b| - 1];
    }
  }

  lemma ContentNone()
    ensures Content([]) == []
  {
  }

  lemma ContentOne(c: Command)
    ensures Content([c]) == c
  {
    assert [c][..0] == [];
  }

  lemma {:induction false} ContentLength(cmds: seq<Command>)
    ensures |Content(cmds)| == Sum(Sizes(cmds))
  {
    if cmds != [] {
      var front := cmds[..|cmds| - 1];
      ContentLength(front);
      assert Sizes(cmds)[..|cmds| - 1] == Sizes(front);
    }
  }

  // ----- lookup

  /** A flat position names at most one byte. */
  lemma AtUnique(sizes: seq<nat>, pos: nat, p: Place, q: Place)
    requires IsAt(sizes, pos, p) && IsAt(sizes, pos, q)
    ensures p == q
  {
    if p.index < q.index {
      SumStep(sizes, p.index);
      SumMonotone(sizes, p.index + 1, q.index);
    } else if q.index < p.index {
      SumStep(sizes, q.index);
      SumMonotone(sizes, q.index + 1, p.index);
    }
  }

  lemma AtBelowTotal(sizes: seq<nat>, pos: nat, p: Place)
    requires IsAt(sizes, pos, p)
    ensures pos < Sum(sizes)
  {
    SumStep(sizes, p.index);
    SumMonotone(sizes, p.index + 1, |sizes|);
    assert sizes[..|sizes|] == sizes;
  }

  /** Lookup succeeds exactly below the total size, and then finds the byte at that position. */
  lemma {:induction false} LocateCorrect(sizes: seq<nat>, pos: nat)
    ensures Locate(sizes, pos).Some? <==> pos < Sum(sizes)
    ensures Locate(sizes, pos).Some? ==> IsAt(sizes, pos, Locate(sizes, pos).value)
  {
    if sizes != [] {
      SumConcat(sizes[..1], sizes[1..]);
      assert sizes[..1] + sizes[1..] == sizes;
      SumStep(sizes, 0);
      if pos < sizes[0] {
        assert sizes[..0] == [];
      } else {
        LocateCorrect(sizes[1..], pos - sizes[0]);
        var r := Locate(sizes[1..], pos - sizes[0]);
        if r.Some? {
          var k := r.value.index;
          assert sizes[..k + 1] == sizes[..1] + sizes[1..][..k];
          SumConcat(sizes[..1], sizes[1..][..k]);
        }
      }
    }
  }

  lemma LocateComplete(sizes: seq<nat>, pos: nat, p: Place)
    requires IsAt(sizes, pos, p)
    ensures Locate(sizes, pos) == Some(p)
  {
    AtBelowTotal(sizes, pos, p);
    LocateCorrect(sizes, pos);
    AtUnique(sizes, pos, p, Locate(sizes, pos).value);
  }

  lemma SliceOfMiddle(a: seq<byte>, b: seq<byte>, c: seq<byte>, o: nat, n: nat)
    requires o + n <= |b|
    ensures (a + b + c)[|a| + o..|a| + o + n] == b[o..o + n]
  {
  }

  lemma ContentAround(cmds: seq<Command>, k: nat)
    requires k < |cmds|
    ensures Content(cmds) == Content(cmds[..k]) + cmds[k] + Content(cmds[k + 1..])
    ensures |Content(cmds[..k])| == Sum(Sizes(cmds)[..k])
  {
    assert cmds[..k + 1][..k] == cmds[..k];
    assert cmds == cmds[..k + 1] + cmds[k + 1..];
    assert Content(cmds[..k + 1]) == Content(cmds[..k]) + cmds[k];
    ContentConcat(cmds[..k + 1], cmds[k + 1..]);
    ContentLength(cmds[..k]);
    assert Sizes(cmds[..k]) == Sizes(cmds)[..k];
  }

  /** A run of bytes inside one command is the same run of the flat file. */
  lemma SliceWithinCommand(cmds: seq<Command>, pos: nat, p: Place, n: nat)
    requires IsAt(Sizes(cmds), pos, p)
    requires p.offset + n <= |cmds[p.index]|
    ensures pos + n <= |Content(cmds)|
    ensures Content(cmds)[pos..pos + n] == cmds[p.index][p.offset..p.offset + n]
  {
    hide Content, Sum;
    var k := p.index;
    ContentAround(cmds, k);
    SliceOfMiddle(Content(cmds[..k]), cmds[k], Content(cmds[k + 1..]), p.offset, n);
  }

  /** One read is a slice of the flat file starting at `pos`, empty only at the end or for no room. */
  lemma ReadIsSlice(cmds: seq<Command>, pos: nat, count: nat)
    ensures ReadAt(cmds, pos, count) == [] <==> pos >= |Content(cmds)| || count == 0
    ensures |ReadAt(cmds, pos, count)| <= count
    ensures pos < |Content(cmds)| ==>
              && pos + |ReadAt(cmds, pos, count)| <= |Content(cmds)|
              && ReadAt(cmds, pos, count) == Content(cmds)[pos..pos + |ReadAt(cmds, pos, count)|]
  {
    hide Content, Sum, Locate;
    ContentLength(cmds);
    LocateCorrect(Sizes(cmds), pos);
    var r := Locate(Sizes(cmds), pos);
    if r.Some? {
      SliceWithinCommand(cmds, pos, r.value, |ReadAt(cmds, pos, count)|);
    }
  }

  // ----- command seek and lookup are mutually inverse

  /** Every accepted pair is found again at the position it names, at the byte it names. */
  lemma SeekThenLocate(cmds: seq<Command>, index: nat, offset: nat)
    requires SeekPosition(cmds, index, offset).Some?
    ensures var pos := SeekPosition(cmds, index, offset).value;
            && pos < |Content(cmds)|
            && Locate(Sizes(cmds), pos) == Some(Place(index, offset))
            && Content(cmds)[pos] == cmds[index][offset]
  {
    var pos := SeekPosition(cmds, index, offset).value;
    var p := Place(index, offset);
    LocateComplete(Sizes(cmds), pos, p);
    SliceWithinCommand(cmds, pos, p, 1);
    assert Content(cmds)[pos..pos + 1][0] == cmds[index][offset..offset + 1][0];
  }

  /** Every position below the total size is named by exactly one accepted pair. */
  lemma LocateThenSeek(cmds: seq<Command>, pos: nat, index: nat, offset: nat)
    requires pos < |Content(cmds)|
    ensures var p := Locate(Sizes(cmds), pos);
            && p.Some?
            && SeekPosition(cmds, p.value.index, p.value.offset) == Some(pos)
            && (SeekPosition(cmds, index, offset) == Some(pos) <==> p.value == Place(index, offset))
  {
    ContentLength(cmds);
    LocateCorrect(Sizes(cmds), pos);
    if SeekPosition(cmds, index, offset) == Some(pos) {
      SeekThenLocate(cmds, index, offset);
    }
  }

  // ----- draining

  /** The non-empty reads made by reading `count` bytes at a time until nothing is left. */
  function Drain(cmds: seq<Command>, pos: nat, count: nat): seq<seq<byte>>
    requires count > 0
    decreases |Content(cmds)| - pos
  {
    ReadIsSlice(cmds, pos, count);
    var d := ReadAt(cmds, pos, count);
    if d == [] then [] else [d] + Drain(cmds, pos + |d|, count)
  }

  /** Draining delivers exactly the rest of the file. */
  lemma {:induction false} DrainDeliversRest(cmds: seq<Command>, pos: nat, count: nat)
    requires count > 0
    ensures Content(Drain(cmds, pos, count)) == if pos <= |Content(cmds)| then Content(cmds)[pos..] else []
    decreases |Content(cmds)| - pos
  {
    hide ReadAt, Content;
    ReadIsSlice(cmds, pos, count);
    ContentNone();
    var d := ReadAt(cmds, pos, count);
    if d != [] {
      var rest := Drain(cmds, pos + |d|, count);
      DrainDeliversRest(cmds, pos + |d|, count);
      ContentConcat([d], rest);
      ContentOne(d);
      assert Content(cmds)[pos..] == Content(cmds)[pos..pos + |d|] + Content(cmds)[pos + |d|..];
    }
  }

  ghost predicate InsideAt(cmds: seq<Command>, piece: seq<byte>, k: int, o: int) {
    && 0 <= k < |cmds|
    && 0 <= o <= o + |piece| <= |cmds[k]|
    && piece == cmds[k][o..o + |piece|]
  }

  /** `piece` is a contiguous run of bytes of one command. */
  ghost predicate InsideOneCommand(cmds: seq<Command>, piece: seq<byte>) {
    exists k, o :: InsideAt(cmds, piece, k, o)
  }

  lemma ReadInsideOneCommand(cmds: seq<Command>, pos: nat, count: nat)
    requires ReadAt(cmds, pos, count) != []
    ensures InsideOneCommand(cmds, ReadAt(cmds, pos, count))
  {
    var p := Locate(Sizes(cmds), pos).value;
    assert InsideAt(cmds, ReadAt(cmds, pos, count), p.index, p.offset);
  }

  /** No read crosses a command boundary. */
  lemma {:induction false} DrainRespectsCommands(cmds: seq<Command>, pos: nat, count: nat, i: nat)
    requires count > 0
    requires i < |Drain(cmds, pos, count)|
    ensures var d := Drain(cmds, pos, count)[i];
            0 < |d| <= count && InsideOneCommand(cmds, d)
    decreases i
  {
    hide ReadAt, Content, InsideOneCommand;
    ReadIsSlice(cmds, pos, count);
    var d := ReadAt(cmds, pos, count);
    if i == 0 {
      ReadInsideOneCommand(cmds, pos, count);
    } else {
      DrainRespectsCommands(cmds, pos + |d|, count, i - 1);
    }
  }

  /** Reads of at most `count` bytes that it takes to deliver `n` bytes. */
  function ReadsFor(n: nat, count: nat): nat
    requires count > 0
  {
    if n == 0 then 0 else if n <= count then 1 else 1 + ReadsFor(n - count, count)
  }

  /** That number is n / count rounded up. */
  lemma {:induction false} ReadsForIsCeiling(n: nat, count: nat)
    requires count > 0
    ensures (ReadsFor(n, count) - 1) * count < n <= ReadsFor(n, count) * count || n == ReadsFor(n, count) == 0
  {
    if n > count {
      ReadsForIsCeiling(n - count, count);
      var r := ReadsFor(n - count, count);
      assert (1 + r) * count == count + r * count;
      assert (r - 1) * count == r * count - count;
    }
  }

  /** Reads that it takes to deliver all of the commands from `k` on, command by command. */
  function ReadsFrom(cmds: seq<Command>, k: nat, count: nat): nat
    requires count > 0
    requires k <= |cmds|
    decreases |cmds| - k
  {
    if k == |cmds| then 0 else ReadsFor(|cmds[k]|, count) + ReadsFrom(cmds, k + 1, count)
  }

  lemma DrainUnfold(cmds: seq<Command>, pos: nat, count: nat)
    requires count > 0
    requires ReadAt(cmds, pos, count) != []
    ensures Drain(cmds, pos, count)
         == [ReadAt(cmds, pos, count)] + Drain(cmds, pos + |ReadAt(cmds, pos, count)|, count)
  {
  }

  /** The first read of a drain from byte `p` takes the rest of that command, or `count` bytes of it. */
  lemma FirstRead(cmds: seq<Command>, pos: nat, p: Place, count: nat)
    requires count > 0
    requires IsAt(Sizes(cmds), pos, p)
    ensures |ReadAt(cmds, pos, count)| == Min(|cmds[p.index]| - p.offset, count) > 0
    ensures pos < |Content(cmds)|
  {
    LocateComplete(Sizes(cmds), pos, p);
    AtBelowTotal(Sizes(cmds), pos, p);
    ContentLength(cmds);
  }

  lemma DrainAtEnd(cmds: seq<Command>, count: nat)
    requires count > 0
    ensures Drain(cmds, Sum(Sizes(cmds)), count) == []
  {
    ContentLength(cmds);
    ReadIsSlice(cmds, Sum(Sizes(cmds)), count);
  }

  /** The byte after the last of a command is the first of the next one, or the end. */
  lemma NextCommand(cmds: seq<Command>, pos: nat, p: Place)
    requires forall i :: 0 <= i < |cmds| ==> cmds[i] != []
    requires IsAt(Sizes(cmds), pos, p)
    ensures var next := pos + |cmds[p.index]| - p.offset;
            if p.index + 1 < |cmds| then IsAt(Sizes(cmds), next, Place(p.index + 1, 0))
            else next == Sum(Sizes(cmds))
  {
    SumStep(Sizes(cmds), p.index);
    if p.index + 1 == |cmds| {
      assert Sizes(cmds)[..p.index + 1] == Sizes(cmds);
    }
  }

  /** The exact number of non-empty reads that a drain from byte `p` makes. */
  lemma {:induction false} DrainReadCount(cmds: seq<Command>, pos: nat, p: Place, count: nat)
    requires count > 0
    requires forall i :: 0 <= i < |cmds| ==> cmds[i] != []
    requires IsAt(Sizes(cmds), pos, p)
    ensures |Drain(cmds, pos, count)|
         == ReadsFor(|cmds[p.index]| - p.offset, count) + ReadsFrom(cmds, p.index + 1, count)
    decreases |Content(cmds)| - pos
  {
    hide Drain, Sum, Content, ReadAt;
    var k, left := p.index, |cmds[p.index]| - p.offset;
    FirstRead(cmds, pos, p, count);
    DrainUnfold(cmds, pos, count);
    if left > count {
      DrainReadCount(cmds, pos + count, Place(k, p.offset + count), count);
    } else {
      NextCommand(cmds, pos, p);
      if k + 1 < |cmds| {
        DrainReadCount(cmds, pos + left, Place(k + 1, 0), count);
      } else {
        DrainAtEnd(cmds, count);
      }
    }
  }
}
