/**
 Recognising a seek request in received text (check_for_ioctl_command in
 server/connection_thread.c), with the C string functions it is made of.
 */
module SeekCommands {
  import opened Bytes

  const COLON: byte := 58
  const COMMA: byte := 44
  const PLUS: byte := 43
  const MINUS: byte := 45
  const ZERO: byte := 48

  /** Size of the buffers that the number fields are copied to. */
  const FIELD_BUFFER: nat := 10

  const UINT32_MODULUS: int := 0x1_0000_0000

  /** struct aesd_seekto: two uint32_t fields. */
  datatype SeekTo = SeekTo(writeCmd: nat, writeCmdOffset: nat)

  predicate IsSpace(b: byte) {
    b == 32 || 9 <= b <= 13
  }

  predicate IsDigit(b: byte) {
    ZERO <= b <= ZERO + 9
  }

  // ----- meaning of the C functions

  /** The string that starts at `from` ends before `to`. */
  predicate NulBetween(s: seq<byte>, from: nat, to: nat)
    requires to <= |s|
  {
    exists k :: from <= k < to && s[k] == NUL
  }

  /** strchr from index `from`: the first `c` before any NUL. */
  function FirstIndex(s: seq<byte>, from: nat, c: byte): (r: Option<nat>)
    requires c != NUL
    ensures r.Some? ==>
              && from <= r.value < |s|
              && s[r.value] == c
              && forall j :: from <= j < r.value ==> s[j] != c && s[j] != NUL
    ensures r.None? ==> forall j :: from <= j < |s| && s[j] == c ==> NulBetween(s, from, j)
    decreases |s| - from
  {
    if from >= |s| || s[from] == NUL then None
    else if s[from] == c then Some(from)
    else FirstIndex(s, from + 1, c)
  }

  function SkipSpaces(s: seq<byte>): (t: seq<byte>)
    ensures |t| <= |s|
  {
    if s != [] && IsSpace(s[0]) then SkipSpaces(s[1..]) else s
  }

  /** The number that the leading digits of `s` append to `acc`. */
  function Digits(s: seq<byte>, acc: nat): nat {
    if s == [] || !IsDigit(s[0]) then acc else Digits(s[1..], 10 * acc + (s[0] - ZERO) as nat)
  }

  /** atoi of a string without NUL. */
  function Atoi(s: seq<byte>): int {
    var t := SkipSpaces(s);
    if t != [] && t[0] == MINUS then 0 - Digits(t[1..], 0)
    else if t != [] && t[0] == PLUS then Digits(t[1..], 0)
    else Digits(t, 0)
  }

  /** Conversion of an int to uint32_t. */
  function ToUint32(n: int): nat {
    n % UINT32_MODULUS
  }

  // ----- meaning of the whole check

  /** The positions of ':', of the ',' after it and of the newline after that. */
  datatype Marks = Marks(colon: nat, comma: nat, newline: nat)

  function FindMarks(text: seq<byte>): (r: Option<Marks>)
    ensures r.Some? ==> r.value.colon < r.value.comma < r.value.newline < |text|
  {
    match FirstIndex(text, 0, COLON)
    case None => None
    case Some(a) =>
      match FirstIndex(text, a, COMMA)
      case None => None
      case Some(b) =>
        match FirstIndex(text, b, NEWLINE)
        case None => None
        case Some(c) => Some(Marks(a, b, c))
  }

  /** The request the text makes, if it has the three marks. */
  function ParseSeek(text: seq<byte>): Option<SeekTo> {
    match FindMarks(text)
    case None => None
    case Some(m) =>
      Some(SeekTo(ToUint32(Atoi(text[m.colon + 1..m.comma])), ToUint32(Atoi(text[m.comma + 1..m.newline]))))
  }

  /** The number fields leave room for the terminator in their buffers. */
  predicate FieldsFit(text: seq<byte>) {
    match FindMarks(text)
    case None => true
    case Some(m) => m.comma - m.colon - 1 < FIELD_BUFFER && m.newline - m.comma - 1 < FIELD_BUFFER
  }

  /** Bytes a, b, c are ':', ',' and newline, and no NUL comes before the newline. */
  predicate ShapedAt(text: seq<byte>, a: int, b: int, c: int) {
    && 0 <= a < b < c < |text|
    && text[a] == COLON && text[b] == COMMA && text[c] == NEWLINE
    && (forall i :: 0 <= i < c ==> text[i] != NUL)
  }

  /** The text has a ':', a later ',' and a newline after that. */
  ghost predicate SeekShaped(text: seq<byte>) {
    exists a, b, c :: ShapedAt(text, a, b, c)
  }

  lemma MarksAreShaped(text: seq<byte>)
    requires FindMarks(text).Some?
    ensures SeekShaped(text)
  {
    hide Atoi;
    var m := FindMarks(text).value;
    assert ShapedAt(text, m.colon, m.comma, m.newline);
  }

  /** A byte that no NUL precedes is found, at its first occurrence. */
  lemma FirstIndexAtMost(s: seq<byte>, from: nat, c: byte, k: nat)
    requires c != NUL && from <= k < |s| && s[k] == c
    requires forall i :: from <= i < k ==> s[i] != NUL
    ensures FirstIndex(s, from, c).Some? && FirstIndex(s, from, c).value <= k
  {
    hide FirstIndex;
    var r := FirstIndex(s, from, c);
  }

  lemma ShapedHasMarks(text: seq<byte>, a: nat, b: nat, c: nat)
    requires ShapedAt(text, a, b, c)
    ensures FindMarks(text).Some?
  {
    hide Atoi;
    FirstIndexAtMost(text, 0, COLON, a);
    var a' := FirstIndex(text, 0, COLON).value;
    FirstIndexAtMost(text, a', COMMA, b);
    var b' := FirstIndex(text, a', COMMA).value;
    FirstIndexAtMost(text, b', NEWLINE, c);
  }

  /** Exactly the texts of that shape are taken for a seek request, whatever their fields hold. */
  lemma SeekExactlyWhenShaped(text: seq<byte>)
    ensures ParseSeek(text).Some? <==> SeekShaped(text)
  {
    hide FirstIndex, Atoi;
    var m := FindMarks(text);
    if m.Some? {
      MarksAreShaped(text);
    }
    if SeekShaped(text) {
      var a, b, c :| ShapedAt(text, a, b, c);
      ShapedHasMarks(text, a, b, c);
    }
  }

  // ----- the code

  /** strchr, on the text actually received. */
  method Strchr(s: seq<byte>, from: nat, c: byte) returns (r: Option<nat>)
    requires from <= |s| && c != NUL
    ensures r == FirstIndex(s, from, c)
  {
    var i := from;
    while i < |s| && s[i] != NUL
      invariant from <= i <= |s|
      invariant FirstIndex(s, i, c) == FirstIndex(s, from, c)
    {
      if s[i] == c {
        return Some(i);
      }
      i := i + 1;
    }
    return None;
  }

  /** memset to zero and strncpy of `n` characters. */
  method CopyField(s: seq<byte>, from: nat, n: nat) returns (buffer: array<byte>)
    requires from + n <= |s| && n < FIELD_BUFFER
    requires forall i :: from <= i < from + n ==> s[i] != NUL
    ensures fresh(buffer) && buffer.Length == FIELD_BUFFER
    ensures buffer[..n] == s[from..from + n]
    ensures forall i :: 0 <= i < n ==> buffer[i] == s[from + i]
    ensures forall i :: n <= i < FIELD_BUFFER ==> buffer[i] == NUL
  {
    buffer := new byte[FIELD_BUFFER](_ => NUL);
    var i := 0;
    while i < n && s[from + i] != NUL
      invariant i <= n
      invariant forall j :: 0 <= j < i ==> buffer[j] == s[from + j]
      invariant forall j :: i <= j < FIELD_BUFFER ==> buffer[j] == NUL
    {
      buffer[i] := s[from + i];
      i := i + 1;
    }
    assert i == n;
  }

  /** atoi of the string in the buffer, which ends at its first NUL. */
  method AtoiOf(buffer: array<byte>, ghost n: nat) returns (value: int)
    requires n < buffer.Length && buffer[n] == NUL
    requires forall i :: 0 <= i < n ==> buffer[i] != NUL
    ensures value == Atoi(buffer[..n])
  {
    ghost var text := buffer[..n];
    var i := 0;
    while IsSpace(buffer[i])
      invariant i <= n
      invariant SkipSpaces(text[i..]) == SkipSpaces(text)
      decreases n - i
    {
      assert text[i..][1..] == text[i + 1..];
      i := i + 1;
    }
    assert SkipSpaces(text) == text[i..];
    var negative := buffer[i] == MINUS;
    if buffer[i] == MINUS || buffer[i] == PLUS {
      assert text[i..][1..] == text[i + 1..];
      i := i + 1;
    }
    ghost var start := i;
    var acc: nat := 0;
    while IsDigit(buffer[i])
      invariant start <= i <= n
      invariant Digits(text[i..], acc) == Digits(text[start..], 0)
      decreases n - i
    {
      assert text[i..][1..] == text[i + 1..];
      acc := 10 * acc + (buffer[i] - ZERO) as nat;
      i := i + 1;
    }
    value := if negative then 0 - acc else acc;
  }

  /** check_for_ioctl_command: None is the return value -1. */
  method CheckForIoctlCommand(text: seq<byte>) returns (r: Option<SeekTo>)
    requires FieldsFit(text)
    ensures r == ParseSeek(text)
  {
    hide FirstIndex, Atoi, ToUint32;
    var colon := Strchr(text, 0, COLON);
    if colon.None? {
      return None;
    }
    var comma := Strchr(text, colon.value, COMMA);
    if comma.None? {
      return None;
    }
    var newline := Strchr(text, comma.value, NEWLINE);
    if newline.None? {
      return None;
    }
    var size := comma.value - colon.value - 1;
    var first := CopyField(text, colon.value + 1, size);
    var writeCmd := AtoiOf(first, size);
    size := newline.value - comma.value - 1;
    var second := CopyField(text, comma.value + 1, size);
    var writeCmdOffset := AtoiOf(second, size);
    return Some(SeekTo(ToUint32(writeCmd), ToUint32(writeCmdOffset)));
  }

  // ----- round trip

  function Pow10(k: nat): (p: nat)
    ensures p > 0
  {
    if k == 0 then 1 else 10 * Pow10(k - 1)
  }

  /** Decimal notation without leading zeros. */
  function Decimal(n: nat): seq<byte> {
    if n < 10 then [ZERO + n as byte] else Decimal(n / 10) + [ZERO + (n % 10) as byte]
  }

  /** The text of a seek request. */
  function SeekText(prefix: seq<byte>, cmd: nat, off: nat): seq<byte> {
    prefix + [COLON] + Decimal(cmd) + [COMMA] + Decimal(off) + [NEWLINE]
  }

  lemma {:induction false} DigitsConcat(a: seq<byte>, b: seq<byte>, acc: nat)
    requires forall i :: 0 <= i < |a| ==> IsDigit(a[i])
    ensures Digits(a + b, acc) == Digits(b, Digits(a, acc))
  {
    if a == [] {
      assert a + b == b;
    } else {
      DigitsConcat(a[1..], b, 10 * acc + (a[0] - ZERO) as nat);
      assert (a + b)[1..] == a[1..] + b;
    }
  }

  /** Reading decimal notation gives the number back; it is not empty and has digits only. */
  lemma {:induction false} DecimalRoundTrip(n: nat)
    ensures Decimal(n) != []
    ensures forall i :: 0 <= i < |Decimal(n)| ==> IsDigit(Decimal(n)[i])
    ensures Digits(Decimal(n), 0) == n
  {
    if n >= 10 {
      DecimalRoundTrip(n / 10);
      DigitsConcat(Decimal(n / 10), [ZERO + (n % 10) as byte], 0);
    }
  }

  /** A number below 10^k has at most k digits. */
  lemma {:induction false} DecimalLength(n: nat, k: nat)
    requires 0 < k && n < Pow10(k)
    ensures |Decimal(n)| <= k
  {
    if n >= 10 {
      DecimalLength(n / 10, k - 1);
    }
  }

  lemma AtoiDecimal(n: nat)
    ensures Atoi(Decimal(n)) == n
  {
    DecimalRoundTrip(n);
    assert IsDigit(Decimal(n)[0]);
  }

  lemma {:induction false} FirstIndexIs(s: seq<byte>, from: nat, c: byte, k: nat)
    requires c != NUL
    requires from <= k < |s| && s[k] == c
    requires forall j :: from <= j < k ==> s[j] != c && s[j] != NUL
    ensures FirstIndex(s, from, c) == Some(k)
    decreases k - from
  {
    if from < k {
      FirstIndexIs(s, from + 1, c, k);
    }
  }

  lemma SeekTextBytes(prefix: seq<byte>, cmd: nat, off: nat, i: nat)
    requires i < |SeekText(prefix, cmd, off)|
    ensures var text := SeekText(prefix, cmd, off);
            var comma := |prefix| + 1 + |Decimal(cmd)|;
            var newline := comma + 1 + |Decimal(off)|;
            && |text| == newline + 1
            && text[i] ==
               if i < |prefix| then prefix[i] else if i == |prefix| then COLON
               else if i < comma then Decimal(cmd)[i - |prefix| - 1] else if i == comma then COMMA
               else if i < newline then Decimal(off)[i - comma - 1] else NEWLINE
  {
    hide Decimal;
  }

  lemma SeekTextNonempty(prefix: seq<byte>, cmd: nat, off: nat)
    ensures |SeekText(prefix, cmd, off)| > 0
  {
  }

  /** Where the marks of a seek request are. */
  lemma SeekTextMarks(prefix: seq<byte>, cmd: nat, off: nat)
    requires forall i :: 0 <= i < |prefix| ==> prefix[i] != COLON && prefix[i] != NUL
    ensures var text := SeekText(prefix, cmd, off);
            var comma := |prefix| + 1 + |Decimal(cmd)|;
            var newline := comma + 1 + |Decimal(off)|;
            && FindMarks(text) == Some(Marks(|prefix|, comma, newline))
            && text[|prefix| + 1..comma] == Decimal(cmd)
            && text[comma + 1..newline] == Decimal(off)
  {
    hide FirstIndex, Decimal, SeekText, Digits;
    DecimalRoundTrip(cmd);
    DecimalRoundTrip(off);
    var text := SeekText(prefix, cmd, off);
    var comma := |prefix| + 1 + |Decimal(cmd)|;
    var newline := comma + 1 + |Decimal(off)|;
    SeekTextNonempty(prefix, cmd, off);
    forall i | 0 <= i < |text| { SeekTextBytes(prefix, cmd, off, i); }
    SeekTextBytes(prefix, cmd, off, 0);
    FirstIndexIs(text, 0, COLON, |prefix|);
    FirstIndexIs(text, |prefix|, COMMA, comma);
    FirstIndexIs(text, comma, NEWLINE, newline);
  }

  lemma NineDigits()
    ensures Pow10(9) == 1_000_000_000
  {
    assert Pow10(3) == 1000;
    assert Pow10(6) == 1000000;
  }

  /** Any two numbers of up to nine digits survive the trip through a seek request, whatever the prefix. */
  lemma SeekRoundTrip(prefix: seq<byte>, cmd: nat, off: nat)
    requires forall i :: 0 <= i < |prefix| ==> prefix[i] != COLON && prefix[i] != NUL
    requires cmd < 1_000_000_000 && off < 1_000_000_000
    ensures FieldsFit(SeekText(prefix, cmd, off))
    ensures ParseSeek(SeekText(prefix, cmd, off)) == Some(SeekTo(cmd, off))
  {
    hide Decimal, FindMarks, Atoi;
    NineDigits();
    DecimalLength(cmd, 9);
    DecimalLength(off, 9);
    SeekTextMarks(prefix, cmd, off);
    AtoiDecimal(cmd);
    AtoiDecimal(off);
  }

  lemma DigitScales(acc: nat, d: nat, p: nat)
    requires d <= 9
    ensures (10 * acc + d + 1) * p <= (acc + 1) * (10 * p)
  {
    calc {
      (acc + 1) * (10 * p);
      (10 * acc + 10) * p;
      (10 * acc + d + 1) * p + (9 - d) * p;
    }
  }

  lemma PowUnfold(k: nat)
    ensures Pow10(0) == 1
    ensures k > 0 ==> Pow10(k) == 10 * Pow10(k - 1)
  {
  }

  lemma {:induction false} DigitsBound(s: seq<byte>, acc: nat)
    ensures Digits(s, acc) < (acc + 1) * Pow10(|s|)
  {
    hide Pow10;
    PowUnfold(|s|);
    if s == [] {
    } else if !IsDigit(s[0]) {
      assert (acc + 1) * Pow10(|s|) >= acc + 1;
    } else {
      var d := (s[0] - ZERO) as nat;
      DigitsBound(s[1..], 10 * acc + d);
      DigitScales(acc, d, Pow10(|s| - 1));
    }
  }

  lemma {:induction false} PowMonotone(i: nat, j: nat)
    requires i <= j
    ensures Pow10(i) <= Pow10(j)
  {
    if i < j {
      PowMonotone(i, j - 1);
    }
  }

  /** A field that fits its buffer stays far from the limits of the int that atoi computes in. */
  lemma AtoiFitsInt(s: seq<byte>)
    requires |s| < FIELD_BUFFER
    ensures -1_000_000_000 < Atoi(s) < 1_000_000_000
  {
    hide Digits, SkipSpaces;
    NineDigits();
    var t := SkipSpaces(s);
    DigitsBound(t, 0);
    PowMonotone(|t|, 9);
    if t != [] {
      DigitsBound(t[1..], 0);
      PowMonotone(|t| - 1, 9);
    }
  }
}
