/**
 What the number fields of a seek request mean, in characters: atoi as section 7.22.1.2 of
 ISO/IEC 9899:2011 describes it, and the whole check on the text of its fields.
 */
module SeekNumbers {
  import opened Bytes
  import opened Commands
  import opened SeekCommands

  // ----- characters

  predicate IsBlank(b: byte) {
    b == 32 || b == 9 || b == 10 || b == 11 || b == 12 || b == 13
  }

  predicate AllDigits(ds: seq<byte>) {
    forall i :: 0 <= i < |ds| ==> 48 <= ds[i] <= 57
  }

  predicate StartsWithDigit(s: seq<byte>) {
    s != [] && 48 <= s[0] <= 57
  }

  /** The value of digit d with k digits after it. */
  function PlaceValue(d: nat, k: nat): nat {
    d * Pow10(k)
  }

  /** What each digit contributes: its value times ten to the number of digits after it. */
  function PlaceValues(ds: seq<byte>): (r: seq<nat>)
    requires AllDigits(ds)
    ensures |r| == |ds|
    ensures forall i :: 0 <= i < |r| ==> r[i] == PlaceValue(ds[i] as int - 48, |ds| - 1 - i)
  {
    seq(|ds|, i requires 0 <= i < |ds| => PlaceValue(ds[i] as int - 48, |ds| - 1 - i))
  }

  function NumberOf(ds: seq<byte>): nat
    requires AllDigits(ds)
  {
    Sum(PlaceValues(ds))
  }

  // ----- digits

  lemma {:induction false} SumTimesTen(a: seq<nat>, b: seq<nat>)
    requires |a| == |b| && forall i :: 0 <= i < |a| ==> b[i] == 10 * a[i]
    ensures Sum(b) == 10 * Sum(a)
  {
    if a != [] {
      SumTimesTen(a[..|a| - 1], b[..|b| - 1]);
    }
  }

  lemma TensMove(d: nat, k: nat)
    ensures PlaceValue(d, k + 1) == 10 * PlaceValue(d, k)
  {
    assert Pow10(k + 1) == 10 * Pow10(k);
  }

  /** One more digit behind: ten times the number and the digit. */
  lemma NumberStep(ds: seq<byte>)
    requires AllDigits(ds) && ds != []
    ensures NumberOf(ds) == 10 * NumberOf(ds[..|ds| - 1]) + (ds[|ds| - 1] as int - 48)
  {
    var n := |ds| - 1;
    var front, all := PlaceValues(ds[..n]), PlaceValues(ds);
    forall i | 0 <= i < n
      ensures all[..n][i] == 10 * front[i]
    {
      TensMove(ds[i] as int - 48, n - 1 - i);
    }
    SumTimesTen(front, all[..n]);
    assert Pow10(0) == 1;
  }

  lemma NoDigits()
    ensures NumberOf([]) == 0
  {
  }

  /** The leading digits are read in positional notation, and reading stops at the first other character. */
  lemma {:induction false} DigitsAreNumber(ds: seq<byte>, rest: seq<byte>)
    requires AllDigits(ds) && !StartsWithDigit(rest)
    ensures Digits(ds + rest, 0) == NumberOf(ds)
    decreases |ds|
  {
    hide NumberOf;
    if ds == [] {
      assert ds + rest == rest;
      NoDigits();
    } else {
      var n := |ds| - 1;
      var front, d := ds[..n], ds[n];
      DigitsAreNumber(front, []);
      assert front + [] == front;
      NumberStep(ds);
      DigitsConcat(front, [d] + rest, 0);
      assert ds + rest == front + ([d] + rest);
      assert ([d] + rest)[1..] == rest;
    }
  }

  // ----- atoi

  lemma {:induction false} BlanksSkipped(blanks: seq<byte>, s: seq<byte>)
    requires forall i :: 0 <= i < |blanks| ==> IsBlank(blanks[i])
    ensures SkipSpaces(blanks + s) == SkipSpaces(s)
  {
    if blanks == [] {
      assert blanks + s == s;
    } else {
      assert (blanks + s)[1..] == blanks[1..] + s;
      BlanksSkipped(blanks[1..], s);
    }
  }

  /**
   Any text is blanks, a sign or none, digits and a rest: its number is that of the digits, negative after a
   minus. Without digits it is 0, whatever stands there.
   */
  lemma AtoiReads(blanks: seq<byte>, sign: seq<byte>, ds: seq<byte>, rest: seq<byte>)
    requires forall i :: 0 <= i < |blanks| ==> IsBlank(blanks[i])
    requires sign == [] || sign == [45] || sign == [43]
    requires AllDigits(ds) && !StartsWithDigit(rest)
    requires sign == [] && ds == [] && rest != [] ==> !IsBlank(rest[0]) && rest[0] != 45 && rest[0] != 43
    ensures Atoi(blanks + (sign + (ds + rest))) == if sign == [45] then 0 - NumberOf(ds) else NumberOf(ds)
  {
    hide Digits, NumberOf;
    var text := sign + (ds + rest);
    BlanksSkipped(blanks, text);
    DigitsAreNumber(ds, rest);
    if sign == [] {
      assert text == ds + rest;
    } else {
      assert text[1..] == ds + rest;
    }
    assert SkipSpaces(text) == text;
  }

  lemma {:induction false} DigitsAhead(s: seq<byte>) returns (ds: seq<byte>, rest: seq<byte>)
    ensures s == ds + rest && AllDigits(ds) && !StartsWithDigit(rest)
  {
    if StartsWithDigit(s) {
      ds, rest := DigitsAhead(s[1..]);
      ds := [s[0]] + ds;
    } else {
      ds, rest := [], s;
    }
  }

  /** Every text can be taken apart that way, so the above says what every field means. */
  lemma {:induction false} TextParts(s: seq<byte>) returns (blanks: seq<byte>, sign: seq<byte>, ds: seq<byte>, rest: seq<byte>)
    ensures s == blanks + (sign + (ds + rest))
    ensures forall i :: 0 <= i < |blanks| ==> IsBlank(blanks[i])
    ensures sign == [] || sign == [45] || sign == [43]
    ensures AllDigits(ds) && !StartsWithDigit(rest)
    ensures sign == [] && ds == [] && rest != [] ==> !IsBlank(rest[0]) && rest[0] != 45 && rest[0] != 43
  {
    if s != [] && IsBlank(s[0]) {
      blanks, sign, ds, rest := TextParts(s[1..]);
      blanks := [s[0]] + blanks;
      assert s == [s[0]] + s[1..];
    } else if s != [] && (s[0] == 45 || s[0] == 43) {
      ds, rest := DigitsAhead(s[1..]);
      blanks, sign := [], [s[0]];
      assert s == [s[0]] + s[1..];
    } else {
      ds, rest := DigitsAhead(s);
      blanks, sign := [], [];
    }
  }

  /** Decimal notation is what one writes: digits with that value, and no zero in front. */
  lemma {:induction false} DecimalIsNotation(n: nat)
    ensures AllDigits(Decimal(n)) && Decimal(n) != []
    ensures NumberOf(Decimal(n)) == n
    ensures Decimal(n)[0] == 48 ==> n == 0
  {
    hide NumberOf;
    NoDigits();
    if n < 10 {
      assert Decimal(n)[..0] == [];
    } else {
      DecimalIsNotation(n / 10);
      assert Decimal(n)[..|Decimal(n)| - 1] == Decimal(n / 10);
    }
    NumberStep(Decimal(n));
  }

  /** One hundred and twenty. */
  lemma Notation120()
    ensures Decimal(120) == [49, 50, 48] && Atoi([49, 50, 48]) == 120
  {
    hide Atoi, Digits;
    assert Decimal(1) == [49] && Decimal(12) == [49] + [50];
    assert [49] + [50] + [48] == [49, 50, 48];
    AtoiDecimal(120);
  }

  // ----- the whole check

  /** The text of a seek request with the fields `a` and `b`. */
  function FieldText(prefix: seq<byte>, a: seq<byte>, b: seq<byte>, rest: seq<byte>): seq<byte> {
    prefix + [58] + a + [44] + b + [10] + rest
  }

  lemma FieldTextBytes(prefix: seq<byte>, a: seq<byte>, b: seq<byte>, rest: seq<byte>, i: nat)
    requires i < |FieldText(prefix, a, b, rest)|
    ensures var text := FieldText(prefix, a, b, rest);
            var comma := |prefix| + 1 + |a|;
            var newline := comma + 1 + |b|;
            && |text| == newline + 1 + |rest|
            && text[i] ==
               if i < |prefix| then prefix[i] else if i == |prefix| then 58
               else if i < comma then a[i - |prefix| - 1] else if i == comma then 44
               else if i < newline then b[i - comma - 1] else if i == newline then 10 else rest[i - newline - 1]
  {
  }

  lemma FieldTextLength(prefix: seq<byte>, a: seq<byte>, b: seq<byte>, rest: seq<byte>)
    ensures |FieldText(prefix, a, b, rest)| == |prefix| + |a| + |b| + |rest| + 3
  {
  }

  lemma FieldMarks(prefix: seq<byte>, a: seq<byte>, b: seq<byte>, rest: seq<byte>)
    requires forall i :: 0 <= i < |prefix| ==> prefix[i] != 58 && prefix[i] != 0
    requires forall i :: 0 <= i < |a| ==> a[i] != 44 && a[i] != 0
    requires forall i :: 0 <= i < |b| ==> b[i] != 10 && b[i] != 0
    ensures var text := FieldText(prefix, a, b, rest);
            var comma := |prefix| + 1 + |a|;
            var newline := comma + 1 + |b|;
            && FindMarks(text) == Some(Marks(|prefix|, comma, newline))
            && text[|prefix| + 1..comma] == a
            && text[comma + 1..newline] == b
  {
    hide FirstIndex, FieldText;
    var text := FieldText(prefix, a, b, rest);
    var comma := |prefix| + 1 + |a|;
    var newline := comma + 1 + |b|;
    FieldTextLength(prefix, a, b, rest);
    forall i | 0 <= i < |text| { FieldTextBytes(prefix, a, b, rest, i); }
    FirstIndexIs(text, 0, 58, |prefix|);
    FirstIndexIs(text, |prefix|, 44, comma);
    FirstIndexIs(text, comma, 10, newline);
  }

  /**
   A text is read up to its first ':', the ',' after that and the newline after that: the numbers between them are
   the request, taken modulo 2^32. What comes before and after makes no difference.
   */
  lemma FieldsAreParsed(prefix: seq<byte>, a: seq<byte>, b: seq<byte>, rest: seq<byte>)
    requires forall i :: 0 <= i < |prefix| ==> prefix[i] != 58 && prefix[i] != 0
    requires forall i :: 0 <= i < |a| ==> a[i] != 44 && a[i] != 0
    requires forall i :: 0 <= i < |b| ==> b[i] != 10 && b[i] != 0
    ensures ParseSeek(FieldText(prefix, a, b, rest)) == Some(SeekTo(Atoi(a) % 0x1_0000_0000, Atoi(b) % 0x1_0000_0000))
  {
    hide FindMarks, Atoi, FieldText;
    FieldMarks(prefix, a, b, rest);
  }

  /** "AESDCHAR_IOCSEEKTO" */
  const REQUEST_NAME: seq<byte> := [65, 69, 83, 68, 67, 72, 65, 82, 95, 73, 79, 67, 83, 69, 69, 75, 84, 79]

  lemma OneDigit(d: byte, rest: seq<byte>)
    requires 48 <= d <= 57 && !StartsWithDigit(rest)
    ensures Atoi([d] + rest) == d as int - 48
    ensures Atoi([d]) == d as int - 48
  {
    hide Atoi, NumberOf;
    NumberStep([d]);
    NoDigits();
    assert [d][..0] == [];
    AtoiReads([], [], [d], rest);
    AtoiReads([], [], [d], []);
    assert [] + ([] + ([d] + rest)) == [d] + rest;
    assert [] + ([] + ([d] + [])) == [d];
  }

  /** "AESDCHAR_IOCSEEKTO:2,3" and a newline, with a carriage return before it or not, asks for byte 3 of command 2. */
  lemma KnownRequest(cr: seq<byte>)
    requires cr == [] || cr == [13]
    ensures ParseSeek(REQUEST_NAME + [58, 50, 44, 51] + cr + [10]) == Some(SeekTo(2, 3))
  {
    hide Atoi, ParseSeek;
    FieldsAreParsed(REQUEST_NAME, [50], [51] + cr, []);
    assert REQUEST_NAME + [58, 50, 44, 51] + cr + [10] == FieldText(REQUEST_NAME, [50], [51] + cr, []);
    OneDigit(50, []);
    OneDigit(51, cr);
  }

  /** A minus wraps: "-1" asks for command 4294967295. */
  lemma MinusWraps(n: nat)
    requires 0 < n <= 0x1_0000_0000
    ensures Atoi([45] + Decimal(n)) % 0x1_0000_0000 == 0x1_0000_0000 - n
  {
    hide Atoi, NumberOf, Decimal;
    DecimalIsNotation(n);
    AtoiReads([], [45], Decimal(n), []);
    assert [] + ([45] + (Decimal(n) + [])) == [45] + Decimal(n);
  }
}
