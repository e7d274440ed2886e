/** Bytes, the characters the code names, and small general definitions. */
module Bytes {
  newtype byte = x: int | 0 <= x < 256

  const NUL: byte := 0
  const NEWLINE: byte := 10

  datatype Option<+T> = None | Some(value: T)

  function Min(a: nat, b: nat): nat {
    if a < b then a else b
  }

  /** No element twice. */
  predicate Distinct<T(==)>(s: seq<T>) {
    forall i, j :: 0 <= i < j < |s| ==> s[i] != s[j]
  }

  /** True when the text is terminated, which is what makes a command complete. */
  predicate EndsLine(s: seq<byte>) {
    s != [] && s[|s| - 1] == NEWLINE
  }

  lemma LastByte(s: seq<byte>)
    requires s != []
    ensures s[|s| - 1..|s|] == [s[|s| - 1]]
  {
  }
}
