/** Shared vocabulary: bytes, the ASCII bytes of the HTTP syntax, suffixes,
    and the Option/Result wrappers that stand for Rust's `Option` and
    `anyhow::Result`. */
module Prelude {

  newtype byte = b: int | 0 <= b < 256

  const CR: byte := 13
  const LF: byte := 10
  const SP: byte := 32
  const HTAB: byte := 9

  predicate IsSuffix<T(==)>(s: seq<T>, whole: seq<T>)
  {
    |s| <= |whole| && s == whole[|whole| - |s|..]
  }

  /** A slice is the concatenation of its two halves. */
  lemma SliceSplit<T>(s: seq<T>, i: nat, j: nat, k: nat)
    requires i <= j <= k <= |s|
    ensures s[i..k] == s[i..j] + s[j..k]
  {
  }

  /** Appending to a non-empty sequence appends to its tail. */
  lemma ConsAppend<T>(s: seq<T>, x: T)
    requires s != []
    ensures s + [x] == [s[0]] + (s[1..] + [x])
  {
    assert s == [s[0]] + s[1..];
  }

  lemma AppendAssoc<T>(a: seq<T>, b: seq<T>, c: seq<T>)
    ensures a + (b + c) == (a + b) + c
  {
  }

  datatype Option<+T> = None | Some(value: T)

  datatype Result<+T, +E> = Ok(value: T) | Err(error: E)
}
