/** Sequence operations with the semantics of Python's built-in string and
    list operators: slices clamp their bounds instead of failing, a
    negative-step slice counts from the end, and `c * m` with `m <= 0` is
    the empty string. */
module Seqs {

  function Min(a: int, b: int): int { if a <= b then a else b }

  function Max(a: int, b: int): int { if a <= b then b else a }

  /** `s[:i]` for a non-negative `i`: the first `i` elements, or all of `s`. */
  function Take<T>(s: seq<T>, i: nat): (r: seq<T>)
    ensures |r| == Min(i, |s|)
    ensures forall j :: 0 <= j < |r| ==> r[j] == s[j]
  {
    if i <= |s| then s[..i] else s
  }

  /** `s[i:]` for a non-negative `i`: everything after the first `i`
      elements, or nothing when `i` is past the end. */
  function Drop<T>(s: seq<T>, i: nat): (r: seq<T>)
    ensures |r| == Max(|s| - i, 0)
    ensures forall j :: 0 <= j < |r| ==> r[j] == s[i + j]
  {
    if i <= |s| then s[i..] else []
  }

  /** `c * m`: the character `c` repeated `m` times, empty when `m <= 0`. */
  function Repeat(c: char, m: int): (r: string)
    ensures |r| == Max(m, 0)
    ensures forall j :: 0 <= j < |r| ==> r[j] == c
    decreases m
  {
    if m <= 0 then [] else [c] + Repeat(c, m - 1)
  }

  /** The elements of `s` in the opposite order. */
  function Reverse<T>(s: seq<T>): (r: seq<T>)
    ensures |r| == |s|
    ensures forall j :: 0 <= j < |s| ==> r[j] == s[|s| - 1 - j]
  {
    if |s| == 0 then [] else Reverse(s[1..]) + [s[0]]
  }

  /** Where a slice with step -1 stops: Python adds the length to a negative
      bound and clamps the result into [-1, len - 1]; the stop index itself
      is excluded from the slice. */
  function ReverseStop(len: nat, stop: int): (j: int)
    ensures -1 <= j < len
  {
    if stop < 0 then
      (if stop + len < 0 then -1 else stop + len)
    else
      (if stop >= len then len - 1 else stop)
  }

  /** `s[:stop:-1]`: from the last element backwards, down to but not
      including the normalised stop index. */
  function ReverseSlice<T>(s: seq<T>, stop: int): (r: seq<T>)
    ensures |r| == |s| - 1 - ReverseStop(|s|, stop)
    ensures forall j :: 0 <= j < |r| ==> r[j] == s[|s| - 1 - j]
  {
    Reverse(s[ReverseStop(|s|, stop) + 1..])
  }
}
