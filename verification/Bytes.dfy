/** Bytes and big-endian numbers. */
module Bytes {

  type byte = b: int | 0 <= b < 256 witness 0

  /** The number a byte sequence stands for, most significant byte first. */
  function BigEndian(s: seq<byte>): (v: nat) {
    if |s| == 0 then 0 else 256 * BigEndian(s[..|s| - 1]) + s[|s| - 1]
  }

  function Zeros(n: nat): seq<byte> { seq(n, _ => 0) }

  lemma ConcatAssoc<T>(a: seq<T>, b: seq<T>, c: seq<T>)
    ensures (a + b) + c == a + (b + c)
  {
  }

  lemma DropPrefix<T>(a: seq<T>, b: seq<T>)
    ensures (a + b)[|a|..] == b && (a + b)[..|a|] == a
  {
  }

  lemma Rejoin<T>(a: seq<T>, k: nat)
    requires k <= |a|
    ensures a[..k] + a[k..] == a
  {
  }

  lemma ConcatEmpty<T>(a: seq<T>)
    ensures a + [] == a && [] + a == a
  {
  }

  lemma SliceJoin<T>(a: seq<T>, i: nat, j: nat)
    requires i <= j <= |a|
    ensures a[..i] + a[i..j] == a[..j] && a[..j] + a[j..] == a
  {
  }
}
