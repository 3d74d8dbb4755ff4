/** Bytes, little-endian fields and the small generic types shared by every component. */
module Bytes {

  type byte = x: int | 0 <= x < 256

  datatype Option<+T> = None | Some(value: T)

  /** The sequence of `n` equal bytes, as `memset` leaves it. */
  function Fill(b: byte, n: nat): (r: seq<byte>)
    ensures |r| == n && forall i :: 0 <= i < n ==> r[i] == b
  {
    seq(n, _ => b)
  }

  /** `n` bytes from `i`, low byte first. */
  function ReadWord(s: seq<byte>, i: nat, n: nat): (w: nat)
    requires i + n <= |s|
    decreases n
  {
    if n == 0 then 0 else s[i] as nat + 256 * ReadWord(s, i + 1, n - 1)
  }

  /** 256 to the power `n`. */
  function Pow256(n: nat): (p: nat)
    ensures p > 0
  {
    if n == 0 then 1 else 256 * Pow256(n - 1)
  }

  /** The `n` low bytes of `v`, low byte first. */
  function WordBytes(v: nat, n: nat): (s: seq<byte>)
    ensures |s| == n
    decreases n
  {
    if n == 0 then [] else [v % 256] + WordBytes(v / 256, n - 1)
  }

  lemma {:induction false} ReadWordBound(s: seq<byte>, i: nat, n: nat)
    requires i + n <= |s|
    ensures ReadWord(s, i, n) < Pow256(n)
    decreases n
  {
    if n > 0 {
      ReadWordBound(s, i + 1, n - 1);
    }
  }

  /** Words of two buffers are equal exactly when their bytes are. */
  lemma {:induction false} SameWords(a: seq<byte>, i: nat, b: seq<byte>, j: nat, n: nat)
    requires i + n <= |a| && j + n <= |b|
    ensures ReadWord(a, i, n) == ReadWord(b, j, n) <==> a[i..i + n] == b[j..j + n]
    decreases n
  {
    if n > 0 {
      SameWords(a, i + 1, b, j + 1, n - 1);
      assert a[i..i + n] == [a[i]] + a[i + 1..i + n] && b[j..j + n] == [b[j]] + b[j + 1..j + n];
      assert a[i..i + n][0] == a[i] && a[i..i + n][1..] == a[i + 1..i + n];
      assert b[j..j + n][0] == b[j] && b[j..j + n][1..] == b[j + 1..j + n];
    }
  }

  lemma {:induction false} ReadWordBytes(v: nat, n: nat)
    requires v < Pow256(n)
    ensures ReadWord(WordBytes(v, n), 0, n) == v
    decreases n
  {
    if n > 0 {
      ReadWordBytes(v / 256, n - 1);
      var s, t := WordBytes(v, n), WordBytes(v / 256, n - 1);
      assert s[1..1 + (n - 1)] == t[0..n - 1];
      SameWords(s, 1, t, 0, n - 1);
    }
  }

  lemma {:induction false} ZeroWord(s: seq<byte>, i: nat, n: nat)
    requires i + n <= |s|
    ensures ReadWord(s, i, n) == 0 <==> forall k :: i <= k < i + n ==> s[k] == 0
    decreases n
  {
    if n > 0 {
      ZeroWord(s, i + 1, n - 1);
    }
  }
}
