/**
 * LZ4_count: how far two positions of the input agree, eight bytes at a time. Words are
 * little-endian reads; the first differing byte of two words is found from the number of
 * trailing zero bits of their exclusive or.
 */
module Lz4Count {
  import opened Bytes
  import opened Bits

  function TrailingZeros(v: nat): (z: nat)
    requires v > 0
  {
    if v % 2 == 1 then 0 else 1 + TrailingZeros(v / 2)
  }

  /** LZ4_NbCommonBytes on a little-endian 64-bit machine. */
  function NbCommonBytes(diff: nat): (n: nat)
    requires diff > 0
  {
    TrailingZeros(diff) / 8
  }

  // ---------------------------------------------------------------- words

  /** The low `n` bits and the others do not interact. */
  lemma {:induction false} XorSplit(x: nat, a: nat, y: nat, b: nat, n: nat)
    requires x < Pow2(n) && y < Pow2(n)
    ensures Xor(x + Pow2(n) * a, y + Pow2(n) * b) == Xor(x, y) + Pow2(n) * Xor(a, b)
    ensures Xor(x, y) < Pow2(n)
    decreases n
  {
    hide Xor, Pow2;
    Pow2Step(n);
    if n == 0 {
      XorZero(0, 0);
    } else {
      var p := Pow2(n - 1);
      XorSplit(x / 2, a, y / 2, b, n - 1);
      XorBit(x, p * a, y, p * b);
      XorBit(x, 0, y, 0);
      Twice(p, a);
      Twice(p, b);
      Twice(p, Xor(a, b));
    }
  }

  lemma Twice(p: nat, a: nat)
    ensures 2 * p * a == 2 * (p * a) && p * a >= 0
  {
  }

  lemma XorBit(x: nat, u: nat, y: nat, v: nat)
    ensures Xor(x + 2 * u, y + 2 * v) == (if x % 2 == y % 2 then 0 else 1) + 2 * Xor(x / 2 + u, y / 2 + v)
  {
    XorStep(x + 2 * u, y + 2 * v);
    hide Xor;
    assert (x + 2 * u) / 2 == x / 2 + u && (y + 2 * v) / 2 == y / 2 + v;
  }

  lemma Halve(x: nat, p: nat, a: nat)
    ensures (x + 2 * p * a) / 2 == x / 2 + p * a && (x + 2 * p * a) % 2 == x % 2
  {
    assert 2 * p * a == 2 * (p * a);
  }

  lemma {:induction false} TrailingZerosSplit(x: nat, w: nat, n: nat)
    requires x < Pow2(n) && x + Pow2(n) * w > 0
    ensures x > 0 ==> TrailingZeros(x + Pow2(n) * w) < n
    ensures x == 0 ==> w > 0 && TrailingZeros(x + Pow2(n) * w) == n + TrailingZeros(w)
    decreases n
  {
    if n > 0 {
      var p := Pow2(n - 1);
      Halve(x, p, w);
      assert Pow2(n) * w == 2 * p * w;
      if x % 2 == 0 {
        assert x / 2 + p * w > 0;
        TrailingZerosSplit(x / 2, w, n - 1);
      }
    }
  }

  lemma Pow2Eight()
    ensures Pow2(8) == 256
  {
    assert Pow2(4) == 16;
    assert Pow2(6) == 64;
  }

  /** Two different words differ first in their low byte, or where the rest does. */
  lemma LowByte(x: byte, a: nat, y: byte, b: nat)
    requires x != y || a != b
    ensures Xor(x + 256 * a, y + 256 * b) > 0
    ensures x != y ==> NbCommonBytes(Xor(x + 256 * a, y + 256 * b)) == 0
    ensures x == y ==> Xor(a, b) > 0
                       && NbCommonBytes(Xor(x + 256 * a, y + 256 * b)) == 1 + NbCommonBytes(Xor(a, b))
  {
    hide Pow2, Xor, TrailingZeros;
    Pow2Eight();
    XorZero(x, y);
    XorZero(a, b);
    XorZero(x + 256 * a, y + 256 * b);
    XorSplit(x, a, y, b, 8);
    TrailingZerosSplit(Xor(x, y), Xor(a, b), 8);
  }

  /** The trailing zeros of the difference of two words count their common low bytes. */
  lemma {:induction false} FirstDifference(s: seq<byte>, i: nat, j: nat, n: nat) returns (c: nat)
    requires i + n <= |s| && j + n <= |s|
    requires ReadWord(s, i, n) != ReadWord(s, j, n)
    ensures Xor(ReadWord(s, i, n), ReadWord(s, j, n)) > 0
    ensures c == NbCommonBytes(Xor(ReadWord(s, i, n), ReadWord(s, j, n)))
    ensures c < n && s[i + c] != s[j + c] && Agree(s, i, j, c)
    decreases n
  {
    hide NbCommonBytes, Xor, Agree;
    var a, b := ReadWord(s, i + 1, n - 1), ReadWord(s, j + 1, n - 1);
    LowByte(s[i], a, s[j], b);
    if s[i] == s[j] {
      c := FirstDifference(s, i + 1, j + 1, n - 1);
      OneAgrees(s, i, j);
      AgreeMore(s, i, j, 1, c);
      c := 1 + c;
    } else {
      c := 0;
      NothingAgrees(s, i, j);
    }
  }

  /** Equal words are equal bytes. */
  lemma EqualWords(s: seq<byte>, i: nat, j: nat, n: nat)
    requires i + n <= |s| && j + n <= |s|
    ensures ReadWord(s, i, n) == ReadWord(s, j, n) <==> Agree(s, i, j, n)
  {
    SameWords(s, i, s, j, n);
  }

  // ---------------------------------------------------------------- LZ4_count

  ghost predicate Agree(s: seq<byte>, i: nat, j: nat, n: nat)
    requires i + n <= |s| && j + n <= |s|
  {
    s[i..i + n] == s[j..j + n]
  }

  lemma AgreeMore(s: seq<byte>, i: nat, j: nat, n: nat, m: nat)
    requires i + n + m <= |s| && j + n + m <= |s|
    requires Agree(s, i, j, n) && Agree(s, i + n, j + n, m)
    ensures Agree(s, i, j, n + m)
  {
    assert s[i..i + n + m] == s[i..i + n] + s[i + n..i + n + m];
    assert s[j..j + n + m] == s[j..j + n] + s[j + n..j + n + m];
  }

  /** The length of the longest common prefix of the two positions, up to the limit. */
  ghost predicate IsCommonLength(s: seq<byte>, start: nat, match0: nat, limit: nat, n: nat)
    requires match0 <= start <= limit <= |s|
  {
    && start + n <= limit
    && Agree(s, start, match0, n)
    && (start + n < limit ==> s[start + n] != s[match0 + n])
  }

  method Count(s: seq<byte>, start: nat, match0: nat, limit: nat) returns (n: nat)
    requires match0 <= start <= limit <= |s|
    ensures IsCommonLength(s, start, match0, limit, n)
  {
    hide NbCommonBytes, Xor, ReadWord;
    var pIn := start;
    while pIn + 8 <= limit
      invariant start <= pIn <= limit && Agree(s, start, match0, pIn - start)
      decreases limit - pIn
    {
      ghost var q := match0 + (pIn - start);
      var a, b := ReadWord(s, pIn, 8), ReadWord(s, match0 + (pIn - start), 8);
      var diff := Xor(a, b);
      XorZero(a, b);
      if diff == 0 {
        EqualWords(s, pIn, q, 8);
        AgreeMore(s, start, match0, pIn - start, 8);
        pIn := pIn + 8;
      } else {
        ghost var first := FirstDifference(s, pIn, q, 8);
        var c := NbCommonBytes(diff);
        AgreeMore(s, start, match0, pIn - start, c);
        return pIn + c - start;
      }
    }
    n := CountTail(s, start, match0, limit, pIn);
  }

  lemma NothingAgrees(s: seq<byte>, i: nat, j: nat)
    requires i <= |s| && j <= |s|
    ensures Agree(s, i, j, 0)
  {
  }

  lemma OneAgrees(s: seq<byte>, i: nat, j: nat)
    requires i < |s| && j < |s| && s[i] == s[j]
    ensures Agree(s, i, j, 1)
  {
  }

  lemma AgreesAt(s: seq<byte>, i: nat, j: nat, n: nat, k: nat)
    requires i + n <= |s| && j + n <= |s| && Agree(s, i, j, n) && k < n
    ensures s[i + k] == s[j + k]
  {
    assert s[i..i + n][k] == s[j..j + n][k];
  }

  /** One comparison of `n` bytes: advance over them if they agree. */
  method TryWord(s: seq<byte>, start: nat, match0: nat, limit: nat, pIn0: nat, n: nat) returns (pIn: nat)
    requires n > 0 && match0 <= start <= pIn0 <= limit <= |s|
    requires Agree(s, start, match0, pIn0 - start)
    ensures pIn == pIn0 || pIn == pIn0 + n <= limit
    ensures Agree(s, start, match0, pIn - start)
    ensures pIn0 + n <= limit ==> (pIn == pIn0 + n <==> Agree(s, pIn0, match0 + (pIn0 - start), n))
    ensures pIn0 + n > limit ==> pIn == pIn0
  {
    hide Agree, ReadWord;
    pIn := pIn0;
    if pIn + n <= limit {
      EqualWords(s, pIn, match0 + (pIn - start), n);
      if ReadWord(s, match0 + (pIn - start), n) == ReadWord(s, pIn, n) {
        AgreeMore(s, start, match0, pIn - start, n);
        pIn := pIn + n;
      }
    }
  }

  /** At most seven bytes are left: one comparison each of four, two and one. */
  method CountTail(s: seq<byte>, start: nat, match0: nat, limit: nat, p0: nat) returns (n: nat)
    requires match0 <= start <= p0 <= limit <= |s| && limit < p0 + 8
    requires Agree(s, start, match0, p0 - start)
    ensures IsCommonLength(s, start, match0, limit, n)
  {
    hide Agree;
    var p4 := TryWord(s, start, match0, limit, p0, 4);
    var p2 := TryWord(s, start, match0, limit, p4, 2);
    var p1 := p2;
    if p2 < limit && s[match0 + (p2 - start)] == s[p2] {
      OneAgrees(s, p2, match0 + (p2 - start));
      AgreeMore(s, start, match0, p2 - start, 1);
      p1 := p2 + 1;
    }
    n := p1 - start;
    TailExact(s, start, match0, limit, p0, p4, p2, p1);
  }

  /** Why the three comparisons find the first difference exactly. */
  lemma TailExact(s: seq<byte>, start: nat, match0: nat, limit: nat, p0: nat, p4: nat, p2: nat, p1: nat)
    requires match0 <= start <= p0 <= p4 <= p2 <= p1 <= limit <= |s| && limit < p0 + 8
    requires p4 == p0 || p4 == p0 + 4
    requires p4 == p0 && p0 + 4 <= limit ==> !Agree(s, p0, match0 + (p0 - start), 4)
    requires p2 == p4 || p2 == p4 + 2
    requires p2 == p4 && p4 + 2 <= limit ==> !Agree(s, p4, match0 + (p4 - start), 2)
    requires p2 == p4 + 2 ==> Agree(s, p4, match0 + (p4 - start), 2)
    requires p1 == p2 || p1 == p2 + 1
    requires p1 == p2 && p2 < limit ==> s[p2] != s[match0 + (p2 - start)]
    requires p1 == p2 + 1 ==> s[p2] == s[match0 + (p2 - start)]
    ensures p1 < limit ==> s[p1] != s[match0 + (p1 - start)]
  {
    if p1 < limit && p1 == p2 + 1 && s[p1] == s[match0 + (p1 - start)] {
      var q := match0 + (p4 - start);
      OneAgrees(s, p2, match0 + (p2 - start));
      OneAgrees(s, p1, match0 + (p1 - start));
      AgreeMore(s, p2, match0 + (p2 - start), 1, 1);
      if p2 != p4 {
        AgreeMore(s, p4, q, 2, 2);
      }
      assert false;
    }
  }
}
