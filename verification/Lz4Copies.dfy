/**
 * The strided copies of the codec. They write whole 8-, 16- or 32-byte stripes, so they
 * overshoot the end they are given, and for matches they read bytes that the same copy
 * has just written. What each leaves in the range asked for is stated by `Repeats`.
 */
module Lz4Copies {
  import opened Bytes
  import opened Lz4Format

  // ---------------------------------------------------------------- plain copies

  /** memcpy inside one buffer: the ranges may not overlap (or are the same). */
  method Memcpy(buf: array<byte>, d: nat, s: nat, n: nat)
    requires d + n <= buf.Length && s + n <= buf.Length
    requires s + n <= d || d + n <= s || s == d
    modifies buf
    ensures forall k {:trigger buf[k]} :: 0 <= k < buf.Length ==>
              buf[k] == if d <= k < d + n then old(buf[s + (k - d)]) else old(buf[k])
  {
    forall k | 0 <= k < n {
      buf[d + k] := buf[s + k];
    }
  }

  /** memcpy from the input into the output. */
  method MemcpyIn(buf: array<byte>, d: nat, src: seq<byte>, s: nat, n: nat)
    requires d + n <= buf.Length && s + n <= |src|
    modifies buf
    ensures forall k {:trigger buf[k]} :: 0 <= k < buf.Length ==>
              buf[k] == if d <= k < d + n then src[s + (k - d)] else old(buf[k])
  {
    forall k | 0 <= k < n {
      buf[d + k] := src[s + k];
    }
  }

  /** LZ4_wildCopy8 (stride 8) and LZ4_wildCopy32 (stride 32) from the input. */
  method WildCopyIn(buf: array<byte>, dst: nat, src: seq<byte>, from: nat, end: nat, stride: nat)
    requires stride > 0 && dst <= end
    requires end + stride - 1 <= buf.Length && dst + stride <= buf.Length
    requires from + (end - dst) + stride - 1 <= |src| && from + stride <= |src|
    modifies buf
    ensures forall k :: dst <= k < end ==> buf[k] == src[from + (k - dst)]
    ensures forall k :: 0 <= k < dst ==> buf[k] == old(buf[k])
    ensures forall k :: end + stride <= k < buf.Length ==> buf[k] == old(buf[k])
  {
    var d, s := dst, from;
    MemcpyIn(buf, d, src, s, stride);
    d, s := d + stride, s + stride;
    while d < end
      invariant dst + stride <= d && s - from == d - dst && d <= end + stride - 1 + (if dst == end then 1 else 0)
      invariant forall k :: dst <= k < d ==> buf[k] == src[from + (k - dst)]
      invariant forall k :: 0 <= k < dst ==> buf[k] == old(buf[k])
      invariant forall k :: d <= k < buf.Length ==> buf[k] == old(buf[k])
    {
      MemcpyIn(buf, d, src, s, stride);
      d, s := d + stride, s + stride;
    }
  }

  // ---------------------------------------------------------------- repetition

  /** Going back any number of periods inside a repeating range. */
  lemma {:induction false} PeriodsBack(a: seq<byte>, lo: nat, hi: nat, p: nat, k: int, m: nat)
    requires 1 <= p <= lo <= hi <= |a| && Repeats(a, lo, hi, p)
    requires lo - p <= k - m * p && k < hi
    ensures 0 <= k - m * p <= k && a[k] == a[k - m * p]
    decreases m
  {
    if m > 0 {
      assert k - m * p == (k - p) - (m - 1) * p;
      assert (m - 1) * p >= 0;
      assert RepeatsAt(a, k, p);
      PeriodsBack(a, lo, hi, p, k - p, m - 1);
    }
  }

  /**
   * One stripe: copying `n` bytes from a whole number of periods back keeps the
   * repetition going. With offset 0 the source must already be zeros.
   */
  lemma StripeRepeats(a: seq<byte>, b: seq<byte>, lo: nat, d: nat, s: nat, n: nat, offset: nat, m: nat)
    requires offset <= lo <= d && |a| == |b| && d + n <= |a| && s + n <= d
    requires Repeats(a, lo, d, offset)
    requires offset == 0 ==> lo <= s
    requires offset > 0 ==> lo - offset <= s && d - s == m * offset
    requires forall k {:trigger b[k]} :: 0 <= k < |b| ==> b[k] == if d <= k < d + n then a[s + (k - d)] else a[k]
    ensures Repeats(b, lo, d + n, offset)
  {
    forall k | lo <= k < d + n ensures RepeatsAt(b, k, offset) {
      if k < d {
        assert RepeatsAt(a, k, offset);
      } else if offset == 0 {
        assert RepeatsAt(a, s + (k - d), offset);
      } else if k - offset < d {
        assert m > 0 && k - m * offset == (k - offset) - (m - 1) * offset == s + (k - d);
        PeriodsBack(a, lo, d, offset, k - offset, m - 1);
      } else {
        assert RepeatsAt(a, s + (k - d), offset);
      }
    }
  }

  /** LZ4_wildCopy8 and LZ4_wildCopy32 inside the output, from `m` periods back. */
  method WildCopyMatch(buf: array<byte>, dst: nat, from: nat, end: nat, stride: nat,
                       ghost lo: nat, ghost offset: nat, ghost m: nat)
    requires stride > 0 && from + stride <= dst
    requires offset <= lo <= dst <= end + stride && end + stride - 1 <= buf.Length && dst + stride <= buf.Length
    requires offset == 0 ==> lo <= from
    requires offset > 0 ==> lo - offset <= from && dst - from == m * offset
    requires Repeats(buf[..], lo, dst, offset)
    modifies buf
    ensures Repeats(buf[..], lo, if dst < end then end else dst, offset)
    ensures buf[..dst] == old(buf[..dst])
    ensures forall k :: end + stride <= k < buf.Length && dst + stride <= k ==> buf[k] == old(buf[k])
  {
    ghost var a := buf[..];
    var d, s := dst, from;
    Memcpy(buf, d, s, stride);
    StripeRepeats(a, buf[..], lo, d, s, stride, offset, m);
    d, s := d + stride, s + stride;
    while d < end
      invariant dst + stride <= d && d - s == dst - from && from <= s
      invariant d <= dst + stride || d < end + stride
      invariant Repeats(buf[..], lo, d, offset)
      invariant buf[..dst] == old(buf[..dst])
      invariant forall k :: d <= k < buf.Length ==> buf[k] == old(buf[k])
    {
      a := buf[..];
      Memcpy(buf, d, s, stride);
      StripeRepeats(a, buf[..], lo, d, s, stride, offset, m);
      assert buf[..dst] == a[..dst];
      d, s := d + stride, s + stride;
    }
  }

  /**
   * The first eight bytes of a match with an offset below 8: four bytes one by one, then
   * four from `INC32[offset]` further; the next stripe is taken `DEC64[offset]` back, which
   * is a whole number of periods and at least 8 bytes away.
   */
  const INC32: seq<nat> := [0, 1, 2, 1, 0, 4, 4, 4]
  const DEC64: seq<int> := [0, 0, 0, -1, -4, 1, 2, 3]

  /** The source of the second stripe, as a number of periods before `op + 8`. */
  function SecondStripePeriods(offset: nat): (m: nat)
    requires offset < 8
    ensures offset > 0 ==> offset + 8 - INC32[offset] + DEC64[offset] == m * offset >= 8
    ensures offset == 0 ==> offset + 8 - INC32[offset] + DEC64[offset] == 8
  {
    [0, 8, 4, 3, 2, 2, 2, 2][offset]
  }

  /** The source of bytes 4 to 7, as a number of periods before `op + 4`. */
  function SecondHalfPeriods(offset: nat): (m: nat)
    requires offset < 8
    ensures offset > 0 ==> offset + 4 - INC32[offset] == m * offset >= 4
    ensures offset == 0 ==> offset + 4 - INC32[offset] == 4
  {
    [0, 4, 2, 2, 2, 1, 1, 1][offset]
  }

  method FirstFour(buf: array<byte>, op: nat, offset: nat)
    requires offset <= op && op + 4 <= buf.Length
    modifies buf
    ensures Repeats(buf[..], op, op + 4, offset)
    ensures buf[..op] == old(buf[..op])
  {
    var m := op - offset;
    buf[op], buf[op + 1], buf[op + 2], buf[op + 3] := 0, 0, 0, 0;
    buf[op] := buf[m];
    buf[op + 1] := buf[m + 1];
    buf[op + 2] := buf[m + 2];
    buf[op + 3] := buf[m + 3];
    assert forall k :: op <= k < op + 4 ==> RepeatsAt(buf[..], k, offset);
  }

  /** The same four bytes in two-byte copies; the fast loop never has offset 1 here. */
  method FirstFourPairs(buf: array<byte>, op: nat, offset: nat)
    requires offset != 1 && offset <= op && op + 4 <= buf.Length
    modifies buf
    ensures Repeats(buf[..], op, op + 4, offset)
    ensures buf[..op] == old(buf[..op])
  {
    var m := op - offset;
    buf[op], buf[op + 1], buf[op + 2], buf[op + 3] := 0, 0, 0, 0;
    Memcpy(buf, op, m, 2);
    Memcpy(buf, op + 2, m + 2, 2);
  }

  method FirstEight(buf: array<byte>, op: nat, offset: nat, pairs: bool) returns (match': nat)
    requires offset < 8 && offset <= op && op + 8 <= buf.Length
    requires pairs ==> offset != 1
    modifies buf
    ensures Repeats(buf[..], op, op + 8, offset)
    ensures buf[..op] == old(buf[..op])
    ensures match' + 8 <= op + 8
    ensures offset == 0 ==> match' == op
    ensures offset > 0 ==> op - offset <= match' && op + 8 - match' == SecondStripePeriods(offset) * offset
  {
    if pairs {
      FirstFourPairs(buf, op, offset);
    } else {
      FirstFour(buf, op, offset);
    }
    var m := op - offset + INC32[offset];
    ghost var a := buf[..];
    Memcpy(buf, op + 4, m, 4);
    StripeRepeats(a, buf[..], op, op + 4, m, 4, offset, SecondHalfPeriods(offset));
    assert buf[..op] == a[..op];
    match' := m - DEC64[offset];
  }

  /** One period back, for offsets no shorter than the stripe. */
  method StripeMatch(buf: array<byte>, op: nat, d: nat, offset: nat, n: nat)
    requires n <= offset <= op <= d && d + n <= buf.Length
    requires Repeats(buf[..], op, d, offset)
    modifies buf
    ensures Repeats(buf[..], op, d + n, offset)
    ensures buf[..d] == old(buf[..d])
  {
    ghost var a := buf[..];
    Memcpy(buf, d, d - offset, n);
    StripeRepeats(a, buf[..], op, d, d - offset, n, offset, 1);
    assert buf[..d] == a[..d];
  }

  /** The shortcut for match lengths up to 18: 8 + 8 + 2 bytes, whatever the length. */
  method ShortMatchCopy(buf: array<byte>, op: nat, offset: nat)
    requires 8 <= offset <= op && op + 18 <= buf.Length
    modifies buf
    ensures Repeats(buf[..], op, op + 18, offset)
    ensures buf[..op] == old(buf[..op])
  {
    StripeMatch(buf, op, op, offset, 8);
    assert buf[..op] == buf[..op + 8][..op];
    StripeMatch(buf, op, op + 8, offset, 8);
    assert buf[..op] == buf[..op + 8][..op];
    StripeMatch(buf, op, op + 16, offset, 2);
    assert buf[..op] == buf[..op + 16][..op];
  }

  // ---------------------------------------------------------------- LZ4_memcpy_using_offset

  /** `v` is eight bytes of the repetition of the `offset` bytes before `op`. */
  ghost predicate Pattern(v: seq<byte>, s: seq<byte>, op: nat, offset: nat)
    requires offset <= op <= |s|
  {
    && |v| == 8 && 0 < offset < 8
    && (forall j :: offset <= j < 8 ==> RepeatsAt(v, j, offset))
    && (forall j {:trigger v[j]} :: 0 <= j < offset ==> v[j] == s[op - offset + j] == v[8 - offset + j])
  }

  /** Writing the pattern once more keeps the repetition and leaves the pattern before the new end. */
  lemma PatternStripe(a: seq<byte>, b: seq<byte>, v: seq<byte>, lo: nat, d: nat, offset: nat)
    requires offset <= lo <= d && d + 8 <= |a| == |b|
    requires Pattern(v, a, d, offset) && Repeats(a, lo, d, offset)
    requires forall k {:trigger b[k]} :: 0 <= k < |b| ==> b[k] == if d <= k < d + 8 then v[k - d] else a[k]
    ensures Pattern(v, b, d + 8, offset) && Repeats(b, lo, d + 8, offset)
  {
    forall k | lo <= k < d + 8 ensures RepeatsAt(b, k, offset) {
      if k < d {
        assert RepeatsAt(a, k, offset);
      } else if k < d + offset {
        assert v[k - d] == a[k - offset];
      } else {
        assert RepeatsAt(v, k - d, offset);
      }
    }
  }

  method PatternOnce(buf: array<byte>, op: nat, d: nat, v: seq<byte>, ghost offset: nat)
    requires offset <= op <= d && d + 8 <= buf.Length
    requires Pattern(v, buf[..], d, offset) && Repeats(buf[..], op, d, offset)
    modifies buf
    ensures Pattern(v, buf[..], d + 8, offset) && Repeats(buf[..], op, d + 8, offset)
    ensures buf[..d] == old(buf[..d])
  {
    assert |v| == 8;
    hide Repeats, Pattern;
    ghost var a := buf[..];
    MemcpyIn(buf, d, v, 0, 8);
    PatternStripe(a, buf[..], v, op, d, offset);
    assert buf[..d] == a[..d];
  }

  /** Offsets 1, 2 and 4: the output is filled with an eight-byte pattern. */
  method PatternFill(buf: array<byte>, op: nat, end: nat, v: seq<byte>, ghost offset: nat)
    requires offset <= op <= end && end + 7 <= buf.Length && op + 8 <= buf.Length
    requires Pattern(v, buf[..], op, offset)
    modifies buf
    ensures Repeats(buf[..], op, end, offset)
    ensures buf[..op] == old(buf[..op])
  {
    hide Pattern, RepeatsAt;
    PatternOnce(buf, op, op, v, offset);
    var d := op + 8;
    while d < end
      invariant op + 8 <= d && (d <= op + 8 || d <= end + 7)
      invariant Pattern(v, buf[..], d, offset) && Repeats(buf[..], op, d, offset)
      invariant buf[..op] == old(buf[..op])
    {
      ghost var a := buf[..];
      PatternOnce(buf, op, d, v, offset);
      assert buf[..op] == buf[..d][..op] == a[..d][..op];
      d := d + 8;
    }
  }

  method EightBytePattern(buf: array<byte>, op: nat, offset: nat) returns (v: seq<byte>)
    requires offset in {1, 2, 4} && offset <= op <= buf.Length
    ensures Pattern(v, buf[..], op, offset)
  {
    var m := op - offset;
    if offset == 1 {
      v := [buf[m], buf[m], buf[m], buf[m], buf[m], buf[m], buf[m], buf[m]];
    } else if offset == 2 {
      v := [buf[m], buf[m + 1], buf[m], buf[m + 1], buf[m], buf[m + 1], buf[m], buf[m + 1]];
    } else {
      v := [buf[m], buf[m + 1], buf[m + 2], buf[m + 3], buf[m], buf[m + 1], buf[m + 2], buf[m + 3]];
    }
  }

  /** LZ4_memcpy_using_offset: the fast loop's copy for offsets below 16. */
  method MemcpyUsingOffset(buf: array<byte>, op: nat, end: nat, offset: nat)
    requires offset < 16 && offset <= op && op + MINMATCH <= end && end + 12 <= buf.Length
    modifies buf
    ensures Repeats(buf[..], op, end, offset)
    ensures buf[..op] == old(buf[..op])
  {
    if offset == 1 || offset == 2 || offset == 4 {
      var v := EightBytePattern(buf, op, offset);
      PatternFill(buf, op, end, v, offset);
    } else {
      MemcpyUsingOffsetBase(buf, op, end, offset);
    }
  }

  method MemcpyUsingOffsetBase(buf: array<byte>, op: nat, end: nat, offset: nat)
    requires offset < 16 && offset != 1 && offset <= op && op + MINMATCH <= end && end + 12 <= buf.Length
    modifies buf
    ensures Repeats(buf[..], op, end, offset)
    ensures buf[..op] == old(buf[..op])
  {
    if offset < 8 {
      var match' := FirstEight(buf, op, offset, true);
      ghost var a := buf[..];
      WildCopyMatch(buf, op + 8, match', end, 8, op, offset, SecondStripePeriods(offset));
      assert buf[..op] == buf[..op + 8][..op] == a[..op];
    } else {
      StripeMatch(buf, op, op, offset, 8);
      ghost var a := buf[..];
      WildCopyMatch(buf, op + 8, op + 8 - offset, end, 8, op, offset, 1);
      assert buf[..op] == buf[..op + 8][..op] == a[..op];
    }
  }

  method TwoStripes(buf: array<byte>, op: nat, d: nat, offset: nat)
    requires 16 <= offset <= op <= d && d + 32 <= buf.Length && Repeats(buf[..], op, d, offset)
    modifies buf
    ensures buf[..d] == old(buf[..d]) && Repeats(buf[..], op, d + 32, offset)
  {
    hide Repeats;
    StripeMatch(buf, op, d, offset, 16);
    ghost var a := buf[..];
    StripeMatch(buf, op, d + 16, offset, 16);
    assert buf[..d] == buf[..d + 16][..d] == a[..d + 16][..d] == a[..d];
  }

  /** The fast loop's copy for offsets of 16 and more: LZ4_wildCopy32 in 16-byte halves. */
  method LongMatchCopy(buf: array<byte>, op: nat, end: nat, offset: nat)
    requires 16 <= offset <= op && op + MINMATCH <= end && end + 31 <= buf.Length
    modifies buf
    ensures Repeats(buf[..], op, end, offset)
    ensures buf[..op] == old(buf[..op])
  {
    assert Repeats(buf[..], op, op, offset);
    hide Repeats;
    var d := op;
    TwoStripes(buf, op, d, offset);
    d := d + 32;
    while d < end
      invariant op + 32 <= d && (d <= op + 32 || d <= end + 31)
      invariant Repeats(buf[..], op, d, offset)
      invariant buf[..op] == old(buf[..op])
    {
      ghost var a := buf[..];
      TwoStripes(buf, op, d, offset);
      assert buf[..op] == buf[..d][..op] == a[..d][..op];
      d := d + 32;
    }
  }

  // ---------------------------------------------------------------- the safe loop's copy

  /**
   * The match copy of the safe loop, with the end of the buffer as its only bound. The
   * first eight bytes are written before the length is checked.
   */
  method SafeMatchCopy(buf: array<byte>, op: nat, length: nat, offset: nat) returns (ok: bool)
    requires offset <= op && op + MFLIMIT <= buf.Length && length >= MINMATCH
    modifies buf
    ensures ok <==> op + length + LASTLITERALS <= buf.Length
    ensures ok ==> Repeats(buf[..], op, op + length, offset)
    ensures buf[..op] == old(buf[..op])
  {
    var match';
    ghost var m := 1;
    if offset < 8 {
      match' := FirstEight(buf, op, offset, false);
      m := SecondStripePeriods(offset);
    } else {
      StripeMatch(buf, op, op, offset, 8);
      match' := op + 8 - offset;
    }
    ghost var a := buf[..];
    if op + length > buf.Length - 12 {
      if op + length > buf.Length - LASTLITERALS {
        ok := false;
        return;
      }
      MatchCopyTail(buf, op, length, offset, match', m);
    } else {
      MatchCopyInside(buf, op, length, offset, match', m);
    }
    ok := true;
    assert buf[..op] == buf[..op + 8][..op] == a[..op];
  }

  method MatchCopyInside(buf: array<byte>, op: nat, length: nat, ghost offset: nat, match': nat, ghost m: nat)
    requires offset <= op && op + length + 12 <= buf.Length && length >= MINMATCH
    requires match' <= op
    requires offset == 0 ==> match' == op
    requires offset > 0 ==> op - offset <= match' && op + 8 - match' == m * offset
    requires Repeats(buf[..], op, op + 8, offset)
    modifies buf
    ensures Repeats(buf[..], op, op + length, offset)
    ensures buf[..op + 8] == old(buf[..op + 8])
  {
    ghost var a := buf[..];
    Memcpy(buf, op + 8, match', 8);
    StripeRepeats(a, buf[..], op, op + 8, match', 8, offset, m);
    assert buf[..op + 8] == a[..op + 8];
    if length > 16 {
      ghost var b := buf[..];
      WildCopyMatch(buf, op + 16, match' + 8, op + length, 8, op, offset, m);
      assert buf[..op + 8] == buf[..op + 16][..op + 8] == b[..op + 8];
    }
  }

  method MatchCopyTail(buf: array<byte>, op: nat, length: nat, ghost offset: nat, match': nat, ghost m: nat)
    requires offset <= op && op + 12 <= buf.Length && op + length + LASTLITERALS <= buf.Length && length >= MINMATCH
    requires match' <= op
    requires offset == 0 ==> match' == op
    requires offset > 0 ==> op - offset <= match' && op + 8 - match' == m * offset
    requires Repeats(buf[..], op, op + 8, offset)
    modifies buf
    ensures Repeats(buf[..], op, op + length, offset)
    ensures buf[..op + 8] == old(buf[..op + 8])
  {
    var limit := buf.Length - 7;
    var d, s := op + 8, match';
    if d < limit {
      WildCopyMatch(buf, d, s, limit, 8, op, offset, m);
      s := s + (limit - d);
      d := limit;
    }
    while d < op + length
      invariant op + 8 <= d <= buf.Length && d - s == op + 8 - match' && s >= match'
      invariant Repeats(buf[..], op, d, offset)
      invariant buf[..op + 8] == old(buf[..op + 8])
    {
      ghost var a := buf[..];
      buf[d] := buf[s];
      StripeRepeats(a, buf[..], op, d, s, 1, offset, m);
      assert buf[..op + 8] == a[..op + 8];
      d, s := d + 1, s + 1;
    }
  }
}
