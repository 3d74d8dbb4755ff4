/**
 * The LZ4 block format: its abstract syntax, its byte syntax, the meaning of a
 * block, and the end-of-block restrictions that let a decoder copy in wide strides.
 *
 * `Decode` is the reference decoder: it reads a block byte by byte with no
 * capacity and no strides. It is split at the points where the production decoder has
 * labels, so that "what remains to be done" can be said at each label.
 */
module Lz4Format {
  import opened Bytes

  const MINMATCH := 4
  const LASTLITERALS := 5
  const MFLIMIT := 12

  /** Both nibbles of a token saturate at 15 and continue in extension bytes. */
  const NIBBLE_MAX := 15

  // ---------------------------------------------------------------- meaning

  /** A run of literals followed by a match of `matchLength` bytes, `offset` bytes back. */
  datatype Sequence = Sequence(literals: seq<byte>, offset: nat, matchLength: nat)

  /** Sequences, then the literals that end the block. */
  datatype Block = Block(sequences: seq<Sequence>, lastLiterals: seq<byte>)

  /**
   * Forward byte-by-byte copy: each new byte repeats the one `offset` back, which may
   * itself be new. Offset 0 is not in the format; the decoders fill with zeros.
   */
  function CopyMatch(out: seq<byte>, offset: nat, n: nat): (r: seq<byte>)
    requires offset <= |out|
    ensures |r| == |out| + n
  {
    if n == 0 then out
    else
      var r := CopyMatch(out, offset, n - 1);
      r + [if offset == 0 then 0 else r[|r| - offset]]
  }

  /** The byte at `k` is the one `offset` back (zero, for offset 0). */
  ghost predicate RepeatsAt(s: seq<byte>, k: nat, offset: nat)
    requires offset <= k < |s|
  {
    s[k] == if offset == 0 then 0 else s[k - offset]
  }

  /** `s[lo..hi]` repeats with distance `offset`. */
  ghost predicate Repeats(s: seq<byte>, lo: nat, hi: nat, offset: nat)
    requires offset <= lo <= hi <= |s|
  {
    forall k :: lo <= k < hi ==> RepeatsAt(s, k, offset)
  }

  lemma {:induction false} CopyMatchRepeats(out: seq<byte>, offset: nat, n: nat)
    requires offset <= |out|
    ensures out <= CopyMatch(out, offset, n)
    ensures Repeats(CopyMatch(out, offset, n), |out|, |out| + n, offset)
  {
    if n > 0 {
      CopyMatchRepeats(out, offset, n - 1);
      var r, s := CopyMatch(out, offset, n - 1), CopyMatch(out, offset, n);
      forall k | |out| <= k < |out| + n ensures RepeatsAt(s, k, offset) {
        assert k < |r| ==> RepeatsAt(r, k, offset);
      }
    }
  }

  /** Repetition determines the copied bytes: however a buffer was filled, it holds the match. */
  lemma {:induction false} RepeatsIsCopyMatch(s: seq<byte>, lo: nat, hi: nat, offset: nat)
    requires offset <= lo <= hi <= |s|
    requires Repeats(s, lo, hi, offset)
    ensures s[..hi] == CopyMatch(s[..lo], offset, hi - lo)
    decreases hi
  {
    if lo < hi {
      RepeatsIsCopyMatch(s, lo, hi - 1, offset);
      assert s[..hi] == s[..hi - 1] + [s[hi - 1]];
      assert RepeatsAt(s, hi - 1, offset);
    }
  }

  /** The output after the given sequences. */
  function Expand(qs: seq<Sequence>): (r: Option<seq<byte>>)
  {
    if qs == [] then Some([])
    else
      var q := qs[|qs| - 1];
      var before := Expand(qs[..|qs| - 1]);
      if before.None? || q.offset > |before.value + q.literals| then None
      else Some(CopyMatch(before.value + q.literals, q.offset, q.matchLength))
  }

  /** The bytes a block stands for; `None` when an offset reaches before the start. */
  function Meaning(b: Block): (r: Option<seq<byte>>) {
    var out := Expand(b.sequences);
    if out.None? then None else Some(out.value + b.lastLiterals)
  }

  /**
   * The format's parsing restrictions: every offset is in range, every match starts at
   * least 12 bytes before the end of the output and stops at least 5 bytes before it.
   */
  ghost predicate Conforming(b: Block)
  {
    && Meaning(b).Some?
    && forall k :: 0 <= k < |b.sequences| ==> ConformingAt(b.sequences, k, |Meaning(b).value|)
  }

  ghost predicate ConformingAt(qs: seq<Sequence>, k: nat, size: nat)
    requires k < |qs|
  {
    var q, before := qs[k], Expand(qs[..k]);
    && before.Some?
    && 1 <= q.offset <= 65535
    && q.offset <= |before.value| + |q.literals|
    && q.matchLength >= MINMATCH
    && |before.value| + |q.literals| + MFLIMIT <= size
    && |before.value| + |q.literals| + q.matchLength + LASTLITERALS <= size
  }

  // ---------------------------------------------------------------- byte syntax

  /** Extension bytes: 255s, then a byte below 255. */
  function LengthBytes(n: nat): (r: seq<byte>)
    ensures |r| == n / 255 + 1
  {
    if n < 255 then [n] else [255] + LengthBytes(n - 255)
  }

  function Nibble(n: nat): (r: nat)
    ensures r <= NIBBLE_MAX
  {
    if n < NIBBLE_MAX then n else NIBBLE_MAX
  }

  function Extension(n: nat): (r: seq<byte>)
    ensures |r| == if n < NIBBLE_MAX then 0 else (n - NIBBLE_MAX) / 255 + 1
  {
    if n < NIBBLE_MAX then [] else LengthBytes(n - NIBBLE_MAX)
  }

  /** The value of two bytes, low byte first. */
  function Word16(lo: byte, hi: byte): (r: nat) {
    lo as int + 256 * hi as int
  }

  function LittleEndian16(v: nat): (r: seq<byte>)
    requires v < 65536
    ensures |r| == 2 && Word16(r[0], r[1]) == v
  {
    [v % 256, v / 256]
  }

  /** Token (low nibble given), literal length extension and literals. */
  function PrintLiterals(literals: seq<byte>, low: nat): (r: seq<byte>)
    requires low <= NIBBLE_MAX
    ensures |r| == 1 + |Extension(|literals|)| + |literals|
  {
    [16 * Nibble(|literals|) + low] + Extension(|literals|) + literals
  }

  predicate Printable(q: Sequence) {
    q.offset < 65536 && q.matchLength >= MINMATCH
  }

  function PrintSequence(q: Sequence): (r: seq<byte>)
    requires Printable(q)
  {
    PrintLiterals(q.literals, Nibble(q.matchLength - MINMATCH))
    + LittleEndian16(q.offset)
    + Extension(q.matchLength - MINMATCH)
  }

  function PrintAll(qs: seq<Sequence>): (r: seq<byte>)
    requires forall q :: q in qs ==> Printable(q)
  {
    if qs == [] then []
    else PrintAll(qs[..|qs| - 1]) + PrintSequence(qs[|qs| - 1])
  }

  function Print(b: Block): (r: seq<byte>)
    requires forall q :: q in b.sequences ==> Printable(q)
  {
    PrintAll(b.sequences) + PrintLiterals(b.lastLiterals, 0)
  }

  // ---------------------------------------------------------------- reference decoder

  /** The value of extension bytes at `ip` and the position after them. */
  function ReadLength(src: seq<byte>, ip: nat): (r: Option<(nat, nat)>)
    requires ip <= |src|
    ensures r.Some? ==> ip < r.value.1 <= |src|
    decreases |src| - ip
  {
    if ip == |src| then None
    else if src[ip] != 255 then Some((src[ip], ip + 1))
    else
      var r := ReadLength(src, ip + 1);
      if r.None? then None else Some((255 + r.value.0, r.value.1))
  }

  /** A length whose token nibble is `nibble`. */
  function ReadCount(src: seq<byte>, nibble: nat, ip: nat): (r: Option<(nat, nat)>)
    requires ip <= |src|
    ensures r.Some? ==> ip <= r.value.1 <= |src|
  {
    if nibble != NIBBLE_MAX then Some((nibble, ip))
    else
      var r := ReadLength(src, ip);
      if r.None? then None else Some((NIBBLE_MAX + r.value.0, r.value.1))
  }

  /** Decoding `src` from the token at `ip`, with `out` already produced. */
  function Decode(src: seq<byte>, ip: nat, out: seq<byte>): (r: Option<seq<byte>>)
    requires ip <= |src|
    decreases |src| - ip, 0
  {
    if ip == |src| then None
    else
      var n := ReadCount(src, src[ip] / 16, ip + 1);
      if n.None? then None
      else DecodeLiterals(src, src[ip], n.value.0, n.value.1, out)
  }

  /** ... from `n` literals at `ip`; a block ends with literals that exhaust the input. */
  function DecodeLiterals(src: seq<byte>, token: byte, n: nat, ip: nat, out: seq<byte>): (r: Option<seq<byte>>)
    requires ip <= |src|
    decreases |src| - ip, 4
  {
    if ip + n > |src| then None
    else if ip + n == |src| then Some(out + src[ip..])
    else DecodeOffset(src, token, ip + n, out + src[ip..ip + n])
  }

  /** ... from the two offset bytes. */
  function DecodeOffset(src: seq<byte>, token: byte, ip: nat, out: seq<byte>): (r: Option<seq<byte>>)
    requires ip <= |src|
    decreases |src| - ip, 3
  {
    if ip + 2 > |src| then None
    else DecodeMatchLength(src, token % 16, Word16(src[ip], src[ip + 1]), ip + 2, out)
  }

  /** ... from the match length extension. */
  function DecodeMatchLength(src: seq<byte>, nibble: nat, offset: nat, ip: nat, out: seq<byte>): (r: Option<seq<byte>>)
    requires ip <= |src|
    decreases |src| - ip, 2
  {
    var n := ReadCount(src, nibble, ip);
    if n.None? then None
    else DecodeMatch(src, offset, n.value.0 + MINMATCH, n.value.1, out)
  }

  /** ... from the copy of `n` match bytes. */
  function DecodeMatch(src: seq<byte>, offset: nat, n: nat, ip: nat, out: seq<byte>): (r: Option<seq<byte>>)
    requires ip <= |src|
    decreases |src| - ip, 1
  {
    if offset > |out| then None
    else Decode(src, ip, CopyMatch(out, offset, n))
  }

  // ---------------------------------------------------------------- restrictions on bytes

  /** The restrictions, read off the bytes: `pos` bytes are out, the block makes `size`. */
  ghost predicate Obeys(src: seq<byte>, ip: nat, pos: nat, size: nat)
    requires ip <= |src|
    decreases |src| - ip, 0
  {
    && ip < |src|
    && var n := ReadCount(src, src[ip] / 16, ip + 1);
       n.Some? && ObeysLiterals(src, src[ip], n.value.0, n.value.1, pos, size)
  }

  ghost predicate ObeysLiterals(src: seq<byte>, token: byte, n: nat, ip: nat, pos: nat, size: nat)
    requires ip <= |src|
    decreases |src| - ip, 4
  {
    && ip + n <= |src|
    && if ip + n == |src| then pos + n == size
       else pos + n + MFLIMIT <= size && ObeysOffset(src, token, ip + n, pos + n, size)
  }

  ghost predicate ObeysOffset(src: seq<byte>, token: byte, ip: nat, pos: nat, size: nat)
    requires ip <= |src|
    decreases |src| - ip, 3
  {
    && ip + 2 <= |src|
    && ObeysMatchLength(src, token % 16, Word16(src[ip], src[ip + 1]), ip + 2, pos, size)
  }

  ghost predicate ObeysMatchLength(src: seq<byte>, nibble: nat, offset: nat, ip: nat, pos: nat, size: nat)
    requires ip <= |src|
    decreases |src| - ip, 2
  {
    var n := ReadCount(src, nibble, ip);
    n.Some? && ObeysMatch(src, offset, n.value.0 + MINMATCH, n.value.1, pos, size)
  }

  ghost predicate ObeysMatch(src: seq<byte>, offset: nat, n: nat, ip: nat, pos: nat, size: nat)
    requires ip <= |src|
    decreases |src| - ip, 1
  {
    && 1 <= offset <= pos
    && pos + n + LASTLITERALS <= size
    && Obeys(src, ip, pos + n, size)
  }

  /** `src` is a conforming block of `size` decoded bytes. */
  ghost predicate WellFormed(src: seq<byte>, size: nat)
  {
    Obeys(src, 0, 0, size)
  }

  /** Enough input is left for one more token and the five last literals. */
  lemma {:induction false} ObeysRoom(src: seq<byte>, ip: nat, pos: nat, size: nat)
    requires ip <= |src|
    requires Obeys(src, ip, pos, size) && pos + LASTLITERALS <= size
    ensures ip + 1 + LASTLITERALS <= |src|
    decreases |src| - ip
  {
    var n := ReadCount(src, src[ip] / 16, ip + 1);
    assert ObeysLiterals(src, src[ip], n.value.0, n.value.1, pos, size);
    var p := n.value.1 + n.value.0;
    if p != |src| {
      assert ObeysOffset(src, src[ip], p, pos + n.value.0, size);
      assert ObeysMatchLength(src, src[ip] % 16, Word16(src[p], src[p + 1]), p + 2, pos + n.value.0, size);
      var m := ReadCount(src, src[ip] % 16, p + 2);
      assert ObeysMatch(src, Word16(src[p], src[p + 1]), m.value.0 + MINMATCH, m.value.1, pos + n.value.0, size);
      ObeysRoom(src, m.value.1, pos + n.value.0 + m.value.0 + MINMATCH, size);
    }
  }

  /** A conforming block decodes, and to `size` bytes. */
  lemma {:induction false} ObeysDecodes(src: seq<byte>, ip: nat, out: seq<byte>, size: nat)
    requires ip <= |src|
    requires Obeys(src, ip, |out|, size)
    ensures Decode(src, ip, out).Some? && |Decode(src, ip, out).value| == size
    decreases |src| - ip
  {
    var n := ReadCount(src, src[ip] / 16, ip + 1);
    assert ObeysLiterals(src, src[ip], n.value.0, n.value.1, |out|, size);
    var p := n.value.1 + n.value.0;
    if p != |src| {
      assert ObeysOffset(src, src[ip], p, |out| + n.value.0, size);
      var offset := Word16(src[p], src[p + 1]);
      assert ObeysMatchLength(src, src[ip] % 16, offset, p + 2, |out| + n.value.0, size);
      var m := ReadCount(src, src[ip] % 16, p + 2);
      assert ObeysMatch(src, offset, m.value.0 + MINMATCH, m.value.1, |out| + n.value.0, size);
      var out1 := out + src[n.value.1..p];
      ObeysDecodes(src, m.value.1, CopyMatch(out1, offset, m.value.0 + MINMATCH), size);
      assert DecodeMatch(src, offset, m.value.0 + MINMATCH, m.value.1, out1).Some?;
      assert DecodeMatchLength(src, src[ip] % 16, offset, p + 2, out1).Some?;
      assert DecodeOffset(src, src[ip], p, out1).Some?;
    }
  }
}
