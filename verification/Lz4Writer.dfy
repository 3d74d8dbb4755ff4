/**
 * The encoder's output side: how token, lengths, literals and offset are stored, with the
 * stores that reach past the final position (8-byte literal stripes, 4-byte runs of 255).
 */
module Lz4Writer {
  import opened Bytes
  import opened Lz4Format
  import opened Lz4Copies

  lemma LengthBytesStep(n: nat)
    ensures n < 255 ==> LengthBytes(n) == [n]
    ensures n >= 255 ==> LengthBytes(n) == [255] + LengthBytes(n - 255)
  {
  }

  /** What is still to be written of a length, after the bytes `done`. */
  ghost predicate LengthLeft(all: seq<byte>, done: seq<byte>, left: nat) {
    all == done + LengthBytes(left)
  }

  lemma LengthOneMore(all: seq<byte>, done: seq<byte>, left: nat)
    requires LengthLeft(all, done, left) && left >= 255
    ensures LengthLeft(all, done + [255], left - 255)
  {
    LengthBytesStep(left);
    assert done + ([255] + LengthBytes(left - 255)) == done + [255] + LengthBytes(left - 255);
  }

  /** Literal lengths are written one byte at a time. */
  method WriteLength(dst: array<byte>, op0: nat, len0: nat) returns (op: nat)
    requires op0 + |LengthBytes(len0)| <= dst.Length
    modifies dst
    ensures op == op0 + |LengthBytes(len0)|
    ensures dst[..op] == old(dst[..op0]) + LengthBytes(len0)
  {
    hide LengthBytes;
    ghost var before := dst[..op0];
    ghost var all := before + LengthBytes(len0);
    op := op0;
    var len: nat := len0;
    while len >= 255
      invariant op0 <= op && len <= len0 && op + |LengthBytes(len)| == |all| <= dst.Length
      invariant LengthLeft(all, dst[..op], len)
    {
      LengthOneMore(all, dst[..op], len);
      ghost var done := dst[..op];
      dst[op] := 255;
      op := op + 1;
      assert dst[..op] == done + [255];
      len := len - 255;
    }
    LengthBytesStep(len);
    ghost var done := dst[..op];
    dst[op] := len;
    op := op + 1;
    assert dst[..op] == done + [len as byte];
  }

  method Write32(dst: array<byte>, op: nat, b: byte)
    requires op + 4 <= dst.Length
    modifies dst
    ensures dst[op] == dst[op + 1] == dst[op + 2] == dst[op + 3] == b
    ensures forall k {:trigger dst[k]} :: 0 <= k < dst.Length && !(op <= k < op + 4) ==> dst[k] == old(dst[k])
  {
    dst[op], dst[op + 1], dst[op + 2], dst[op + 3] := b, b, b, b;
  }

  lemma LengthSomeMore(all: seq<byte>, done: seq<byte>, left: nat, k: nat, done': seq<byte>)
    requires LengthLeft(all, done, left) && k <= 4 && 255 * k <= left
    requires done' == done + Fill(255, k)
    ensures LengthLeft(all, done', left - 255 * k)
    decreases k
  {
    hide LengthLeft;
    if k == 0 {
      assert done' == done;
    } else {
      LengthSomeMore(all, done, left, k - 1, done + Fill(255, k - 1));
      LengthOneMore(all, done + Fill(255, k - 1), left - 255 * (k - 1));
      assert done' == done + Fill(255, k - 1) + [255];
    }
  }

  /**
   * Match lengths are written as runs of four 255s that are stored ahead of the position,
   * which then moves by as many of them as are needed: up to three bytes more are stored.
   */
  method WriteMatchLength(dst: array<byte>, op0: nat, len0: nat) returns (op: nat)
    requires op0 + |LengthBytes(len0)| + 3 <= dst.Length
    modifies dst
    ensures op == op0 + |LengthBytes(len0)|
    ensures dst[..op] == old(dst[..op0]) + LengthBytes(len0)
  {
    hide LengthBytes, LengthLeft;
    ghost var all := dst[..op0] + LengthBytes(len0);
    assert LengthLeft(all, dst[..op0], len0) by { Begin(all, dst[..op0], len0); }
    op := op0;
    var len: nat := len0;
    ghost var done := dst[..op];
    Write32(dst, op, 255);
    assert dst[..op] == done;
    while len >= 4 * 255
      invariant op0 <= op && op + |LengthBytes(len)| == |all| && |all| + 3 <= dst.Length
      invariant dst[op] == dst[op + 1] == dst[op + 2] == dst[op + 3] == 255
      invariant LengthLeft(all, dst[..op], len)
      decreases len
    {
      done := dst[..op];
      LengthSomeMore(all, done, len, 4, done + Fill(255, 4));
      assert dst[..op + 4] == done + Fill(255, 4);
      op := op + 4;
      done := dst[..op];
      Write32(dst, op, 255);
      assert dst[..op] == done;
      len := len - 4 * 255;
    }
    done := dst[..op];
    ghost var k := len / 255;
    LengthSomeMore(all, done, len, k, done + Fill(255, k));
    assert dst[..op + k] == done + Fill(255, k);
    op := op + len / 255;
    done := dst[..op];
    dst[op] := len % 255;
    op := op + 1;
    assert dst[..op] == done + [(len % 255) as byte];
    End(all, done, len % 255);
  }

  lemma Begin(all: seq<byte>, done: seq<byte>, left: nat)
    requires all == done + LengthBytes(left)
    ensures LengthLeft(all, done, left)
  {
  }

  lemma End(all: seq<byte>, done: seq<byte>, left: nat)
    requires LengthLeft(all, done, left) && left < 255
    ensures all == done + [left]
  {
  }

  // ---------------------------------------------------------------- a run of literals

  /** Token (low nibble 0) and literal length; the literals are still to be copied. */
  method WriteRunHeader(dst: array<byte>, token: nat, run: nat) returns (op: nat)
    requires token + 1 + |Extension(run)| <= dst.Length
    modifies dst
    ensures op == token + 1 + |Extension(run)|
    ensures dst[..op] == old(dst[..token]) + ([16 * Nibble(run)] + Extension(run))
  {
    hide LengthBytes;
    ghost var before := dst[..token];
    op := token + 1;
    if run >= NIBBLE_MAX {
      dst[token] := 16 * NIBBLE_MAX;
      ghost var e := dst[..op];
      assert e == before + [240];
      op := WriteLength(dst, op, run - NIBBLE_MAX);
      assert dst[..op] == before + ([240] + LengthBytes(run - NIBBLE_MAX));
    } else {
      dst[token] := 16 * run;
      assert dst[..op] == before + ([(16 * run) as byte] + []);
    }
  }

  /** Literals of a sequence, in 8-byte stripes: up to seven bytes past them are stored, and read. */
  method WriteLiterals(dst: array<byte>, token: nat, src: seq<byte>, anchor: nat, ip: nat) returns (op: nat)
    requires anchor <= ip && ip + 8 <= |src|
    requires token + |PrintLiterals(src[anchor..ip], 0)| + (if anchor == ip then 8 else 7) <= dst.Length
    modifies dst
    ensures op == token + |PrintLiterals(src[anchor..ip], 0)|
    ensures dst[..op] == old(dst[..token]) + PrintLiterals(src[anchor..ip], 0)
  {
    hide Extension, Nibble;
    op := WriteRunHeader(dst, token, ip - anchor);
    ghost var e := dst[..op];
    WildCopyIn(dst, op, src, anchor, op + (ip - anchor), 8);
    assert dst[..op + (ip - anchor)] == e + src[anchor..ip];
    op := op + (ip - anchor);
  }

  /** The last literals, copied exactly. */
  method WriteLastLiterals(dst: array<byte>, token: nat, src: seq<byte>, anchor: nat) returns (op: nat)
    requires anchor <= |src|
    requires token + |PrintLiterals(src[anchor..], 0)| <= dst.Length
    modifies dst
    ensures op == token + |PrintLiterals(src[anchor..], 0)|
    ensures dst[..op] == old(dst[..token]) + PrintLiterals(src[anchor..], 0)
  {
    hide Extension, Nibble;
    op := WriteRunHeader(dst, token, |src| - anchor);
    ghost var e := dst[..op];
    MemcpyIn(dst, op, src, anchor, |src| - anchor);
    op := op + (|src| - anchor);
    assert dst[..op] == e + src[anchor..];
  }

  // ---------------------------------------------------------------- a match

  method WriteOffset(dst: array<byte>, op0: nat, offset: nat) returns (op: nat)
    requires op0 + 2 <= dst.Length && offset < 65536
    modifies dst
    ensures op == op0 + 2 && dst[..op] == old(dst[..op0]) + LittleEndian16(offset)
  {
    ghost var e := dst[..op0];
    dst[op0], dst[op0 + 1] := offset % 256, offset / 256;
    op := op0 + 2;
    assert dst[..op] == e + LittleEndian16(offset);
  }

  /** Adds the match length to a token whose low nibble is zero, and writes its extension. */
  method WriteMatchCode(dst: array<byte>, token: nat, op0: nat, code: nat) returns (op: nat)
    requires token < op0 <= dst.Length && dst[token] % 16 == 0
    requires op0 + |Extension(code)| + 3 <= dst.Length
    modifies dst
    ensures op == op0 + |Extension(code)|
    ensures dst[..op] == old(dst[..op0])[token := old(dst[token]) + Nibble(code)] + Extension(code)
  {
    hide LengthBytes;
    ghost var e := dst[..op0];
    if code >= NIBBLE_MAX {
      dst[token] := dst[token] + NIBBLE_MAX;
      assert dst[..op0] == e[token := e[token] + Nibble(code)];
      op := WriteMatchLength(dst, op0, code - NIBBLE_MAX);
    } else {
      dst[token] := dst[token] + code;
      op := op0;
      assert dst[..op0] == e[token := e[token] + Nibble(code)];
    }
  }

  /** The bytes of a sequence, assembled from a literal run whose token had low nibble 0. */
  lemma SequenceAssembled(before: seq<byte>, q: Sequence, e: seq<byte>)
    requires Printable(q)
    requires e == before + PrintLiterals(q.literals, 0) + LittleEndian16(q.offset)
    ensures |before| < |e| && e[|before|] == 16 * Nibble(|q.literals|)
    ensures e[|before| := 16 * Nibble(|q.literals|) + Nibble(q.matchLength - MINMATCH)]
              + Extension(q.matchLength - MINMATCH)
         == before + PrintSequence(q)
  {
    hide Extension, Nibble;
    var low := Nibble(q.matchLength - MINMATCH);
    var rest := Extension(|q.literals|) + q.literals;
    var h: byte, t: byte := 16 * Nibble(|q.literals|), 16 * Nibble(|q.literals|) + low;
    assert PrintLiterals(q.literals, 0) == [h] + rest;
    assert PrintLiterals(q.literals, low) == [t] + rest;
    assert e == before + [h] + (rest + LittleEndian16(q.offset));
    assert e[|before| := t] == before + [t] + (rest + LittleEndian16(q.offset));
    assert before + [t] + (rest + LittleEndian16(q.offset))
      == before + (PrintLiterals(q.literals, low) + LittleEndian16(q.offset));
  }
}
