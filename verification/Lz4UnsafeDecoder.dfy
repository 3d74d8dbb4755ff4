/**
 * LZ4_decompress_unsafe_generic, without dictionary: the decoder kept for maintenance. It
 * copies byte by byte, knows the decoded size, and trusts its input.
 */
module Lz4UnsafeDecoder {
  import opened Bytes
  import opened Lz4Format
  import opened Lz4Copies
  import Lz4Decoder

  method ReadLongLengthNoCheck(src: seq<byte>, start: nat) returns (length: nat, ip: nat)
    requires start <= |src| && ReadLength(src, start).Some?
    ensures ReadLength(src, start) == Some((length, ip))
  {
    var b := src[start];
    ip, length := start + 1, b;
    while b == 255
      invariant start < ip <= |src|
      invariant b == 255 ==> ReadLength(src, ip).Some?
                             && ReadLength(src, start)
                                == Some((length + ReadLength(src, ip).value.0, ReadLength(src, ip).value.1))
      invariant b != 255 ==> ReadLength(src, start) == Some((length, ip))
      decreases |src| - ip, b
    {
      b := src[ip];
      ip := ip + 1;
      length := length + b;
    }
  }

  method ReadCountNoCheck(src: seq<byte>, nibble: nat, start: nat) returns (n: nat, ip: nat)
    requires start <= |src| && ReadCount(src, nibble, start).Some?
    ensures ReadCount(src, nibble, start) == Some((n, ip))
  {
    n, ip := nibble, start;
    if n == NIBBLE_MAX {
      var more;
      more, ip := ReadLongLengthNoCheck(src, start);
      n := n + more;
    }
  }

  /** The slow copy, one byte after the other. */
  method CopyMatchBytes(dst: array<byte>, op: nat, offset: nat, n: nat)
    requires 1 <= offset <= op && op + n <= dst.Length
    modifies dst
    ensures dst[..op] == old(dst[..op]) && Repeats(dst[..], op, op + n, offset)
  {
    var u := 0;
    while u < n
      invariant u <= n && dst[..op] == old(dst[..op])
      invariant Repeats(dst[..], op, op + u, offset)
    {
      ghost var a := dst[..];
      dst[op + u] := dst[op - offset + u];
      StripeRepeats(a, dst[..], op, op + u, op + u - offset, 1, offset, 1);
      assert dst[..op] == a[..op];
      u := u + 1;
    }
  }

  /** One literal run; `done` when it reaches the decoded size. The errors cannot occur. */
  method Literals(src: seq<byte>, dst: array<byte>, ip0: nat, op0: nat, token: byte, n: nat,
                  ghost goal: Option<seq<byte>>) returns (ip: nat, op: nat, ok: bool)
    requires ip0 <= |src| && op0 <= dst.Length
    requires goal == DecodeLiterals(src, token, n, ip0, dst[..op0])
    requires ObeysLiterals(src, token, n, ip0, op0, dst.Length)
    modifies dst
    ensures ok && ip == ip0 + n <= |src| && op == op0 + n <= dst.Length
    ensures op == dst.Length ==> goal == Some(dst[..]) && ip == |src|
    ensures op < dst.Length ==>
              goal == DecodeOffset(src, token, ip, dst[..op]) && ObeysOffset(src, token, ip, op, dst.Length)
  {
    hide DecodeOffset, ObeysOffset;
    ip, op, ok := ip0, op0, true;
    if dst.Length - op < n {
      ok := false;
      return;
    }
    ghost var a := dst[..];
    MemcpyIn(dst, op, src, ip, n);
    Lz4Decoder.LiteralsInPlace(src, n, ip, a, dst[..], op);
    op, ip := op + n, ip + n;
    if dst.Length - op < MFLIMIT && op != dst.Length {
      ok := false;
    }
    if ip == |src| {
      assert src[ip0..] == src[ip0..ip] && dst[..op] == dst[..];
    }
  }

  /** One match. */
  method Match(src: seq<byte>, dst: array<byte>, ip0: nat, op0: nat, token: byte,
               ghost goal: Option<seq<byte>>) returns (ip: nat, op: nat, ok: bool)
    requires ip0 <= |src| && op0 <= dst.Length
    requires goal == DecodeOffset(src, token, ip0, dst[..op0])
    requires ObeysOffset(src, token, ip0, op0, dst.Length)
    modifies dst
    ensures ok && ip0 < ip <= |src| && op <= dst.Length
    ensures goal == Decode(src, ip, dst[..op]) && Obeys(src, ip, op, dst.Length)
  {
    hide Decode, Obeys, Repeats, ReadCount;
    var offset := Word16(src[ip0], src[ip0 + 1]);
    ip, op, ok := ip0 + 2, op0, true;
    ghost var a := dst[..];
    assert ObeysMatchLength(src, token % 16, offset, ip, op, dst.Length);
    var n;
    n, ip := ReadCountNoCheck(src, token % 16, ip);
    n := n + MINMATCH;
    assert goal == DecodeMatch(src, offset, n, ip, a[..op]);
    assert ObeysMatch(src, offset, n, ip, op, dst.Length);
    if dst.Length - op < n || offset > op {
      ok := false;
      return;
    }
    CopyMatchBytes(dst, op, offset, n);
    Lz4Decoder.MatchInPlace(src, offset, n, ip, a, dst[..], op, goal);
    op := op + n;
    if dst.Length - op < LASTLITERALS {
      ok := false;
    }
  }

  /**
   * On a conforming block whose decoded size is the size of the buffer, the byte-by-byte
   * decoder consumes the whole input, and leaves what the reference decoder makes of it.
   */
  method DecompressUnsafe(src: seq<byte>, dst: array<byte>) returns (r: int)
    requires WellFormed(src, dst.Length)
    modifies dst
    ensures r == |src| && Decode(src, 0, []) == Some(dst[..])
  {
    hide Obeys, Decode, DecodeOffset, ObeysOffset, DecodeLiterals, ObeysLiterals;
    ghost var goal := Decode(src, 0, []);
    assert dst[..0] == [];
    var ip: nat, op: nat := 0, 0;
    while true
      invariant ip <= |src| && op <= dst.Length
      invariant goal == Decode(src, ip, dst[..op])
      invariant Obeys(src, ip, op, dst.Length)
      decreases |src| - ip
    {
      ObeysToken(src, ip, dst[..op], dst.Length);
      var token := src[ip];
      var n, ok;
      n, ip := ReadCountNoCheck(src, token / 16, ip + 1);
      ip, op, ok := Literals(src, dst, ip, op, token, n, goal);
      if !ok {
        return -1;
      }
      if op == dst.Length {
        break;
      }
      ip, op, ok := Match(src, dst, ip, op, token, goal);
      if !ok {
        return -1;
      }
    }
    r := ip;
  }

  lemma ObeysToken(src: seq<byte>, ip: nat, out: seq<byte>, size: nat)
    requires ip <= |src| && Obeys(src, ip, |out|, size)
    ensures ip < |src| && ReadCount(src, src[ip] / 16, ip + 1).Some?
    ensures var n := ReadCount(src, src[ip] / 16, ip + 1).value;
            && Decode(src, ip, out) == DecodeLiterals(src, src[ip], n.0, n.1, out)
            && ObeysLiterals(src, src[ip], n.0, n.1, |out|, size)
  {
    hide DecodeLiterals, ObeysLiterals;
  }

  /**
   * The two decoders agree: a conforming block is accepted by both, and the fast one
   * leaves the same bytes as the byte-by-byte one.
   */
  method DecodersAgree(src: seq<byte>, dst: array<byte>, reference: array<byte>) returns (r: int, n: int)
    requires dst.Length > 0 && reference.Length <= dst.Length && dst != reference
    requires WellFormed(src, reference.Length)
    modifies dst, reference
    ensures r == reference.Length && n == |src|
    ensures dst[..r] == reference[..]
  {
    ObeysDecodes(src, 0, [], reference.Length);
    r := Lz4Decoder.Decompress(src, dst);
    n := DecompressUnsafe(src, reference);
  }
}
