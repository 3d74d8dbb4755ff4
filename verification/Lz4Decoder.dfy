/**
 * LZ4_decompress_safe: the block decoder with its fast loop, its two-stage shortcut, its
 * safe loop, and the jumps from the first into the middle of the last.
 *
 * Every label is a method on the cursor (the decoder's local variables); `Decompress`
 * dispatches on labels. `At` says what holds at each label: how the rest of the input
 * continues the reference decoder, and, for conforming blocks, that no error can follow.
 */
module Lz4Decoder {
  import opened Bytes
  import opened Lz4Format
  import opened Lz4Copies

  const FASTLOOP_SAFE_DISTANCE := 64

  datatype Label =
    | FastDecode            // head of the fast loop
    | FastMatch             // in the fast loop, literals copied
    | SafeDecode            // head of the safe loop
    | SafeLiteralCopyEarly  // token read, literal length not
    | SafeLiteralCopy       // literal length read
    | SafeMatchLength  // offset read, match length not
    | SafeMatch        // match length read
    | EndOfBlock
    | OutputError

  datatype Cursor = Cursor(at: Label, ip: nat, op: nat, token: byte, length: nat, offset: nat)

  /**
   * `goal` is what the reference decoder makes of the whole input; `size` is the decoded
   * size of a conforming block that fits the buffer, when `ok`.
   */
  ghost predicate At(c: Cursor, src: seq<byte>, out: seq<byte>, goal: Option<seq<byte>>, ok: bool, size: nat)
  {
    && c.ip <= |src| && c.op <= |out|
    && (ok ==> size <= |out|)
    && match c.at
       case FastDecode =>
         && c.ip < |src| && c.op + FASTLOOP_SAFE_DISTANCE <= |out|
         && goal == Decode(src, c.ip, out[..c.op])
         && (ok ==> Obeys(src, c.ip, c.op, size))
       case FastMatch =>
         && c.ip + 3 <= |src| && c.op + 32 <= |out|
         && goal == DecodeOffset(src, c.token, c.ip, out[..c.op])
         && (ok ==> ObeysOffset(src, c.token, c.ip, c.op, size))
       case SafeDecode =>
         && c.ip < |src|
         && goal == Decode(src, c.ip, out[..c.op])
         && (ok ==> Obeys(src, c.ip, c.op, size))
       case SafeLiteralCopyEarly =>
         && c.ip > 0 && c.token == src[c.ip - 1] && c.length == c.token / 16
         && goal == Decode(src, c.ip - 1, out[..c.op])
         && (ok ==> Obeys(src, c.ip - 1, c.op, size))
       case SafeLiteralCopy =>
         && goal == DecodeLiterals(src, c.token, c.length, c.ip, out[..c.op])
         && (ok ==> ObeysLiterals(src, c.token, c.length, c.ip, c.op, size))
       case SafeMatchLength =>
         && c.ip < |src| && c.op + MFLIMIT <= |out|
         && goal == DecodeMatchLength(src, c.length, c.offset, c.ip, out[..c.op])
         && (ok ==> ObeysMatchLength(src, c.length, c.offset, c.ip, c.op, size))
       case SafeMatch =>
         && c.ip < |src| && c.op + MFLIMIT <= |out| && c.length >= MINMATCH
         && goal == DecodeMatch(src, c.offset, c.length, c.ip, out[..c.op])
         && (ok ==> ObeysMatch(src, c.offset, c.length, c.ip, c.op, size))
       case EndOfBlock =>
         && goal == Some(out[..c.op])
         && (ok ==> c.op == size)
       case OutputError => !ok
  }

  /** Jumps that read no input go to a label of lower rank. */
  function Rank(l: Label): nat {
    match l
    case EndOfBlock => 0
    case OutputError => 0
    case FastDecode => 1
    case FastMatch => 1
    case SafeDecode => 1
    case SafeMatch => 2
    case SafeMatchLength => 3
    case SafeLiteralCopy => 4
    case SafeLiteralCopyEarly => 5
  }

  ghost predicate Progress(c: Cursor, c': Cursor) {
    c.ip <= c'.ip && (c.ip < c'.ip || Rank(c'.at) < Rank(c.at))
  }

  // ---------------------------------------------------------------- lengths

  /**
   * read_variable_length: no byte at or beyond `limit` is read. The error case is exactly
   * that the extension does not end before the limit.
   */
  method ReadVariableLength(src: seq<byte>, start: nat, limit: int) returns (ok: bool, length: nat, ip: nat)
    requires start <= |src| && limit <= |src|
    ensures start <= ip <= |src|
    ensures ok <==> ReadLength(src, start).Some? && ReadLength(src, start).value.1 <= limit
    ensures ok ==> ReadLength(src, start) == Some((length, ip))
  {
    ip, length := start, 0;
    if ip >= limit {
      ok := false;
      return;
    }
    var s := src[ip];
    ip := ip + 1;
    length := length + s;
    if s != 255 {
      ok := true;
      return;
    }
    while true
      invariant s == 255 && start < ip <= limit
      invariant ReadLength(src, start).Some? <==> ReadLength(src, ip).Some?
      invariant ReadLength(src, start).Some? ==>
                  && ReadLength(src, start).value.0 == length + ReadLength(src, ip).value.0
                  && ReadLength(src, start).value.1 == ReadLength(src, ip).value.1
      decreases limit - ip
    {
      if ip >= limit {
        ok := false;
        return;
      }
      s := src[ip];
      ip := ip + 1;
      length := length + s;
      if s != 255 {
        ok := true;
        return;
      }
    }
  }

  // ---------------------------------------------------------------- facts about the reference decoder

  /** Literals that leave input behind them are followed by an offset. */
  lemma AfterLiterals(src: seq<byte>, token: byte, n: nat, ip: nat, out: seq<byte>)
    requires ip + n + 2 <= |src|
    ensures DecodeLiterals(src, token, n, ip, out)
         == DecodeMatchLength(src, token % 16, Word16(src[ip + n], src[ip + n + 1]), ip + n + 2, out + src[ip..ip + n])
  {
    hide DecodeMatchLength;
    assert DecodeLiterals(src, token, n, ip, out) == DecodeOffset(src, token, ip + n, out + src[ip..ip + n]);
  }

  lemma AfterLiteralsObeys(src: seq<byte>, token: byte, n: nat, ip: nat, pos: nat, size: nat)
    requires ip + n + 2 <= |src| && ObeysLiterals(src, token, n, ip, pos, size)
    ensures ObeysMatchLength(src, token % 16, Word16(src[ip + n], src[ip + n + 1]), ip + n + 2, pos + n, size)
  {
    hide ObeysMatchLength;
    assert ObeysOffset(src, token, ip + n, pos + n, size);
  }

  /** A conforming non-final literal run leaves offset, token and last literals in the input. */
  lemma LiteralsRoom(src: seq<byte>, token: byte, n: nat, ip: nat, pos: nat, size: nat)
    requires ip <= |src| && ObeysLiterals(src, token, n, ip, pos, size) && ip + n != |src|
    ensures ip + n + 2 + 1 + LASTLITERALS <= |src|
    ensures pos + n + MFLIMIT <= size
  {
    hide ReadCount;
    assert ObeysOffset(src, token, ip + n, pos + n, size);
    var offset := Word16(src[ip + n], src[ip + n + 1]);
    assert ObeysMatchLength(src, token % 16, offset, ip + n + 2, pos + n, size);
    var m := ReadCount(src, token % 16, ip + n + 2).value;
    assert ObeysMatch(src, offset, m.0 + MINMATCH, m.1, pos + n, size);
    ObeysRoom(src, m.1, pos + n + m.0 + MINMATCH, size);
  }

  /** A match whose bytes are in place continues at the next token. */
  lemma MatchInPlace(src: seq<byte>, offset: nat, n: nat, ip: nat, a: seq<byte>, b: seq<byte>, op: nat,
                     goal: Option<seq<byte>>)
    requires ip <= |src| && offset <= op && op + n <= |b| && |a| == |b| && b[..op] == a[..op]
    requires Repeats(b, op, op + n, offset)
    requires goal == DecodeMatch(src, offset, n, ip, a[..op])
    ensures goal == Decode(src, ip, b[..op + n])
  {
    hide Decode, CopyMatch;
    RepeatsIsCopyMatch(b, op, op + n, offset);
  }

  lemma LiteralsInPlace(src: seq<byte>, n: nat, ip: nat, a: seq<byte>, b: seq<byte>, op: nat)
    requires ip + n <= |src| && op + n <= |b| && |a| == |b|
    requires forall k :: 0 <= k < op ==> b[k] == a[k]
    requires forall k :: op <= k < op + n ==> b[k] == src[ip + (k - op)]
    ensures b[..op + n] == a[..op] + src[ip..ip + n]
  {
  }

  lemma LiteralLengthRead(src: seq<byte>, ip: nat, out: seq<byte>, n: nat, next: nat)
    requires ip < |src| && ReadCount(src, src[ip] / 16, ip + 1) == Some((n, next))
    ensures Decode(src, ip, out) == DecodeLiterals(src, src[ip], n, next, out)
    ensures forall pos: nat, size: nat ::
              Obeys(src, ip, pos, size) ==> ObeysLiterals(src, src[ip], n, next, pos, size)
  {
    hide DecodeLiterals, ObeysLiterals;
  }

  /** A conforming long literal run ends its extension bytes before the last 15 bytes of input. */
  lemma LiteralLengthRoom(src: seq<byte>, ip: nat, pos: nat, size: nat)
    requires ip < |src| && src[ip] / 16 == NIBBLE_MAX && Obeys(src, ip, pos, size)
    ensures ReadLength(src, ip + 1).Some? && ReadLength(src, ip + 1).value.1 + NIBBLE_MAX <= |src|
  {
    hide ObeysOffset, ReadLength;
  }

  /** A conforming match extension leaves a token and the last literals in the input. */
  lemma MatchLengthRoom(src: seq<byte>, offset: nat, ip: nat, pos: nat, size: nat)
    requires ip <= |src| && ObeysMatchLength(src, NIBBLE_MAX, offset, ip, pos, size)
    ensures ReadLength(src, ip).Some? && ReadLength(src, ip).value.1 + 1 + LASTLITERALS <= |src|
  {
    hide ReadLength;
    var m := ReadCount(src, NIBBLE_MAX, ip).value;
    assert ObeysMatch(src, offset, m.0 + MINMATCH, m.1, pos, size);
    ObeysRoom(src, m.1, pos + m.0 + MINMATCH, size);
  }

  lemma MatchLengthRead(src: seq<byte>, nibble: nat, offset: nat, ip: nat, out: seq<byte>, n: nat, next: nat)
    requires ip <= |src| && ReadCount(src, nibble, ip) == Some((n, next))
    ensures DecodeMatchLength(src, nibble, offset, ip, out) == DecodeMatch(src, offset, n + MINMATCH, next, out)
    ensures forall pos: nat, size: nat ::
              ObeysMatchLength(src, nibble, offset, ip, pos, size) ==>
                  ObeysMatch(src, offset, n + MINMATCH, next, pos, size)
  {
    hide DecodeMatch, ObeysMatch;
  }

  // ---------------------------------------------------------------- the safe loop

  /**
   * Head of the safe loop. With at most 14 literals and room on both sides, 16 bytes are
   * copied for the literals, and then 18 for a match of at most 18 bytes that does not overlap.
   */
  method StepSafeDecode(src: seq<byte>, dst: array<byte>, c: Cursor,
                        ghost goal: Option<seq<byte>>, ghost ok: bool, ghost size: nat) returns (c': Cursor)
    requires c.at == SafeDecode && At(c, src, dst[..], goal, ok, size)
    modifies dst
    ensures At(c', src, dst[..], goal, ok, size) && Progress(c, c')
  {
    hide Obeys, ObeysMatchLength, ObeysMatch, DecodeMatchLength, Decode, DecodeMatch;
    var token := src[c.ip];
    var ip, length: nat := c.ip + 1, token / 16;
    if length != NIBBLE_MAX && ip < |src| - 16 && c.op <= dst.Length - 32 {
      LiteralLengthRead(src, c.ip, dst[..c.op], length, ip);
      c' := ShortcutLiterals(src, dst, Cursor(SafeLiteralCopy, ip, c.op, token, length, 0), goal, ok, size);
      if c'.length != NIBBLE_MAX && c'.offset >= 8 && c'.offset <= c'.op {
        c' := ShortcutMatch(src, dst, c', SafeDecode, goal, ok, size);
      }
    } else {
      c' := Cursor(SafeLiteralCopyEarly, ip, c.op, token, length, 0);
    }
  }

  /** First stage of the shortcut: a 16-byte stripe of literals, then the offset. */
  method ShortcutLiterals(src: seq<byte>, dst: array<byte>, c: Cursor,
                          ghost goal: Option<seq<byte>>, ghost ok: bool, ghost size: nat) returns (c': Cursor)
    requires c.at == SafeLiteralCopy && At(c, src, dst[..], goal, ok, size)
    requires c.length < NIBBLE_MAX && c.ip + 16 < |src| && c.op + 32 <= dst.Length
    modifies dst
    ensures c'.at == SafeMatchLength && At(c', src, dst[..], goal, ok, size)
    ensures c'.ip > c.ip && c'.op <= c.op + 14 && c'.length <= NIBBLE_MAX
  {
    hide ObeysLiterals, ObeysMatchLength, DecodeLiterals, DecodeMatchLength;
    ghost var a := dst[..];
    MemcpyIn(dst, c.op, src, c.ip, 16);
    LiteralsInPlace(src, c.length, c.ip, a, dst[..], c.op);
    var op, ip := c.op + c.length, c.ip + c.length;
    AfterLiterals(src, c.token, c.length, c.ip, a[..c.op]);
    if ok {
      AfterLiteralsObeys(src, c.token, c.length, c.ip, c.op, size);
    }
    c' := Cursor(SafeMatchLength, ip + 2, op, c.token, c.token % 16, Word16(src[ip], src[ip + 1]));
  }

  /** Second stage: an 18-byte stripe for a match of at most 18 bytes, offset at least 8. */
  method ShortcutMatch(src: seq<byte>, dst: array<byte>, c: Cursor, next: Label,
                       ghost goal: Option<seq<byte>>, ghost ok: bool, ghost size: nat) returns (c': Cursor)
    requires c.at == SafeMatchLength && At(c, src, dst[..], goal, ok, size)
    requires c.length < NIBBLE_MAX && 8 <= c.offset <= c.op && c.op + 18 <= dst.Length
    requires next == SafeDecode || next == FastDecode
    requires next == FastDecode ==> c.op + c.length + MINMATCH + FASTLOOP_SAFE_DISTANCE <= dst.Length
    modifies dst
    ensures c'.at == next && At(c', src, dst[..], goal, ok, size) && c'.ip == c.ip
  {
    hide DecodeMatchLength, ObeysMatchLength, DecodeMatch, Decode, Obeys, Repeats;
    var n := c.length + MINMATCH;
    ghost var a := dst[..];
    MatchLengthRead(src, c.length, c.offset, c.ip, a[..c.op], c.length, c.ip);
    ShortMatchCopy(dst, c.op, c.offset);
    ghost var b := dst[..];
    RepeatsShorter(b, c.op, c.op + n, c.op + 18, c.offset);
    MatchInPlace(src, c.offset, n, c.ip, a, b, c.op, goal);
    c' := Cursor(next, c.ip, c.op + n, 0, 0, 0);
  }

  lemma RepeatsShorter(s: seq<byte>, lo: nat, mid: nat, hi: nat, offset: nat)
    requires offset <= lo <= mid <= hi <= |s| && Repeats(s, lo, hi, offset)
    ensures Repeats(s, lo, mid, offset)
  {
  }

  method StepSafeLiteralCopyEarly(src: seq<byte>, ghost out: seq<byte>, c: Cursor,
                                  ghost goal: Option<seq<byte>>, ghost ok: bool, ghost size: nat) returns (c': Cursor)
    requires c.at == SafeLiteralCopyEarly && At(c, src, out, goal, ok, size)
    ensures At(c', src, out, goal, ok, size) && Progress(c, c')
  {
    hide Obeys, ObeysLiterals, Decode, DecodeLiterals, ReadLength;
    var ip, length := c.ip, c.length;
    if length == NIBBLE_MAX {
      if ok {
        LiteralLengthRoom(src, c.ip - 1, c.op, size);
      }
      var good, addl;
      good, addl, ip := ReadVariableLength(src, ip, |src| - NIBBLE_MAX);
      if !good {
        return Cursor(OutputError, ip, c.op, c.token, length, 0);
      }
      length := length + addl;
    }
    LiteralLengthRead(src, c.ip - 1, out[..c.op], length, ip);
    c' := Cursor(SafeLiteralCopy, ip, c.op, c.token, length, 0);
  }

  /** Near either end only the last literals are possible; otherwise copy with 8-byte stripes. */
  method StepSafeLiteralCopy(src: seq<byte>, dst: array<byte>, c: Cursor,
                             ghost goal: Option<seq<byte>>, ghost ok: bool, ghost size: nat) returns (c': Cursor)
    requires c.at == SafeLiteralCopy && At(c, src, dst[..], goal, ok, size)
    modifies dst
    ensures At(c', src, dst[..], goal, ok, size) && Progress(c, c')
  {
    hide ObeysMatchLength, ObeysOffset, DecodeMatchLength, DecodeOffset;
    var cpy, end := c.op + c.length, c.ip + c.length;
    ghost var a := dst[..];
    if cpy > dst.Length - MFLIMIT || end > |src| - (2 + 1 + LASTLITERALS) {
      if ok && end != |src| {
        LiteralsRoom(src, c.token, c.length, c.ip, c.op, size);
      }
      if end != |src| || cpy > dst.Length {
        return Cursor(OutputError, c.ip, c.op, c.token, c.length, 0);
      }
      MemcpyIn(dst, c.op, src, c.ip, c.length);
      LiteralsInPlace(src, c.length, c.ip, a, dst[..], c.op);
      assert src[c.ip..] == src[c.ip..end];
      c' := Cursor(EndOfBlock, end, cpy, 0, 0, 0);
    } else {
      WildCopyIn(dst, c.op, src, c.ip, cpy, 8);
      LiteralsInPlace(src, c.length, c.ip, a, dst[..], c.op);
      AfterLiterals(src, c.token, c.length, c.ip, a[..c.op]);
      if ok {
        AfterLiteralsObeys(src, c.token, c.length, c.ip, c.op, size);
      }
      c' := Cursor(SafeMatchLength, end + 2, cpy, c.token, c.token % 16, Word16(src[end], src[end + 1]));
    }
  }

  method StepCopyMatch(src: seq<byte>, ghost out: seq<byte>, c: Cursor,
                       ghost goal: Option<seq<byte>>, ghost ok: bool, ghost size: nat) returns (c': Cursor)
    requires c.at == SafeMatchLength && At(c, src, out, goal, ok, size)
    ensures At(c', src, out, goal, ok, size) && Progress(c, c')
  {
    hide ObeysMatchLength, ObeysMatch, DecodeMatchLength, DecodeMatch, ReadLength;
    var ip, length := c.ip, c.length;
    if length == NIBBLE_MAX {
      if ok {
        MatchLengthRoom(src, c.offset, c.ip, c.op, size);
      }
      var good, addl;
      good, addl, ip := ReadVariableLength(src, ip, |src| - (1 + LASTLITERALS));
      if !good {
        return Cursor(OutputError, ip, c.op, c.token, length, c.offset);
      }
      length := length + addl;
    }
    MatchLengthRead(src, c.length, c.offset, c.ip, out[..c.op], length, ip);
    c' := Cursor(SafeMatch, ip, c.op, c.token, length + MINMATCH, c.offset);
  }

  method StepSafeMatchCopy(src: seq<byte>, dst: array<byte>, c: Cursor,
                           ghost goal: Option<seq<byte>>, ghost ok: bool, ghost size: nat) returns (c': Cursor)
    requires c.at == SafeMatch && At(c, src, dst[..], goal, ok, size)
    modifies dst
    ensures At(c', src, dst[..], goal, ok, size) && Progress(c, c')
  {
    hide Decode, DecodeMatch, Repeats, Obeys;
    if c.offset > c.op {
      return c.(at := OutputError);
    }
    ghost var a := dst[..];
    var good := SafeMatchCopy(dst, c.op, c.length, c.offset);
    if !good {
      return c.(at := OutputError);
    }
    MatchInPlace(src, c.offset, c.length, c.ip, a, dst[..], c.op, goal);
    c' := Cursor(SafeDecode, c.ip, c.op + c.length, 0, 0, 0);
  }

  // ---------------------------------------------------------------- the fast loop

  /** Head of the fast loop: token and literals, in stripes of 16 or 32 bytes. */
  method StepFastDecode(src: seq<byte>, dst: array<byte>, c: Cursor,
                        ghost goal: Option<seq<byte>>, ghost ok: bool, ghost size: nat) returns (c': Cursor)
    requires c.at == FastDecode && At(c, src, dst[..], goal, ok, size)
    modifies dst
    ensures At(c', src, dst[..], goal, ok, size) && Progress(c, c')
  {
    hide Obeys, ObeysLiterals, Decode, DecodeLiterals, ReadLength;
    var token := src[c.ip];
    var ip, length: nat := c.ip + 1, token / 16;
    if ip > |src| - (16 + 1) {
      return Cursor(SafeLiteralCopyEarly, ip, c.op, token, length, 0);
    }
    if length == NIBBLE_MAX {
      if ok {
        LiteralLengthRoom(src, c.ip, c.op, size);
      }
      var good, addl;
      good, addl, ip := ReadVariableLength(src, ip, |src| - NIBBLE_MAX);
      if !good {
        return Cursor(OutputError, ip, c.op, token, length, 0);
      }
      length := length + addl;
      LiteralLengthRead(src, c.ip, dst[..c.op], length, ip);
      c' := Cursor(SafeLiteralCopy, ip, c.op, token, length, 0);
      if c.op + length > dst.Length - 32 || ip + length > |src| - 32 {
        return;
      }
      c' := FastLiterals(src, dst, c', 32, goal, ok, size);
    } else {
      LiteralLengthRead(src, c.ip, dst[..c.op], length, ip);
      c' := FastLiterals(src, dst, Cursor(SafeLiteralCopy, ip, c.op, token, length, 0), 16, goal, ok, size);
    }
  }

  method FastLiterals(src: seq<byte>, dst: array<byte>, c: Cursor, stride: nat,
                      ghost goal: Option<seq<byte>>, ghost ok: bool, ghost size: nat) returns (c': Cursor)
    requires c.at == SafeLiteralCopy && At(c, src, dst[..], goal, ok, size)
    requires stride == 16 ==> c.length < NIBBLE_MAX && c.ip + 17 <= |src| && c.op + FASTLOOP_SAFE_DISTANCE <= dst.Length
    requires stride == 32 ==> c.ip + c.length + 32 <= |src| && c.op + c.length + 32 <= dst.Length
    requires stride == 16 || stride == 32
    modifies dst
    ensures c'.at == FastMatch && At(c', src, dst[..], goal, ok, size) && c.ip <= c'.ip
  {
    hide ObeysOffset, DecodeOffset;
    ghost var a := dst[..];
    if stride == 16 {
      MemcpyIn(dst, c.op, src, c.ip, 16);
    } else {
      WildCopyIn(dst, c.op, src, c.ip, c.op + c.length, 32);
    }
    LiteralsInPlace(src, c.length, c.ip, a, dst[..], c.op);
    c' := Cursor(FastMatch, c.ip + c.length, c.op + c.length, c.token, 0, 0);
  }

  /** Second half of a fast iteration: offset and match length, then the match copy. */
  method StepFastMatch(src: seq<byte>, dst: array<byte>, c: Cursor,
                       ghost goal: Option<seq<byte>>, ghost ok: bool, ghost size: nat) returns (c': Cursor)
    requires c.at == FastMatch && At(c, src, dst[..], goal, ok, size)
    modifies dst
    ensures At(c', src, dst[..], goal, ok, size) && Progress(c, c')
  {
    hide ObeysMatchLength, ObeysMatch, DecodeMatchLength, DecodeMatch, ReadLength, Decode, Obeys;
    var offset := Word16(src[c.ip], src[c.ip + 1]);
    var ip, length: nat := c.ip + 2, c.token % 16;
    if length == NIBBLE_MAX {
      if ok {
        MatchLengthRoom(src, offset, ip, c.op, size);
      }
      var start := ip;
      var good, addl;
      good, addl, ip := ReadVariableLength(src, ip, |src| - (1 + LASTLITERALS));
      if !good {
        return Cursor(OutputError, ip, c.op, c.token, length, offset);
      }
      MatchLengthRead(src, NIBBLE_MAX, offset, start, dst[..c.op], length + addl, ip);
      length := length + addl + MINMATCH;
      c' := Cursor(SafeMatch, ip, c.op, c.token, length, offset);
      if c.op + length >= dst.Length - FASTLOOP_SAFE_DISTANCE {
        return;
      }
    } else {
      assert ok ==> ObeysMatchLength(src, length, offset, ip, c.op, size);
      MatchLengthRead(src, length, offset, ip, dst[..c.op], length, ip);
      if c.op + length + MINMATCH < dst.Length - FASTLOOP_SAFE_DISTANCE && offset <= c.op && offset >= 8 {
        c' := Cursor(SafeMatchLength, ip, c.op, c.token, length, offset);
        c' := ShortcutMatch(src, dst, c', FastDecode, goal, ok, size);
        return;
      }
      length := length + MINMATCH;
      c' := Cursor(SafeMatch, ip, c.op, c.token, length, offset);
      if c.op + length >= dst.Length - FASTLOOP_SAFE_DISTANCE {
        return;
      }
    }
    c' := FastMatchCopy(src, dst, c', goal, ok, size);
  }

  /** The fast loop's match copy, at least 64 bytes from the end of the output. */
  method FastMatchCopy(src: seq<byte>, dst: array<byte>, c: Cursor,
                       ghost goal: Option<seq<byte>>, ghost ok: bool, ghost size: nat) returns (c': Cursor)
    requires c.at == SafeMatch && At(c, src, dst[..], goal, ok, size)
    requires c.op + c.length + FASTLOOP_SAFE_DISTANCE < dst.Length
    modifies dst
    ensures At(c', src, dst[..], goal, ok, size) && c'.ip == c.ip
  {
    hide Decode, DecodeMatch, Repeats, Obeys;
    if c.offset > c.op {
      return c.(at := OutputError);
    }
    ghost var a := dst[..];
    if c.offset < 16 {
      MemcpyUsingOffset(dst, c.op, c.op + c.length, c.offset);
    } else {
      LongMatchCopy(dst, c.op, c.op + c.length, c.offset);
    }
    MatchInPlace(src, c.offset, c.length, c.ip, a, dst[..], c.op, goal);
    c' := Cursor(FastDecode, c.ip, c.op + c.length, 0, 0, 0);
  }

  // ---------------------------------------------------------------- LZ4_decompress_safe

  /** `src` decodes under the format's restrictions, and fits `capacity` bytes. */
  ghost predicate Accepted(src: seq<byte>, capacity: nat) {
    && Decode(src, 0, []).Some?
    && |Decode(src, 0, []).value| <= capacity
    && WellFormed(src, |Decode(src, 0, []).value|)
  }

  /**
   * For any input and any buffer: the decoder ends; all its reads and writes, overshoot
   * included, are inside the input and the buffer; a result of `r >= 0` means that the
   * first `r` bytes are what the reference decoder makes of the input; and a conforming
   * block that fits is never refused. An empty buffer takes only the one-byte block 0, not
   * the other one-byte blocks whose low nibble the format leaves unused.
   */
  method Decompress(src: seq<byte>, dst: array<byte>) returns (r: int)
    modifies dst
    ensures r >= 0 ==> r <= dst.Length && Decode(src, 0, []) == Some(dst[..r])
    ensures r < 0 ==> -|src| - 1 <= r
    ensures dst.Length == 0 ==> (r >= 0 <==> src == [0])
    ensures dst.Length > 0 && Accepted(src, dst.Length) ==> r >= 0
  {
    if dst.Length == 0 {
      r := DecompressToNothing(src);
      return;
    }
    if |src| == 0 {
      return -1;
    }
    ghost var goal := Decode(src, 0, []);
    ghost var ok := Accepted(src, dst.Length);
    ghost var size := if ok then |goal.value| else 0;
    hide Obeys, Decode;
    assert dst[..0] == [];
    var c := Cursor(if dst.Length < FASTLOOP_SAFE_DISTANCE then SafeDecode else FastDecode, 0, 0, 0, 0, 0);
    while c.at != EndOfBlock && c.at != OutputError
      invariant At(c, src, dst[..], goal, ok, size)
      decreases |src| - c.ip, Rank(c.at)
    {
      c := Step(src, dst, c, goal, ok, size);
    }
    r := if c.at == EndOfBlock then c.op as int else -(c.ip as int) - 1;
  }

  method Step(src: seq<byte>, dst: array<byte>, c: Cursor,
              ghost goal: Option<seq<byte>>, ghost ok: bool, ghost size: nat) returns (c': Cursor)
    requires c.at != EndOfBlock && c.at != OutputError
    requires At(c, src, dst[..], goal, ok, size)
    modifies dst
    ensures At(c', src, dst[..], goal, ok, size) && Progress(c, c')
  {
    hide At;
    match c.at
    case FastDecode => c' := StepFastDecode(src, dst, c, goal, ok, size);
    case FastMatch => c' := StepFastMatch(src, dst, c, goal, ok, size);
    case SafeDecode => c' := StepSafeDecode(src, dst, c, goal, ok, size);
    case SafeLiteralCopyEarly => c' := StepSafeLiteralCopyEarly(src, dst[..], c, goal, ok, size);
    case SafeLiteralCopy => c' := StepSafeLiteralCopy(src, dst, c, goal, ok, size);
    case SafeMatchLength => c' := StepCopyMatch(src, dst[..], c, goal, ok, size);
    case SafeMatch => c' := StepSafeMatchCopy(src, dst, c, goal, ok, size);
  }

  /** An empty buffer takes exactly the block that is one zero byte. */
  method DecompressToNothing(src: seq<byte>) returns (r: int)
    ensures r == if src == [0] then 0 else -1
    ensures r == 0 ==> Decode(src, 0, []) == Some([])
  {
    r := if |src| == 1 && src[0] == 0 then 0 else -1;
    if r == 0 {
      var none: seq<byte> := [];
      assert none + src[1..] == none;
      assert DecodeLiterals(src, 0, 0, 1, none) == Some(none);
    }
  }
}
