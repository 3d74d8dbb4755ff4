/**
 * lz4_decompressor_4k: the clocked LZ4 decompressor for 4 KB pages. The registers change
 * together at a clock edge, so an edge is a function of the old registers and the pins.
 */
module Lz4Rtl {
  import opened Bytes
  import opened Lz4Format

  const MAX_BLOCK_SIZE := 4096

  datatype State = Idle | Token | ExtLit | Literal | OffsetL | OffsetH | ExtMatch | MatchCopy | Done

  datatype Regs = Regs(
    state: State, busy: bool, done: bool, errorFlag: bool, decompressedBytes: nat,
    writePtr: nat, litLen: nat, matchLen: nat, matchOffset: nat,
    savedMatchToken: nat, offsetLow: byte, lastByteSeen: bool, historyRam: seq<byte>,
    sReady: bool, mData: byte, mValid: bool, mLast: bool)

  datatype Pins = Pins(start: bool, sData: byte, sValid: bool, sLast: bool, mReady: bool)

  // ---------------------------------------------------------------- the circuit

  /** The registers after reset; the memory keeps what it has. */
  function Reset(history: seq<byte>): (r: Regs) {
    Regs(Idle, false, false, false, 0, 0, 0, 0, 0, 0, 0, false, history, false, 0, false, false)
  }

  function MatchReadAddr(r: Regs): (a: nat)
    ensures a < MAX_BLOCK_SIZE
  {
    if r.writePtr >= r.matchOffset % 8192 then (r.writePtr % 4096 + 4096 - r.matchOffset % 4096) % 4096 else 0
  }

  /** A write behind the memory is lost. */
  function RamWritten(ram: seq<byte>, at: nat, b: byte): (r: seq<byte>) {
    if at < |ram| then ram[at := b] else ram
  }

  function RamRead(ram: seq<byte>, at: nat): (b: byte) {
    if at < |ram| then ram[at] else 0
  }

  /** A byte goes to the output register and the history, and the pointers move on. */
  function Emitted(r: Regs, b: byte): (n: Regs) {
    r.(mData := b, mValid := true, mLast := r.writePtr == MAX_BLOCK_SIZE - 1,
       historyRam := RamWritten(r.historyRam, r.writePtr, b),
       writePtr := (r.writePtr + 1) % 8192, decompressedBytes := (r.decompressedBytes + 1) % 8192)
  }

  /** A byte goes to the output register only: the consumer is not ready. */
  function Offered(r: Regs, b: byte): (n: Regs) {
    r.(mData := b, mValid := true, mLast := r.writePtr == MAX_BLOCK_SIZE - 1)
  }

  function OnIdle(r: Regs, p: Pins): (n: Regs) {
    var c := r.(done := false, errorFlag := false, mValid := false, mLast := false);
    if p.start then c.(busy := true, writePtr := 0, decompressedBytes := 0, sReady := true, state := Token)
    else c.(busy := false, sReady := false)
  }

  function OnToken(r: Regs, p: Pins): (n: Regs) {
    var c := r.(mValid := false);
    if !(p.sValid && r.sReady) then c
    else
      var t := c.(savedMatchToken := p.sData % 16, sReady := true);
      if p.sData / 16 == 15 then t.(litLen := 15, state := ExtLit)
      else if p.sData / 16 > 0 then t.(litLen := p.sData / 16, state := Literal)
      else t.(litLen := 0, state := OffsetL)
  }

  function OnExtLit(r: Regs, p: Pins): (n: Regs) {
    if !(p.sValid && r.sReady) then r
    else
      var c := r.(litLen := (r.litLen + p.sData) % 65536);
      if p.sData != 255 then c.(sReady := true, state := Literal) else c
  }

  function OnLiteral(r: Regs, p: Pins): (n: Regs) {
    if !p.sValid then r
    else if !p.mReady then Offered(r, p.sData).(sReady := false)
    else
      var c := Emitted(r, p.sData);
      if r.litLen != 1 then c.(litLen := (r.litLen + 65535) % 65536, sReady := true)
      else if r.writePtr + 1 == MAX_BLOCK_SIZE || p.sLast then c.(sReady := false, state := Done)
      else c.(sReady := true, state := OffsetL)
  }

  function OnOffsetL(r: Regs, p: Pins): (n: Regs) {
    var c := r.(mValid := false);
    if p.sValid && r.sReady then c.(offsetLow := p.sData, sReady := true, state := OffsetH) else c
  }

  function OnOffsetH(r: Regs, p: Pins): (n: Regs) {
    if !(p.sValid && r.sReady) then r
    else
      var c := r.(matchOffset := 256 * p.sData + r.offsetLow);
      if r.savedMatchToken == 15 then c.(matchLen := 19, sReady := true, state := ExtMatch)
      else c.(matchLen := r.savedMatchToken + 4, sReady := false, state := MatchCopy)
  }

  function OnExtMatch(r: Regs, p: Pins): (n: Regs) {
    if !(p.sValid && r.sReady) then r
    else
      var c := r.(matchLen := (r.matchLen + p.sData) % 65536);
      if p.sData != 255 then c.(sReady := false, state := MatchCopy) else c
  }

  function OnMatchCopy(r: Regs, p: Pins): (n: Regs) {
    var b := RamRead(r.historyRam, MatchReadAddr(r));
    if !p.mReady then Offered(r, b).(sReady := false)
    else
      var c := Emitted(r, b).(sReady := false);
      if r.matchLen != 1 then c.(matchLen := (r.matchLen + 65535) % 65536)
      else if r.writePtr + 1 == MAX_BLOCK_SIZE || r.lastByteSeen then c.(state := Done)
      else c.(sReady := true, state := Token)
  }

  function OnDone(r: Regs, p: Pins): (n: Regs) {
    r.(mValid := false, mLast := false, sReady := false, done := true, busy := false, state := Idle)
  }

  function OnState(r: Regs, p: Pins): (n: Regs) {
    match r.state
    case Idle => OnIdle(r, p)
    case Token => OnToken(r, p)
    case ExtLit => OnExtLit(r, p)
    case Literal => OnLiteral(r, p)
    case OffsetL => OnOffsetL(r, p)
    case OffsetH => OnOffsetH(r, p)
    case ExtMatch => OnExtMatch(r, p)
    case MatchCopy => OnMatchCopy(r, p)
    case Done => OnDone(r, p)
  }

  /** One rising clock edge. */
  function PosEdge(r: Regs, p: Pins): (n: Regs) {
    OnState(r, p).(lastByteSeen := r.state != Idle && (r.lastByteSeen || (p.sValid && r.sReady && p.sLast)))
  }

  // ---------------------------------------------------------------- what the registers stand for

  /** The input position after an edge: a byte moves when both sides are ready. */
  function Taken(r: Regs, p: Pins, ip: nat): (n: nat) {
    if p.sValid && r.sReady then ip + 1 else ip
  }

  /** What the consumer has after an edge. */
  function Received(r: Regs, p: Pins, sink: seq<byte>): (n: seq<byte>) {
    if r.mValid && p.mReady then sink + [r.mData] else sink
  }

  /** What has been decoded. */
  function Out(r: Regs): (out: seq<byte>)
    requires r.writePtr <= |r.historyRam|
  {
    r.historyRam[..r.writePtr]
  }

  /** The consumer has all decoded bytes, but for the one being offered. */
  predicate Delivered(r: Regs, sink: seq<byte>)
    requires r.writePtr <= |r.historyRam|
  {
    sink + (if r.mValid then [r.mData] else []) == Out(r)
  }

  /** The part of the invariant that all running states share. */
  predicate Running(r: Regs, src: seq<byte>, ip: nat, size: nat) {
    && ip <= |src| && |r.historyRam| == MAX_BLOCK_SIZE && size <= MAX_BLOCK_SIZE
    && r.writePtr == r.decompressedBytes <= size
    && r.lastByteSeen == (ip == |src|) && r.busy && !r.done && !r.errorFlag
    && (r.state == Token || r.savedMatchToken < 16)
    && (r.mValid ==> r.writePtr > 0 && (r.mLast <==> r.writePtr == MAX_BLOCK_SIZE))
  }

  /** What the reference decoder still has to do, state by state. */
  ghost predicate Ahead(r: Regs, src: seq<byte>, ip: nat, size: nat, goal: Option<seq<byte>>)
    requires Running(r, src, ip, size)
  {
    var out, pos := Out(r), r.writePtr;
    match r.state
    case Idle => false
    case Token => r.sReady && pos < size && goal == Decode(src, ip, out) && Obeys(src, ip, pos, size)
    case ExtLit => r.sReady && !r.mValid && LiteralsAhead(src, r.savedMatchToken, r.litLen, ip, out, size, goal)
    case Literal =>
      && r.sReady && r.litLen >= 1 && goal == DecodeLiterals(src, r.savedMatchToken, r.litLen, ip, out)
      && ObeysLiterals(src, r.savedMatchToken, r.litLen, ip, pos, size)
    case OffsetL =>
      && r.sReady && goal == DecodeOffset(src, r.savedMatchToken, ip, out)
      && ObeysOffset(src, r.savedMatchToken, ip, pos, size)
    case OffsetH =>
      && r.sReady && !r.mValid && ip > 0 && r.offsetLow == src[ip - 1]
      && goal == DecodeOffset(src, r.savedMatchToken, ip - 1, out)
      && ObeysOffset(src, r.savedMatchToken, ip - 1, pos, size)
    case ExtMatch => r.sReady && !r.mValid && MatchAhead(src, r.matchOffset, r.matchLen, ip, out, size, goal)
    case MatchCopy =>
      && !r.sReady && r.matchLen >= 1 && 1 <= r.matchOffset <= pos && pos + r.matchLen + LASTLITERALS <= size
      && goal == Decode(src, ip, CopyMatch(out, r.matchOffset, r.matchLen))
      && Obeys(src, ip, pos + r.matchLen, size)
    case Done => !r.sReady && goal == Some(out) && pos == size
  }

  /** Extension bytes of a literal run are being added up. */
  ghost predicate LiteralsAhead(src: seq<byte>, token: byte, n: nat, ip: nat, out: seq<byte>, size: nat,
                                goal: Option<seq<byte>>)
    requires ip <= |src|
  {
    var more := ReadLength(src, ip);
    && more.Some? && n >= 15
    && goal == DecodeLiterals(src, token, n + more.value.0, more.value.1, out)
    && ObeysLiterals(src, token, n + more.value.0, more.value.1, |out|, size)
  }

  /** Extension bytes of a match length are being added up. */
  ghost predicate MatchAhead(src: seq<byte>, offset: nat, n: nat, ip: nat, out: seq<byte>, size: nat,
                             goal: Option<seq<byte>>)
    requires ip <= |src|
  {
    var more := ReadLength(src, ip);
    && more.Some? && n >= 19
    && goal == DecodeMatch(src, offset, n + more.value.0, more.value.1, out)
    && ObeysMatch(src, offset, n + more.value.0, more.value.1, |out|, size)
  }

  /** The circuit is on its way to `goal`. */
  ghost predicate OnTrack(r: Regs, src: seq<byte>, ip: nat, size: nat, goal: Option<seq<byte>>, sink: seq<byte>) {
    Running(r, src, ip, size) && Delivered(r, sink) && Ahead(r, src, ip, size, goal)
  }

  // ---------------------------------------------------------------- which stalls do no harm

  /**
   * The stalls that keep the stream intact. A literal that has been offered is offered
   * again while the producer has nothing; a byte that is not taken is overwritten or
   * withdrawn by the next edge; and a literal that arrives while the consumer is not ready
   * is forgotten. In a match copy the byte offered may be overwritten by an equal one.
   */
  predicate Harmless(r: Regs, p: Pins) {
    match r.state
    case Literal => if p.sValid then p.mReady else !(r.mValid && p.mReady)
    case MatchCopy => p.mReady || (r.mValid && RamRead(r.historyRam, MatchReadAddr(r)) == r.mData)
    case _ => p.mReady || !r.mValid
  }

  /** The pins while `src[ip]` is next to be sent. */
  predicate Feeds(p: Pins, src: seq<byte>, ip: nat) {
    p.sValid ==> ip < |src| && p.sData == src[ip] && (p.sLast <==> ip + 1 == |src|)
  }

  // ---------------------------------------------------------------- one edge, state by state

  /** Only the low nibble of the token is needed after the literals. */
  lemma LowNibble(src: seq<byte>, t: byte, n: nat, ip: nat, out: seq<byte>, size: nat)
    requires ip <= |src|
    ensures DecodeLiterals(src, t, n, ip, out) == DecodeLiterals(src, t % 16, n, ip, out)
    ensures ObeysLiterals(src, t, n, ip, |out|, size) == ObeysLiterals(src, t % 16, n, ip, |out|, size)
  {
    hide DecodeMatchLength, ObeysMatchLength;
  }

  lemma TokenEdge(r: Regs, p: Pins, src: seq<byte>, ip: nat, size: nat, goal: Option<seq<byte>>, sink: seq<byte>)
    requires OnTrack(r, src, ip, size, goal, sink) && Feeds(p, src, ip) && Harmless(r, p) && r.state == Token
    ensures OnTrack(PosEdge(r, p), src, Taken(r, p, ip), size, goal, Received(r, p, sink))
  {
    hide DecodeLiterals, ObeysLiterals, ReadLength, DecodeOffset, ObeysOffset;
    if p.sValid {
      var out, n := Out(r), ReadCount(src, src[ip] / 16, ip + 1).value;
      assert ObeysLiterals(src, src[ip], n.0, n.1, r.writePtr, size);
      LowNibble(src, src[ip], n.0, n.1, out, size);
      if src[ip] / 16 == 0 {
        EmptyRunDecodes(src, src[ip] % 16, ip + 1, out, size);
      }
    }
  }

  /** An empty run cannot end a block that makes something. */
  lemma EmptyRunDecodes(src: seq<byte>, t: byte, ip: nat, out: seq<byte>, size: nat)
    requires ip <= |src| && ObeysLiterals(src, t, 0, ip, |out|, size) && (ip == |src| ==> |out| != size)
    ensures DecodeLiterals(src, t, 0, ip, out) == DecodeOffset(src, t, ip, out) && ObeysOffset(src, t, ip, |out|, size)
  {
    hide DecodeOffset, ObeysOffset;
    assert out + src[ip..ip] == out;
  }

  lemma ExtLitEdge(r: Regs, p: Pins, src: seq<byte>, ip: nat, size: nat, goal: Option<seq<byte>>, sink: seq<byte>)
    requires OnTrack(r, src, ip, size, goal, sink) && Feeds(p, src, ip) && Harmless(r, p) && r.state == ExtLit
    ensures OnTrack(PosEdge(r, p), src, Taken(r, p, ip), size, goal, Received(r, p, sink))
  {
    hide DecodeLiterals, ObeysLiterals;
    var more := ReadLength(src, ip).value;
    LiteralsFit(src, r.savedMatchToken, r.litLen + more.0, more.1, r.writePtr, size);
  }

  lemma LiteralsFit(src: seq<byte>, t: byte, n: nat, ip: nat, pos: nat, size: nat)
    requires ip <= |src| && ObeysLiterals(src, t, n, ip, pos, size)
    ensures pos + n <= size
  {
    hide ObeysOffset;
  }

  lemma LiteralEdge(r: Regs, p: Pins, src: seq<byte>, ip: nat, size: nat, goal: Option<seq<byte>>, sink: seq<byte>)
    requires OnTrack(r, src, ip, size, goal, sink) && Feeds(p, src, ip) && Harmless(r, p) && r.state == Literal
    ensures OnTrack(PosEdge(r, p), src, Taken(r, p, ip), size, goal, Received(r, p, sink))
  {
    hide DecodeLiterals, ObeysLiterals, DecodeOffset, ObeysOffset;
    if p.sValid {
      LiteralStep(src, r.savedMatchToken, r.litLen, ip, Out(r), size);
      assert Out(PosEdge(r, p)) == Out(r) + [src[ip]];
    }
  }

  lemma LiteralStep(src: seq<byte>, t: byte, n: nat, ip: nat, out: seq<byte>, size: nat)
    requires ip < |src| && n >= 1 && ObeysLiterals(src, t, n, ip, |out|, size)
    ensures n <= |src| - ip && |out| + n <= size
    ensures ip + n < |src| ==> |out| + n + MFLIMIT <= size
    ensures n > 1 ==>
              && DecodeLiterals(src, t, n, ip, out) == DecodeLiterals(src, t, n - 1, ip + 1, out + [src[ip]])
              && ObeysLiterals(src, t, n - 1, ip + 1, |out| + 1, size)
    ensures n == 1 && ip + 1 < |src| ==>
              && DecodeLiterals(src, t, n, ip, out) == DecodeOffset(src, t, ip + 1, out + [src[ip]])
              && ObeysOffset(src, t, ip + 1, |out| + 1, size)
    ensures n == 1 && ip + 1 == |src| ==>
              DecodeLiterals(src, t, n, ip, out) == Some(out + [src[ip]]) && |out| + 1 == size
  {
    hide DecodeOffset, ObeysOffset;
    assert n == 1 ==> src[ip..ip + n] == [src[ip]];
    assert out + [src[ip]] + src[ip + 1..] == out + src[ip..];
    assert out + [src[ip]] + src[ip + 1..ip + n] == out + src[ip..ip + n];
  }

  lemma OffsetLEdge(r: Regs, p: Pins, src: seq<byte>, ip: nat, size: nat, goal: Option<seq<byte>>, sink: seq<byte>)
    requires OnTrack(r, src, ip, size, goal, sink) && Feeds(p, src, ip) && Harmless(r, p) && r.state == OffsetL
    ensures OnTrack(PosEdge(r, p), src, Taken(r, p, ip), size, goal, Received(r, p, sink))
  {
    hide DecodeOffset, ObeysOffset;
  }

  lemma OffsetHEdge(r: Regs, p: Pins, src: seq<byte>, ip: nat, size: nat, goal: Option<seq<byte>>, sink: seq<byte>)
    requires OnTrack(r, src, ip, size, goal, sink) && Feeds(p, src, ip) && Harmless(r, p) && r.state == OffsetH
    ensures OnTrack(PosEdge(r, p), src, Taken(r, p, ip), size, goal, Received(r, p, sink))
  {
    hide DecodeMatch, ObeysMatch, ReadLength;
    if p.sValid {
      var offset, t := Word16(src[ip - 1], src[ip]), r.savedMatchToken;
      assert t % 16 == t;
      assert goal == DecodeMatchLength(src, t, offset, ip + 1, Out(r));
      assert ObeysMatchLength(src, t, offset, ip + 1, r.writePtr, size);
      var n := ReadCount(src, t, ip + 1).value;
      assert ObeysMatch(src, offset, n.0 + MINMATCH, n.1, r.writePtr, size);
      if t != 15 {
        MatchStarts(src, offset, t + 4, ip + 1, Out(r), size);
      } else {
        assert goal == DecodeMatch(src, offset, n.0 + MINMATCH, n.1, Out(r));
      }
    }
  }

  lemma MatchStarts(src: seq<byte>, offset: nat, n: nat, ip: nat, out: seq<byte>, size: nat)
    requires ip <= |src| && ObeysMatch(src, offset, n, ip, |out|, size)
    ensures 1 <= offset <= |out| && |out| + n + LASTLITERALS <= size
    ensures DecodeMatch(src, offset, n, ip, out) == Decode(src, ip, CopyMatch(out, offset, n))
    ensures Obeys(src, ip, |out| + n, size)
  {
    hide Decode, Obeys;
  }

  lemma ExtMatchEdge(r: Regs, p: Pins, src: seq<byte>, ip: nat, size: nat, goal: Option<seq<byte>>, sink: seq<byte>)
    requires OnTrack(r, src, ip, size, goal, sink) && Feeds(p, src, ip) && Harmless(r, p) && r.state == ExtMatch
    ensures OnTrack(PosEdge(r, p), src, Taken(r, p, ip), size, goal, Received(r, p, sink))
  {
    hide DecodeMatch, ObeysMatch;
    if p.sValid {
      var more := ReadLength(src, ip).value;
      MatchStarts(src, r.matchOffset, r.matchLen + more.0, more.1, Out(r), size);
    }
  }

  lemma MatchCopyEdge(r: Regs, p: Pins, src: seq<byte>, ip: nat, size: nat, goal: Option<seq<byte>>, sink: seq<byte>)
    requires OnTrack(r, src, ip, size, goal, sink) && Feeds(p, src, ip) && Harmless(r, p) && r.state == MatchCopy
    ensures OnTrack(PosEdge(r, p), src, Taken(r, p, ip), size, goal, Received(r, p, sink))
  {
    hide Decode, Obeys, CopyMatch, MatchReadAddr, RamRead;
    var out := Out(r);
    var b := RamRead(r.historyRam, MatchReadAddr(r));
    ReadsBack(r);
    if p.mReady {
      CopyFirst(out, r.matchOffset, r.matchLen);
      assert Out(PosEdge(r, p)) == out + [b];
      NotAtEnd(src, ip, r.writePtr + r.matchLen, size);
    }
  }

  lemma ReadsBack(r: Regs)
    requires |r.historyRam| == MAX_BLOCK_SIZE && 1 <= r.matchOffset <= r.writePtr < MAX_BLOCK_SIZE
    ensures RamRead(r.historyRam, MatchReadAddr(r)) == Out(r)[r.writePtr - r.matchOffset]
  {
  }

  lemma NotAtEnd(src: seq<byte>, ip: nat, pos: nat, size: nat)
    requires ip <= |src| && Obeys(src, ip, pos, size)
    ensures ip < |src|
  {
  }

  /** A match can be copied from its first byte on. */
  lemma {:induction false} CopyFirst(out: seq<byte>, offset: nat, n: nat)
    requires 1 <= offset <= |out| && n >= 1
    ensures CopyMatch(out + [out[|out| - offset]], offset, n - 1) == CopyMatch(out, offset, n)
    ensures n == 1 ==> CopyMatch(out, offset, n) == out + [out[|out| - offset]]
  {
    if n > 1 {
      CopyFirst(out, offset, n - 1);
    } else {
      assert CopyMatch(out, offset, 0) == out;
    }
  }

  // ---------------------------------------------------------------- one edge

  /** The circuit has stopped, and the consumer has everything. */
  ghost predicate Finished(r: Regs, size: nat, goal: Option<seq<byte>>, sink: seq<byte>) {
    && r.state == Idle && r.done && !r.busy && !r.errorFlag && !r.mValid && r.decompressedBytes == size
    && goal == Some(sink) && |sink| == size && |r.historyRam| == MAX_BLOCK_SIZE && !r.sReady
  }

  lemma DoneEdge(r: Regs, p: Pins, src: seq<byte>, ip: nat, size: nat, goal: Option<seq<byte>>, sink: seq<byte>)
    requires OnTrack(r, src, ip, size, goal, sink) && r.state == Done
    ensures Harmless(r, p) <==> Finished(PosEdge(r, p), size, goal, Received(r, p, sink))
  {
    assert sink + [] == sink;
  }

  /** Every state moves on in step, if the stall, if any, does no harm. */
  lemma EdgeKeeps(r: Regs, p: Pins, src: seq<byte>, ip: nat, size: nat, goal: Option<seq<byte>>, sink: seq<byte>)
    requires OnTrack(r, src, ip, size, goal, sink) && Feeds(p, src, ip) && Harmless(r, p) && r.state != Done
    ensures OnTrack(PosEdge(r, p), src, Taken(r, p, ip), size, goal, Received(r, p, sink))
  {
    assert r.state != Idle;
    hide OnTrack, PosEdge, Taken, Received, Feeds, Harmless;
    match r.state {
      case Token => TokenEdge(r, p, src, ip, size, goal, sink);
      case ExtLit => ExtLitEdge(r, p, src, ip, size, goal, sink);
      case Literal => LiteralEdge(r, p, src, ip, size, goal, sink);
      case OffsetL => OffsetLEdge(r, p, src, ip, size, goal, sink);
      case OffsetH => OffsetHEdge(r, p, src, ip, size, goal, sink);
      case ExtMatch => ExtMatchEdge(r, p, src, ip, size, goal, sink);
      case MatchCopy => MatchCopyEdge(r, p, src, ip, size, goal, sink);
    }
  }

  /**
   * Any other stall does harm: a literal is taken from the producer and forgotten, or what
   * the consumer was given is not what was decoded.
   */
  lemma EdgeBreaks(r: Regs, p: Pins, src: seq<byte>, ip: nat, size: nat, goal: Option<seq<byte>>, sink: seq<byte>)
    requires OnTrack(r, src, ip, size, goal, sink) && Feeds(p, src, ip) && !Harmless(r, p) && r.state != Done
    ensures !OnTrack(PosEdge(r, p), src, Taken(r, p, ip), size, goal, Received(r, p, sink))
    ensures if r.state == Literal && p.sValid then Taken(r, p, ip) == ip + 1 && Out(PosEdge(r, p)) == Out(r)
            else !Delivered(PosEdge(r, p), Received(r, p, sink))
  {
    hide Decode, Obeys, DecodeLiterals, ObeysLiterals, DecodeOffset, ObeysOffset, LiteralsAhead, MatchAhead;
    var n, out := PosEdge(r, p), Out(r);
    if r.state != Literal || !p.sValid {
      assert Out(n) == out;
      var got := Received(r, p, sink) + (if n.mValid then [n.mData] else []);
      if r.state == MatchCopy && r.mValid {
        assert out[|sink|] == r.mData && got[|sink|] == n.mData;
      } else {
        assert |got| != |out|;
      }
    }
  }

  // ---------------------------------------------------------------- runs

  /** Whether the producer has a byte and the consumer is ready, at one edge. */
  datatype Handshake = Handshake(valid: bool, ready: bool)

  function PinsFor(src: seq<byte>, ip: nat, h: Handshake): (p: Pins)
    ensures Feeds(p, src, ip) && p.mReady == h.ready && p.sValid == (h.valid && ip < |src|)
  {
    var valid := h.valid && ip < |src|;
    Pins(false, if valid then src[ip] else 0, valid, ip + 1 == |src|, h.ready)
  }

  /** No stall of the plan does harm, from these registers and this position on. */
  predicate HarmlessRun(r: Regs, src: seq<byte>, ip: nat, plan: seq<Handshake>)
    decreases |plan|
  {
    |plan| == 0 || r.done
    || (var p := PinsFor(src, ip, plan[0]);
        Harmless(r, p) && HarmlessRun(PosEdge(r, p), src, Taken(r, p, ip), plan[1..]))
  }

  /** An edge of the circuit at rest that starts it; no byte moves at this edge. */
  predicate Starts(r: Regs, p: Pins) {
    r.state == Idle && |r.historyRam| == MAX_BLOCK_SIZE && p.start && !(p.sValid && r.sReady)
  }

  /** The registers after edges at rest, without a start. */
  function Rested(r: Regs, pins: seq<Pins>): (n: Regs) {
    if pins == [] then r else PosEdge(Rested(r, pins[..|pins| - 1]), pins[|pins| - 1])
  }

  /** Edges that are left when there are no stalls any more go down in this measure. */
  function Rank(r: Regs): (n: nat) {
    if r.state == Idle then if r.done then 0 else 3
    else if r.state == MatchCopy then 2 else 1
  }

  function InCopy(r: Regs): (n: nat) {
    if r.state == MatchCopy then r.matchLen else 0
  }

  lemma EdgeProgress(r: Regs, p: Pins, src: seq<byte>, ip: nat, size: nat, goal: Option<seq<byte>>, sink: seq<byte>)
    requires OnTrack(r, src, ip, size, goal, sink) && Feeds(p, src, ip) && p.mReady && (p.sValid || ip == |src|)
    ensures Harmless(r, p)
    ensures Taken(r, p, ip) > ip || Rank(PosEdge(r, p)) < Rank(r)
            || (Rank(PosEdge(r, p)) == Rank(r) && InCopy(PosEdge(r, p)) < InCopy(r))
  {
    hide Decode, Obeys, DecodeLiterals, ObeysLiterals, DecodeOffset, ObeysOffset, DecodeMatch, ObeysMatch;
    if r.state == Token {
      NotAtEnd(src, ip, r.writePtr, size);
    } else if r.state == Literal {
      LiteralsLeft(src, r.savedMatchToken, r.litLen, ip, r.writePtr, size);
    } else if r.state == OffsetL {
      OffsetLeft(src, r.savedMatchToken, ip, r.writePtr, size);
    } else if r.state == OffsetH {
      OffsetLeft(src, r.savedMatchToken, ip - 1, r.writePtr, size);
    }
  }

  /** While the circuit runs, `done` is low, and the mark is for the byte being offered. */
  lemma StillRunning(r: Regs, src: seq<byte>, ip: nat, size: nat, goal: Option<seq<byte>>, sink: seq<byte>)
    requires OnTrack(r, src, ip, size, goal, sink)
    ensures !r.done && (r.mValid ==> (r.mLast <==> |sink| == MAX_BLOCK_SIZE - 1))
  {
    hide Ahead;
  }

  lemma LiteralsLeft(src: seq<byte>, t: byte, n: nat, ip: nat, pos: nat, size: nat)
    requires ip <= |src| && ObeysLiterals(src, t, n, ip, pos, size)
    ensures ip + n <= |src|
  {
    hide ObeysOffset;
  }

  lemma OffsetLeft(src: seq<byte>, t: byte, ip: nat, pos: nat, size: nat)
    requires ip <= |src| && ObeysOffset(src, t, ip, pos, size)
    ensures ip + 2 <= |src|
  {
    hide ObeysMatchLength;
  }

  /**
   * A start edge, whatever a block before, or anything else, has left in the pointers, the
   * counters, the flags and the memory: nothing has been decoded or delivered.
   */
  lemma StartEdge(r: Regs, p: Pins, src: seq<byte>, size: nat)
    requires Starts(r, p) && WellFormed(src, size) && 1 <= size <= MAX_BLOCK_SIZE
    ensures OnTrack(PosEdge(r, p), src, 0, size, Decode(src, 0, []), [])
    ensures PosEdge(r, p).decompressedBytes == 0 && !PosEdge(r, p).mValid
  {
    hide Decode, Obeys;
    var n := PosEdge(r, p);
    assert Out(n) == [];
    NotAtEnd(src, 0, 0, size);
  }

  /** Without a start the circuit stays at rest, and after one edge it accepts and offers nothing. */
  lemma {:induction false} RestStays(r: Regs, pins: seq<Pins>)
    requires r.state == Idle && forall k :: 0 <= k < |pins| ==> !pins[k].start
    ensures var n := Rested(r, pins);
            && n.state == Idle && n.historyRam == r.historyRam
            && (pins == [] ==> n == r) && (pins != [] ==> !n.sReady && !n.mValid && !n.done && !n.busy)
  {
    if pins != [] {
      RestStays(r, pins[..|pins| - 1]);
    }
  }

  /** Edges at rest and then a start edge, from any registers at rest. */
  lemma RestThenStart(r: Regs, pins: seq<Pins>, p: Pins, src: seq<byte>, size: nat)
    requires r.state == Idle && |r.historyRam| == MAX_BLOCK_SIZE && p.start
    requires pins != [] || !r.sReady || !p.sValid
    requires forall k :: 0 <= k < |pins| ==> !pins[k].start
    requires WellFormed(src, size) && 1 <= size <= MAX_BLOCK_SIZE
    ensures Starts(Rested(r, pins), p)
    ensures OnTrack(PosEdge(Rested(r, pins), p), src, 0, size, Decode(src, 0, []), [])
  {
    hide PosEdge, OnTrack, WellFormed;
    RestStays(r, pins);
    StartEdge(Rested(r, pins), p, src, size);
  }

  /**
   * A conforming block of 1 to 4096 decoded bytes, fed to the circuit at rest, whatever its
   * other registers hold. `plan` says who stalls at the first edges; from then on nobody does. Exactly if no stall does
   * harm, and in particular if there is none, this goes on to the end: the circuit stops
   * with `done`, the consumer has exactly what the reference decoder makes of the block,
   * each byte once and in order, and the byte count is right. The last-byte mark is on
   * byte 4096 only.
   */
  method DecompressStream(src: seq<byte>, size: nat, plan: seq<Handshake>, r0: Regs, p0: Pins)
    returns (sink: seq<byte>, marks: seq<bool>, r: Regs, harmless: bool)
    requires WellFormed(src, size) && 1 <= size <= MAX_BLOCK_SIZE && Starts(r0, p0)
    ensures harmless <==> HarmlessRun(PosEdge(r0, p0), src, 0, plan)
    ensures (forall k :: 0 <= k < |plan| ==> plan[k].valid && plan[k].ready) ==> harmless
    ensures harmless ==> Decode(src, 0, []) == Some(sink) && |sink| == size
    ensures harmless ==> r.state == Idle && r.done && !r.busy && !r.errorFlag && r.decompressedBytes == size
    ensures harmless ==> |r.historyRam| == MAX_BLOCK_SIZE && !r.sReady
    ensures |marks| == |sink| && forall k :: 0 <= k < |sink| ==> (marks[k] <==> k == MAX_BLOCK_SIZE - 1)
  {
    hide WellFormed, OnTrack, PosEdge, Harmless, PinsFor;
    ghost var goal := Decode(src, 0, []);
    var ip: nat, k: nat := 0, 0;
    StartEdge(r0, p0, src, size);
    r, sink, marks, harmless := PosEdge(r0, p0), [], [], true;
    while !r.done
      invariant harmless && ip <= |src|
      invariant OnTrack(r, src, ip, size, goal, sink) || Finished(r, size, goal, sink)
      invariant HarmlessRun(PosEdge(r0, p0), src, 0, plan) == HarmlessRun(r, src, ip, Left(plan, k))
      invariant |marks| == |sink| && forall i :: 0 <= i < |sink| ==> (marks[i] <==> i == MAX_BLOCK_SIZE - 1)
      decreases if k < |plan| then |plan| - k else 0, |src| - ip, Rank(r), InCopy(r)
    {
      var p := PinsFor(src, ip, if k < |plan| then plan[k] else Handshake(true, true));
      StillRunning(r, src, ip, size, goal, sink);
      if k >= |plan| || (plan[k].valid && plan[k].ready) {
        EdgeProgress(r, p, src, ip, size, goal, sink);
      }
      if !Harmless(r, p) {
        harmless := false;
        return;
      }
      if r.state == Done {
        DoneEdge(r, p, src, ip, size, goal, sink);
      } else {
        EdgeKeeps(r, p, src, ip, size, goal, sink);
      }
      if r.mValid && p.mReady {
        marks := marks + [r.mLast];
      }
      r, sink, ip, k := PosEdge(r, p), Received(r, p, sink), Taken(r, p, ip), k + 1;
    }
    if !Finished(r, size, goal, sink) {
      StillRunning(r, src, ip, size, goal, sink);
    }
  }

  function Left(plan: seq<Handshake>, k: nat): (rest: seq<Handshake>)
    ensures k < |plan| ==> |rest| > 0 && rest[0] == plan[k] && rest[1..] == Left(plan, k + 1)
    ensures k >= |plan| ==> rest == []
    ensures k == 0 ==> rest == plan
    decreases |plan| - k
  {
    if k < |plan| then assert plan[k..][1..] == plan[k + 1..]; plan[k..] else []
  }

  // ---------------------------------------------------------------- one block after the other

  /** A block, who stalls while it is fed, and the pins before it: at rest, and at its start. */
  datatype Job = Job(src: seq<byte>, size: nat, plan: seq<Handshake>, rest: seq<Pins>, start: Pins)

  ghost predicate Proper(j: Job) {
    && WellFormed(j.src, j.size) && 1 <= j.size <= MAX_BLOCK_SIZE && j.start.start
    && forall k :: 0 <= k < |j.rest| ==> !j.rest[k].start
  }

  /** What the consumer gets of a block, and the byte count at its end. */
  datatype Delivery = Delivery(bytes: seq<byte>, count: nat)

  /**
   * Any number of blocks, one after the other, with any pause between them: each is
   * delivered exactly, and each with its own byte count, up to the first one in which a
   * stall does harm. `starts` are the registers after the start edges. With no stalls at
   * all, all blocks are delivered.
   */
  method DecompressAll(jobs: seq<Job>, history: seq<byte>)
    returns (got: seq<Delivery>, r: Regs, ghost starts: seq<Regs>)
    requires |history| == MAX_BLOCK_SIZE && forall k :: 0 <= k < |jobs| ==> Proper(jobs[k])
    ensures |got| <= |jobs|
    ensures forall k :: 0 <= k < |got| ==>
              Decode(jobs[k].src, 0, []) == Some(got[k].bytes) && |got[k].bytes| == got[k].count == jobs[k].size
    ensures |starts| >= |got| && forall k :: 0 <= k < |got| ==> HarmlessRun(starts[k], jobs[k].src, 0, jobs[k].plan)
    ensures |got| < |jobs| ==>
              |starts| > |got| && !HarmlessRun(starts[|got|], jobs[|got|].src, 0, jobs[|got|].plan)
    ensures |got| < |jobs| ==>
              exists k :: 0 <= k < |jobs[|got|].plan| && !(jobs[|got|].plan[k].valid && jobs[|got|].plan[k].ready)
  {
    hide WellFormed, Harmless, HarmlessRun, Decode, PosEdge;
    got, r, starts := [], Reset(history), [];
    for k := 0 to |jobs|
      invariant |got| == |starts| == k && r.state == Idle && |r.historyRam| == MAX_BLOCK_SIZE && !r.sReady
      invariant forall i :: 0 <= i < k ==>
                  Decode(jobs[i].src, 0, []) == Some(got[i].bytes) && |got[i].bytes| == got[i].count == jobs[i].size
      invariant forall i :: 0 <= i < k ==> HarmlessRun(starts[i], jobs[i].src, 0, jobs[i].plan)
    {
      var j := jobs[k];
      assert Proper(j);
      RestThenStart(r, j.rest, j.start, j.src, j.size);
      starts := starts + [PosEdge(Rested(r, j.rest), j.start)];
      var sink, marks, harmless;
      sink, marks, r, harmless := DecompressStream(j.src, j.size, j.plan, Rested(r, j.rest), j.start);
      if !harmless {
        return;
      }
      got := got + [Delivery(sink, r.decompressedBytes)];
    }
  }
}
