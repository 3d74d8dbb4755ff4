/**
 * LZ4_compress_generic for inputs below 64 KB + 11 bytes: 16-bit hash-table entries, no
 * dictionary, with or without a limit on the output. The hash is any function of the
 * four bytes at a position: nothing below depends on it.
 */
module Lz4Encoder {
  import opened Bytes
  import opened Lz4Format
  import opened Lz4Writer
  import opened Lz4Count
  import opened Lz4Search

  type u16 = x: int | 0 <= x < 65536

  const LIMIT_64K := 65536 + MFLIMIT - 1

  /** LZ4_compressBound, for the sizes considered here. */
  function CompressBound(n: nat): (r: nat) {
    n + n / 255 + 16
  }

  // ---------------------------------------------------------------- what has been encoded

  /** The literals before a match contain no long run, and the match goes on as far as it can. */
  ghost predicate GreedyAt(src: seq<byte>, qs: seq<Sequence>, k: nat, reach: nat)
    requires k < |qs|
  {
    var q, before := qs[k], Expand(qs[..k]);
    && before.Some?
    && var at := |before.value| + |q.literals|;
       var end := at + q.matchLength;
       && q.offset <= at && end + LASTLITERALS <= |src|
       && NoLongRun(src, |before.value|, at, reach)
       && (end + LASTLITERALS < |src| ==> src[end] != src[end - q.offset])
  }

  /** A block whose matches are those the search finds, one after the other, each as long as it can be. */
  ghost predicate GreedyBlock(z: seq<byte>, src: seq<byte>, hash: nat -> nat, acceleration: nat) {
    exists qs: seq<Sequence>, anchor: nat, logs: seq<seq<nat>> ::
      GreedyAs(z, src, hash, acceleration, qs, anchor, logs)
  }

  ghost predicate GreedyAs(z: seq<byte>, src: seq<byte>, hash: nat -> nat, acceleration: nat, qs: seq<Sequence>,
                           anchor: nat, logs: seq<seq<nat>>)
  {
    && (forall q :: q in qs ==> Printable(q))
    && Encoded(src, PrintAll(qs), qs, anchor, Reach(acceleration, |src|))
    && NoLongRun(src, anchor, |src| - Reach(acceleration, |src|), Reach(acceleration, |src|))
    && Traced(src, hash, acceleration, qs, logs) && NoMatch(src, hash, acceleration, logs[|qs|], anchor)
    && z == PrintAll(qs) + PrintLiterals(src[anchor..], 0)
  }

  /** The sequences `qs`, and literals from there to `end`, leave no room for more in `size` bytes. */
  ghost predicate OverflowsAt(src: seq<byte>, qs: seq<Sequence>, anchor: nat, end: nat, reach: nat, size: nat)
    requires forall q :: q in qs ==> Printable(q)
  {
    && Encoded(src, PrintAll(qs), qs, anchor, reach) && anchor <= end <= |src|
    && NoLongRun(src, anchor, if end + reach <= |src| then end else |src| - reach, reach)
    && |PrintAll(qs)| + 12 + |Extension(end - anchor)| + (end - anchor) > size
  }

  /** What such a search finds does not fit `size` bytes. */
  ghost predicate Overflows(src: seq<byte>, hash: nat -> nat, acceleration: nat, size: nat) {
    exists qs: seq<Sequence>, anchor: nat, end: nat, logs: seq<seq<nat>> ::
      OverflowsAs(src, hash, acceleration, qs, anchor, end, logs, size)
  }

  ghost predicate OverflowsAs(src: seq<byte>, hash: nat -> nat, acceleration: nat, qs: seq<Sequence>, anchor: nat,
                              end: nat, logs: seq<seq<nat>>, size: nat)
  {
    && (forall q :: q in qs ==> Printable(q))
    && OverflowsAt(src, qs, anchor, end, Reach(acceleration, |src|), size)
    && Traced(src, hash, acceleration, qs, logs)
    && (end == anchor || LiteralsTo(src, hash, acceleration, logs[|qs|], anchor, end))
  }

  /** The literals from `anchor` on go to `end`: up to the next match, or to the end of the input. */
  ghost predicate LiteralsTo(src: seq<byte>, hash: nat -> nat, acceleration: nat, log: seq<nat>, anchor: nat,
                             end: nat) {
    || (exists offset: nat, log': seq<nat> :: NextMatch(src, hash, acceleration, log, anchor, end, offset, log'))
    || (end == |src| && NoMatch(src, hash, acceleration, log, anchor))
  }

  /** With room for the worst case nothing overflows. */
  lemma OverflowsBound(src: seq<byte>, hash: nat -> nat, acceleration: nat, size: nat)
    requires Overflows(src, hash, acceleration, size)
    ensures size < CompressBound(|src|)
  {
    hide Encoded, NoLongRun, Traced, LiteralsTo, Reach;
    var qs, anchor, end, logs :| OverflowsAs(src, hash, acceleration, qs, anchor, end, logs, size);
    EncodedSize(src, PrintAll(qs), qs, anchor, Reach(acceleration, |src|));
  }

  /** `qs`, printed as `e`, stand for the first `anchor` bytes of the input. */
  ghost predicate Encoded(src: seq<byte>, e: seq<byte>, qs: seq<Sequence>, anchor: nat, reach: nat): (holds: bool)
    ensures holds ==> anchor <= |src|
  {
    && anchor <= |src|
    && (forall q :: q in qs ==> Printable(q))
    && (forall k :: 0 <= k < |qs| ==> ConformingAt(qs, k, |src|))
    && (forall k :: 0 <= k < |qs| ==> GreedyAt(src, qs, k, reach))
    && Expand(qs) == Some(src[..anchor])
    && e == PrintAll(qs)
    && |e| <= anchor + anchor / 255
  }

  /** A finished block: it conforms, and means the input. */
  ghost predicate Encodes(z: seq<byte>, src: seq<byte>) {
    exists b: Block ::
      && (forall q :: q in b.sequences ==> Printable(q))
      && Conforming(b) && Meaning(b) == Some(src) && z == Print(b)
  }

  lemma NothingEncoded(src: seq<byte>, reach: nat)
    ensures Encoded(src, [], [], 0, reach) && PrintAll([]) == []
  {
  }

  /** The output never outgrows the input by more than one byte in 255. */
  lemma SequenceCost(anchor: nat, literals: nat, matchLength: nat)
    requires matchLength >= MINMATCH
    ensures var end := anchor + literals + matchLength;
            anchor + anchor / 255 + 3 + |Extension(literals)| + literals + |Extension(matchLength - MINMATCH)|
            <= end + end / 255
  {
  }

  /** One more sequence: `anchor..ip` literally, `ip..end` as a match. */
  lemma SequenceEncoded(src: seq<byte>, e: seq<byte>, qs: seq<Sequence>, anchor: nat, ip: nat, offset: nat, end: nat,
                        reach: nat)
    requires Encoded(src, e, qs, anchor, reach)
    requires anchor <= ip && ip + MINMATCH <= end && end + LASTLITERALS <= |src| && ip + MFLIMIT <= |src|
    requires 1 <= offset <= ip && offset < 65536
    requires Repeats(src, ip, end, offset)
    requires NoLongRun(src, anchor, ip, reach) && (end + LASTLITERALS < |src| ==> src[end] != src[end - offset])
    ensures var q := Sequence(src[anchor..ip], offset, end - ip);
            Printable(q) && Encoded(src, e + PrintSequence(q), qs + [q], end, reach)
  {
    hide PrintSequence, Repeats, CopyMatch, NoLongRun, GreedyAt, Extension;
    var q := Sequence(src[anchor..ip], offset, end - ip);
    var qs' := qs + [q];
    assert qs'[..|qs|] == qs;
    RepeatsIsCopyMatch(src, ip, end, offset);
    assert src[..anchor] + src[anchor..ip] == src[..ip];
    forall k | 0 <= k < |qs'| ensures ConformingAt(qs', k, |src|) {
      assert k < |qs| ==> ConformingAt(qs, k, |src|) && qs'[..k] == qs[..k];
    }
    GreedyMore(src, qs, q, anchor, reach);
    SequenceCost(anchor, ip - anchor, end - ip);
    SequenceSize(q);
  }

  lemma GreedyMore(src: seq<byte>, qs: seq<Sequence>, q: Sequence, anchor: nat, reach: nat)
    requires anchor <= |src| && Expand(qs) == Some(src[..anchor])
    requires forall k :: 0 <= k < |qs| ==> GreedyAt(src, qs, k, reach)
    requires var at, end := anchor + |q.literals|, anchor + |q.literals| + q.matchLength;
             && q.offset <= at && end + LASTLITERALS <= |src| && NoLongRun(src, anchor, at, reach)
             && (end + LASTLITERALS < |src| ==> src[end] != src[end - q.offset])
    ensures forall k :: 0 <= k < |qs| + 1 ==> GreedyAt(src, qs + [q], k, reach)
  {
    hide Expand, NoLongRun;
    var qs' := qs + [q];
    assert qs'[..|qs|] == qs;
    forall k | 0 <= k < |qs'| ensures GreedyAt(src, qs', k, reach) {
      assert k < |qs| ==> GreedyAt(src, qs, k, reach) && qs'[..k] == qs[..k];
    }
  }

  lemma SequenceSize(q: Sequence)
    requires Printable(q)
    ensures |PrintSequence(q)| == 3 + |Extension(|q.literals|)| + |q.literals| + |Extension(q.matchLength - MINMATCH)|
  {
    hide Extension, Nibble;
  }

  /** The last literals complete the block. */
  lemma BlockEncoded(src: seq<byte>, e: seq<byte>, hash: nat -> nat, acceleration: nat, qs: seq<Sequence>, anchor: nat,
                     logs: seq<seq<nat>>)
    requires Encoded(src, e, qs, anchor, Reach(acceleration, |src|))
    requires NoLongRun(src, anchor, |src| - Reach(acceleration, |src|), Reach(acceleration, |src|))
    requires Traced(src, hash, acceleration, qs, logs) && NoMatch(src, hash, acceleration, logs[|qs|], anchor)
    ensures Encodes(e + PrintLiterals(src[anchor..], 0), src)
    ensures GreedyBlock(e + PrintLiterals(src[anchor..], 0), src, hash, acceleration)
  {
    hide PrintLiterals, PrintAll, Expand, GreedyAt, NoLongRun, Traced, NoMatch, Reach;
    assert GreedyAs(e + PrintLiterals(src[anchor..], 0), src, hash, acceleration, qs, anchor, logs);
    var b := Block(qs, src[anchor..]);
    assert src[..anchor] + src[anchor..] == src;
    assert Conforming(b) && Meaning(b) == Some(src);
  }

  /** A common prefix with an earlier position is a match. */
  lemma AgreeRepeats(src: seq<byte>, ip: nat, match0: nat, n: nat)
    requires match0 < ip && ip + n <= |src| && Agree(src, ip, match0, n)
    ensures Repeats(src, ip, ip + n, ip - match0)
  {
    var offset := ip - match0;
    forall k | ip <= k < ip + n ensures RepeatsAt(src, k, offset) {
      AgreesAt(src, ip, match0, n, k - ip);
    }
  }

  // ---------------------------------------------------------------- searching

  ghost predicate TableBelow(table: seq<u16>, p: nat) {
    forall i :: 0 <= i < |table| ==> table[i] < p
  }

  /** LZ4_putIndexOnHash: the cast to 16 bits loses nothing. */
  method PutIndex(table: array<u16>, h: nat, idx: nat)
    requires h < table.Length && idx < 65536 && TableBelow(table[..], idx + 1)
    modifies table
    ensures TableBelow(table[..], idx + 1)
    ensures table[..] == old(table[..])[h := idx]
  {
    ghost var t := table[..];
    table[h] := idx % 65536;
    forall i | 0 <= i < table.Length ensures table[..][i] < idx + 1 {
      assert t[i] < idx + 1;
    }
  }

  /**
   * The accelerating search: probe positions further and further apart until the four
   * bytes at one agree with those at the position its hash remembers. It stops at the
   * first probe that hits, and comes to the end only if none does; the match is with the
   * position last put under that hash. Every remembered position is before the probe, so
   * in 16-bit mode no distance test is needed. `n` probes have missed.
   */
  method FindMatch(src: seq<byte>, table: array<u16>, hash: nat -> nat, start: nat, acceleration: nat,
                   ghost log: seq<nat>)
    returns (found: bool, ip: nat, match0: nat, ghost n: nat)
    requires |src| >= MIN_LENGTH && |src| < LIMIT_64K && acceleration >= 1
    requires 1 <= start && start + MFLIMIT <= |src| + 1
    requires HashFits(hash, table.Length) && TableBelow(table[..], start) && TableIs(table[..], src, hash, log)
    modifies table
    ensures found ==> match0 < ip && start <= ip && ip + MFLIMIT <= |src|
    ensures found ==> Agree(src, ip, match0, MINMATCH) && TableBelow(table[..], ip + 1)
    ensures found ==>
              var before := log + Probes(start, acceleration, n);
              && StopsAt(src, hash, acceleration, log, start, n) && ip == Probe(start, acceleration, n)
              && match0 == Candidate(src, hash, before, ip) && TableIs(table[..], src, hash, before + [ip])
    ensures !found ==> EndsAt(src, hash, acceleration, log, start, n)
    ensures var reach := Reach(acceleration, |src|);
            NoLongRun(src, start - 1, if found then ip else |src| - reach, reach)
  {
    hide Agree, TableBelow, ReadWord, NoLongRun, MaxStep, TableIs, Misses, MissAt, LastUnder;
    ghost var reach := Reach(acceleration, |src|);
    ip, match0, n := start, 0, 0;
    var forwardIp, step, searchMatchNb: nat := start, 1, acceleration * SKIP_TRIGGER;
    var forwardH := hash(ReadWord(src, forwardIp, 4));
    NothingProbed(src, hash, acceleration, log, start);
    while true
      invariant start <= forwardIp && forwardIp + MFLIMIT <= |src| + 1
      invariant forwardIp == Probe(start, acceleration, n) && step == Step(acceleration, n)
      invariant searchMatchNb == acceleration * SKIP_TRIGGER + n
      invariant forwardH == HashAt(src, hash, forwardIp)
      invariant TableBelow(table[..], forwardIp)
      invariant TableIs(table[..], src, hash, log + Probes(start, acceleration, n))
      invariant Misses(src, hash, acceleration, log, start, n)
      decreases |src| - forwardIp
    {
      var h, current := forwardH, forwardIp;
      assert h < table.Length;
      match0 := table[h];
      BelowAt(table[..], h, forwardIp);
      assert match0 == Candidate(src, hash, log + Probes(start, acceleration, n), current) by {
        TableAt(table[..], src, hash, log + Probes(start, acceleration, n), h);
      }
      ip := forwardIp;
      forwardIp := forwardIp + step;
      step := searchMatchNb / SKIP_TRIGGER;
      searchMatchNb := searchMatchNb + 1;
      MissesNoRun(src, hash, acceleration, log, start, n);
      if forwardIp + MFLIMIT > |src| + 1 {
        found := false;
        StepBound(acceleration, |src|, n);
        ShorterRun(src, start - 1, current + 3, |src| - reach, reach);
        return;
      }
      forwardH := hash(ReadWord(src, forwardIp, 4));
      BelowMore(table[..], current, current + 1);
      TablePut(table[..], src, hash, log + Probes(start, acceleration, n), current);
      PutIndex(table, h, current);
      ProbesMore(start, acceleration, n);
      assert log + Probes(start, acceleration, n) + [current] == log + Probes(start, acceleration, n + 1);
      EqualWords(src, ip, match0, 4);
      MissIs(src, hash, acceleration, log, start, n, match0);
      if ReadWord(src, match0, 4) == ReadWord(src, ip, 4) {
        found := true;
        ShorterRun(src, start - 1, current + 3, current, reach);
        return;
      }
      MissesMore(src, hash, acceleration, log, start, n);
      BelowMore(table[..], current + 1, forwardIp);
      n := n + 1;
    }
  }

  lemma BelowAt(t: seq<u16>, h: nat, p: nat)
    requires h < |t| && TableBelow(t, p)
    ensures t[h] < p
  {
  }

  lemma BelowMore(t: seq<u16>, p: nat, q: nat)
    requires p <= q && TableBelow(t, p)
    ensures TableBelow(t, q)
  {
    forall i | 0 <= i < |t| ensures t[i] < q {
      assert t[i] < p;
    }
  }

  /** Extends a match backwards over bytes not yet encoded. */
  method CatchUp(src: seq<byte>, anchor: nat, filled: nat, found: nat) returns (ip: nat, match0: nat)
    requires found < filled && anchor < filled && filled + MFLIMIT <= |src|
    requires Agree(src, filled, found, MINMATCH)
    ensures anchor <= ip <= filled && match0 < ip && ip - match0 == filled - found
    ensures Agree(src, ip, match0, filled - ip + MINMATCH)
    ensures CaughtUp(src, anchor, filled, found, ip, ip - match0)
  {
    hide Agree, CaughtUp;
    ip, match0 := filled, found;
    if match0 > 0 && src[ip - 1] == src[match0 - 1] {
      AgreesBefore(src, filled, ip, match0);
      ip, match0 := ip - 1, match0 - 1;
      while ip > anchor && match0 > 0 && src[ip - 1] == src[match0 - 1]
        invariant anchor <= ip <= filled && match0 < ip && ip - match0 == filled - found
        invariant Agree(src, ip, match0, filled - ip + MINMATCH)
        decreases ip
      {
        AgreesBefore(src, filled, ip, match0);
        ip, match0 := ip - 1, match0 - 1;
      }
    }
    AgreesBack(src, filled, ip, match0);
    assert CaughtUp(src, anchor, filled, found, ip, ip - match0) by { Stopped(src, anchor, filled, found, ip, match0); }
  }

  lemma Stopped(src: seq<byte>, anchor: nat, filled: nat, found: nat, ip: nat, match0: nat)
    requires match0 < ip <= filled && anchor <= ip && ip - match0 == filled - found && filled + MFLIMIT <= |src|
    requires forall k :: ip <= k < filled ==> src[k] == src[k - (ip - match0)]
    requires !(ip > anchor && match0 > 0 && src[ip - 1] == src[match0 - 1])
    ensures CaughtUp(src, anchor, filled, found, ip, ip - match0)
  {
  }

  lemma AgreesBefore(src: seq<byte>, filled: nat, ip: nat, match0: nat)
    requires 0 < match0 < ip <= filled && filled + MFLIMIT <= |src| && src[ip - 1] == src[match0 - 1]
    requires Agree(src, ip, match0, filled - ip + MINMATCH)
    ensures Agree(src, ip - 1, match0 - 1, filled - (ip - 1) + MINMATCH)
  {
    hide Agree;
    OneAgrees(src, ip - 1, match0 - 1);
    AgreeMore(src, ip - 1, match0 - 1, 1, filled - ip + MINMATCH);
  }

  lemma AgreesBack(src: seq<byte>, filled: nat, ip: nat, match0: nat)
    requires match0 < ip <= filled && filled + MFLIMIT <= |src| && Agree(src, ip, match0, filled - ip + MINMATCH)
    ensures forall k :: ip <= k < filled ==> src[k] == src[k - (ip - match0)]
  {
    hide Agree;
    forall k | ip <= k < filled ensures src[k] == src[k - (ip - match0)] {
      AgreesAt(src, ip, match0, filled - ip + MINMATCH, k - ip);
    }
  }

  // ---------------------------------------------------------------- one sequence

  /** The literals before a match; refused when a limited output might not hold the sequence. */
  method EncodeLiterals(src: seq<byte>, dst: array<byte>, token: nat, anchor: nat, ip: nat, limited: bool,
                        ghost hash: nat -> nat, ghost acceleration: nat, ghost qs: seq<Sequence>,
                        ghost logs: seq<seq<nat>>) returns (ok: bool, op: nat)
    requires token <= dst.Length && Encoded(src, dst[..token], qs, anchor, Reach(acceleration, |src|))
    requires anchor <= ip && ip + MFLIMIT <= |src| && NoLongRun(src, anchor, ip, Reach(acceleration, |src|))
    requires Traced(src, hash, acceleration, qs, logs) && LiteralsTo(src, hash, acceleration, logs[|qs|], anchor, ip)
    requires !limited ==> dst.Length >= CompressBound(|src|)
    modifies dst
    ensures !ok ==> Overflows(src, hash, acceleration, dst.Length)
    ensures ok ==> token < op && op + 5 <= dst.Length
    ensures ok ==> dst[..op] == old(dst[..token]) + PrintLiterals(src[anchor..ip], 0)
  {
    hide PrintLiterals, PrintAll, Expand, ConformingAt, Encoded, Overflows, NoLongRun, Traced, LiteralsTo, Reach;
    var run := ip - anchor;
    ok, op := true, token;
    if limited && token + 1 + run + (2 + 1 + LASTLITERALS) + run / 255 > dst.Length {
      ok := false;
      OverflowsHere(src, dst[..token], hash, acceleration, qs, anchor, ip, logs, dst.Length);
      return;
    }
    EncodedSize(src, dst[..token], qs, anchor, Reach(acceleration, |src|));
    LiteralsSize(src[anchor..ip]);
    op := WriteLiterals(dst, token, src, anchor, ip);
  }

  lemma OverflowsHere(src: seq<byte>, e: seq<byte>, hash: nat -> nat, acceleration: nat, qs: seq<Sequence>, anchor: nat,
                      end: nat, logs: seq<seq<nat>>, size: nat)
    requires Encoded(src, e, qs, anchor, Reach(acceleration, |src|)) && anchor <= end <= |src|
    requires var reach := Reach(acceleration, |src|);
             || NoLongRun(src, anchor, if end + reach <= |src| then end else |src| - reach, reach)
             || (end + MFLIMIT <= |src| && NoLongRun(src, anchor, end, reach))
    requires |e| + 12 + |Extension(end - anchor)| + (end - anchor) > size
    requires Traced(src, hash, acceleration, qs, logs)
    requires end == anchor || LiteralsTo(src, hash, acceleration, logs[|qs|], anchor, end)
    ensures Overflows(src, hash, acceleration, size)
  {
    hide PrintAll, Expand, ConformingAt, GreedyAt, Traced, LiteralsTo;
    assert OverflowsAt(src, qs, anchor, end, Reach(acceleration, |src|), size);
    assert OverflowsAs(src, hash, acceleration, qs, anchor, end, logs, size);
  }

  lemma EncodedSize(src: seq<byte>, e: seq<byte>, qs: seq<Sequence>, anchor: nat, reach: nat)
    requires Encoded(src, e, qs, anchor, reach)
    ensures anchor <= |src| && |e| <= anchor + anchor / 255
  {
  }

  /**
   * The match part of a sequence whose literals have been written. The length counted
   * reaches past every position filled into the table before catching up.
   */
  method EncodeMatch(src: seq<byte>, dst: array<byte>, token: nat, op0: nat, anchor: nat, ip0: nat, match0: nat,
                     limited: bool, ghost filled: nat, ghost hash: nat -> nat, ghost acceleration: nat,
                     ghost qs: seq<Sequence>, ghost logs: seq<seq<nat>>, ghost log: seq<nat>)
    returns (ok: bool, op: nat, ip: nat, ghost qs': seq<Sequence>)
    requires token < op0 && op0 + 5 <= dst.Length && |src| < LIMIT_64K
    requires Encoded(src, dst[..token], qs, anchor, Reach(acceleration, |src|))
    requires Traced(src, hash, acceleration, qs, logs)
    requires match0 < ip0 && NextMatch(src, hash, acceleration, logs[|qs|], anchor, ip0, ip0 - match0, log)
    requires anchor <= ip0 <= filled && filled + MFLIMIT <= |src|
    requires dst[..op0] == dst[..token] + PrintLiterals(src[anchor..ip0], 0)
    requires Agree(src, ip0, match0, filled - ip0 + MINMATCH)
    requires NoLongRun(src, anchor, ip0, Reach(acceleration, |src|))
    requires !limited ==> dst.Length >= CompressBound(|src|)
    modifies dst
    ensures !ok ==> Overflows(src, hash, acceleration, dst.Length)
    ensures ok ==> filled + MINMATCH <= ip && ip + LASTLITERALS <= |src| && op <= dst.Length
    ensures ok ==> Encoded(src, dst[..op], qs', ip, Reach(acceleration, |src|))
    ensures ok ==> Traced(src, hash, acceleration, qs', logs + [log])
    ensures ok && limited ==> op + 6 <= dst.Length
  {
    hide PrintLiterals, PrintSequence, PrintAll, Expand, ConformingAt, Encoded, Agree, IsCommonLength, Overflows,
      NoLongRun, Extension, Repeats, Traced, NextMatch, Reach;
    ghost var before, reach := dst[..token], Reach(acceleration, |src|);
    var offset := ip0 - match0;
    op := WriteOffset(dst, op0, offset);
    var code := Count(src, ip0 + MINMATCH, match0 + MINMATCH, |src| - LASTLITERALS);
    ip := ip0 + MINMATCH + code;
    MatchLength(src, ip0, match0, filled, code);
    ghost var q := Sequence(src[anchor..ip0], offset, ip - ip0);
    qs' := qs + [q];
    SequenceEncoded(src, before, qs, anchor, ip0, offset, ip, reach);
    EncodedTraced(src, before, hash, acceleration, qs, anchor, logs, q, log);
    ok := true;
    EncodedSize(src, before, qs, anchor, reach);
    LiteralsSize(src[anchor..ip0]);
    if limited && op + (1 + LASTLITERALS) + (code + 240) / 255 > dst.Length {
      ok := false;
      SequenceOverflows(src, before, hash, acceleration, qs, q, ip, op, logs + [log], dst.Length);
      return;
    }
    MatchRoom(anchor, token, ip0 - anchor, op, code, |src|, dst.Length, limited);
    SequenceAssembled(before, q, dst[..op]);
    op := WriteMatchCode(dst, token, op, code);
  }

  /** The trace goes on with the sequence. */
  lemma EncodedTraced(src: seq<byte>, e: seq<byte>, hash: nat -> nat, acceleration: nat, qs: seq<Sequence>, anchor: nat,
                      logs: seq<seq<nat>>, q: Sequence, log: seq<nat>)
    requires Encoded(src, e, qs, anchor, Reach(acceleration, |src|)) && Traced(src, hash, acceleration, qs, logs)
    requires NextMatch(src, hash, acceleration, logs[|qs|], anchor, anchor + |q.literals|, q.offset, log)
    ensures Traced(src, hash, acceleration, qs + [q], logs + [log])
  {
    hide PrintAll, Expand, ConformingAt, GreedyAt, Traced, NextMatch, Reach;
    TracedMore(src, hash, acceleration, qs, logs, q, log);
  }

  lemma SequenceOverflows(src: seq<byte>, e: seq<byte>, hash: nat -> nat, acceleration: nat, qs: seq<Sequence>,
                          q: Sequence, end: nat, op: nat, logs: seq<seq<nat>>, size: nat)
    requires Printable(q) && Encoded(src, e + PrintSequence(q), qs + [q], end, Reach(acceleration, |src|))
    requires Traced(src, hash, acceleration, qs + [q], logs)
    requires op == |e| + 3 + |Extension(|q.literals|)| + |q.literals|
    requires op + 6 + (q.matchLength - MINMATCH + 240) / 255 > size
    ensures Overflows(src, hash, acceleration, size)
  {
    hide PrintSequence, Encoded, Overflows, NoLongRun, Traced;
    SequenceSize(q);
    EncodedSize(src, e + PrintSequence(q), qs + [q], end, Reach(acceleration, |src|));
    NoRoomForRun(src, end, Reach(acceleration, |src|));
    OverflowsHere(src, e + PrintSequence(q), hash, acceleration, qs + [q], end, end, logs, size);
  }

  lemma NoRoomForRun(src: seq<byte>, at: nat, reach: nat)
    requires at <= |src|
    ensures reach > 0 ==> NoLongRun(src, at, if at + reach <= |src| then at else |src| - reach, reach)
  {
  }

  /** What the encoder knows before it writes the match length is enough to write it. */
  lemma MatchRoom(anchor: nat, token: nat, literals: nat, op: nat, code: nat, size: nat, room: nat, limited: bool)
    requires token <= anchor + anchor / 255 && op == token + 3 + |Extension(literals)| + literals
    requires anchor + literals + MINMATCH + code + LASTLITERALS <= size
    requires if limited then op + (1 + LASTLITERALS) + (code + 240) / 255 <= room else room >= CompressBound(size)
    ensures op + |Extension(code)| + 3 <= room
    ensures limited ==> op + |Extension(code)| + 6 <= room
  {
    SequenceCost(anchor, literals, MINMATCH + code);
  }

  lemma LiteralsSize(literals: seq<byte>)
    ensures |PrintLiterals(literals, 0)| == 1 + |Extension(|literals|)| + |literals|
  {
  }

  /** The counted length extends the four known bytes, and everything caught up. */
  lemma MatchLength(src: seq<byte>, ip: nat, match0: nat, filled: nat, code: nat)
    requires match0 < ip <= filled && filled + MFLIMIT <= |src|
    requires Agree(src, ip, match0, filled - ip + MINMATCH)
    requires IsCommonLength(src, ip + MINMATCH, match0 + MINMATCH, |src| - LASTLITERALS, code)
    ensures filled <= ip + code && ip + MINMATCH + code + LASTLITERALS <= |src|
    ensures Repeats(src, ip, ip + MINMATCH + code, ip - match0)
    ensures var end := ip + MINMATCH + code; end + LASTLITERALS < |src| ==> src[end] != src[end - (ip - match0)]
  {
    hide Agree, Repeats;
    if ip + code < filled {
      AgreesAt(src, ip, match0, filled - ip + MINMATCH, MINMATCH + code);
    }
    AgreeLess(src, ip, match0, filled - ip + MINMATCH, MINMATCH);
    AgreeMore(src, ip, match0, MINMATCH, code);
    AgreeRepeats(src, ip, match0, MINMATCH + code);
  }

  lemma AgreeLess(s: seq<byte>, i: nat, j: nat, n: nat, m: nat)
    requires i + n <= |s| && j + n <= |s| && m <= n && Agree(s, i, j, n)
    ensures Agree(s, i, j, m)
  {
    assert s[i..i + m] == s[i..i + n][..m];
    assert s[j..j + m] == s[j..j + n][..m];
  }

  /**
   * After a match: remember the position two before its end, and see whether another match
   * starts right here, with the position that the table remembers; then remember this one.
   */
  method FillAndTest(src: seq<byte>, table: array<u16>, hash: nat -> nat, ip: nat, ghost log: seq<nat>)
    returns (again: bool, match0: nat)
    requires 2 <= ip && ip + MFLIMIT <= |src| && |src| < LIMIT_64K
    requires HashFits(hash, table.Length) && TableBelow(table[..], ip - 1) && TableIs(table[..], src, hash, log)
    modifies table
    ensures TableBelow(table[..], ip + 1) && TableIs(table[..], src, hash, log + [ip - 2] + [ip])
    ensures again <==> Hit(src, hash, log + [ip - 2], ip)
    ensures match0 == Candidate(src, hash, log + [ip - 2], ip)
    ensures again ==> match0 < ip && Agree(src, ip, match0, MINMATCH)
  {
    hide Agree, TableBelow, ReadWord, TableIs, LastUnder;
    var h := hash(ReadWord(src, ip - 2, 4));
    assert h < table.Length;
    TablePut(table[..], src, hash, log, ip - 2);
    PutIndex(table, h, ip - 2);
    h := hash(ReadWord(src, ip, 4));
    assert h < table.Length;
    BelowMore(table[..], ip - 1, ip);
    BelowAt(table[..], h, ip);
    match0 := table[h];
    TableAt(table[..], src, hash, log + [ip - 2], h);
    BelowMore(table[..], ip, ip + 1);
    TablePut(table[..], src, hash, log + [ip - 2], ip);
    PutIndex(table, h, ip);
    EqualWords(src, ip, match0, 4);
    again := ReadWord(src, match0, 4) == ReadWord(src, ip, 4);
  }

  // ---------------------------------------------------------------- the main loop

  /** After a match that ended at `anchor`, the table remembers all positions up to there, and none is a match here. */
  ghost predicate Resumes(table: seq<u16>, src: seq<byte>, hash: nat -> nat, log: seq<nat>, anchor: nat) {
    && TableBelow(table, anchor + 1) && TableIs(table, src, hash, Filled(log, anchor) + [anchor])
    && (anchor > 0 ==> !Hit(src, hash, Filled(log, anchor), anchor))
  }

  /** A match, and the matches that follow it without literals. */
  method EncodeMatches(src: seq<byte>, dst: array<byte>, table: array<u16>, hash: nat -> nat,
                       token0: nat, op0: nat, anchor0: nat, ip0: nat, match00: nat,
                       limited: bool, ghost filled0: nat, ghost acceleration: nat, ghost qs0: seq<Sequence>,
                       ghost logs0: seq<seq<nat>>, ghost log0: seq<nat>)
    returns (ok: bool, op: nat, ip: nat, ghost qs: seq<Sequence>, ghost logs: seq<seq<nat>>)
    requires token0 < op0 && op0 + 5 <= dst.Length && |src| < LIMIT_64K
    requires Encoded(src, dst[..token0], qs0, anchor0, Reach(acceleration, |src|))
    requires anchor0 <= ip0 <= filled0 && filled0 + MFLIMIT <= |src|
    requires dst[..op0] == dst[..token0] + PrintLiterals(src[anchor0..ip0], 0)
    requires match00 < ip0 && Agree(src, ip0, match00, filled0 - ip0 + MINMATCH)
    requires NoLongRun(src, anchor0, ip0, Reach(acceleration, |src|))
    requires Traced(src, hash, acceleration, qs0, logs0)
    requires NextMatch(src, hash, acceleration, logs0[|qs0|], anchor0, ip0, ip0 - match00, log0)
    requires HashFits(hash, table.Length) && TableBelow(table[..], filled0 + 1) && TableIs(table[..], src, hash, log0)
    requires !limited ==> dst.Length >= CompressBound(|src|)
    modifies dst, table
    ensures !ok ==> Overflows(src, hash, acceleration, dst.Length)
    ensures ok ==> anchor0 < ip <= |src| && op <= dst.Length
    ensures ok ==>
              Encoded(src, dst[..op], qs, ip, Reach(acceleration, |src|)) && Traced(src, hash, acceleration, qs, logs)
    ensures ok && ip + MFLIMIT <= |src| ==> Resumes(table[..], src, hash, logs[|qs|], ip)
  {
    hide PrintLiterals, Encoded, Agree, TableBelow, TableIs, HashFits, Overflows, NoLongRun, ReadWord, Reach, Traced,
      NextMatch, Hit, LastUnder, Filled, Candidate, Extension;
    var token: nat, anchor: nat, match0: nat := token0, anchor0, match00;
    ghost var filled: nat, log: seq<nat> := filled0, log0;
    op, ip, ok, qs, logs := op0, ip0, true, qs0, logs0;
    TracedSize(src, hash, acceleration, qs, logs);
    assert Reach(acceleration, |src|) > 0 by { ReachPositive(acceleration, |src|); }
    while true
      invariant token < op && op + 5 <= dst.Length
      invariant Encoded(src, dst[..token], qs, anchor, Reach(acceleration, |src|))
      invariant anchor0 <= anchor <= ip <= filled && filled + MFLIMIT <= |src|
      invariant dst[..op] == dst[..token] + PrintLiterals(src[anchor..ip], 0)
      invariant match0 < ip && Agree(src, ip, match0, filled - ip + MINMATCH)
      invariant NoLongRun(src, anchor, ip, Reach(acceleration, |src|))
      invariant Traced(src, hash, acceleration, qs, logs) && |logs| == |qs| + 1
      invariant NextMatch(src, hash, acceleration, logs[|qs|], anchor, ip, ip - match0, log)
      invariant TableBelow(table[..], filled + 1) && TableIs(table[..], src, hash, log)
      decreases |src| - ip
    {
      ghost var qs1;
      ok, op, ip, qs1 :=
        EncodeMatch(src, dst, token, op, anchor, ip, match0, limited, filled, hash, acceleration, qs, logs, log);
      if !ok {
        return;
      }
      qs, logs := qs1, logs + [log];
      TracedSize(src, hash, acceleration, qs, logs);
      if ip + MFLIMIT > |src| {
        return;
      }
      BelowMore(table[..], filled + 1, ip - 1);
      var again;
      again, match0 := FillAndTest(src, table, hash, ip, log);
      assert Filled(log, ip) == log + [ip - 2] by { FilledIs(log, ip); }
      if !again {
        return;
      }
      EncodedSize(src, dst[..op], qs, ip, Reach(acceleration, |src|));
      ShortStart(src, ip, ip, Reach(acceleration, |src|));
      MatchHere(src, hash, acceleration, logs[|qs|], ip, match0);
      token, anchor, log := op, ip, Filled(log, ip) + [ip];
      op := WriteEmptyRun(src, dst, op, ip);
      filled := ip;
    }
  }

  lemma TracedSize(src: seq<byte>, hash: nat -> nat, acceleration: nat, qs: seq<Sequence>, logs: seq<seq<nat>>)
    requires Traced(src, hash, acceleration, qs, logs)
    ensures |logs| == |qs| + 1
  {
  }

  lemma FilledIs(log: seq<nat>, ip: nat)
    requires ip >= 2
    ensures Filled(log, ip) == log + [ip - 2]
  {
  }

  lemma ReachPositive(acceleration: nat, size: nat)
    ensures Reach(acceleration, size) > 0
  {
  }

  lemma MatchHere(src: seq<byte>, hash: nat -> nat, acceleration: nat, log: seq<nat>, ip: nat, match0: nat)
    requires |src| >= MIN_LENGTH && 2 <= ip && ip + MFLIMIT <= |src| && match0 < ip
    requires Hit(src, hash, Filled(log, ip), ip) && match0 == Candidate(src, hash, Filled(log, ip), ip)
    ensures NextMatch(src, hash, acceleration, log, ip, ip, ip - match0, Filled(log, ip) + [ip])
  {
    hide Hit, LastUnder;
  }

  /** A token without literals. */
  method WriteEmptyRun(src: seq<byte>, dst: array<byte>, token: nat, ip: nat) returns (op: nat)
    requires token < dst.Length && ip <= |src|
    modifies dst
    ensures op == token + 1 && dst[..token] == old(dst[..token])
    ensures dst[..op] == dst[..token] + PrintLiterals(src[ip..ip], 0)
  {
    hide PrintLiterals;
    EmptyRunPrints(src, ip);
    dst[token] := 0;
    op := token + 1;
    assert dst[..op] == dst[..token] + [0];
  }

  lemma EmptyRunPrints(src: seq<byte>, ip: nat)
    requires ip <= |src|
    ensures PrintLiterals(src[ip..ip], 0) == [0]
  {
  }

  /** What a search has found, caught up, is the next match. */
  lemma MatchFound(src: seq<byte>, hash: nat -> nat, acceleration: nat, log: seq<nat>, anchor: nat, n: nat, ip: nat,
                   offset: nat)
    requires |src| >= MIN_LENGTH && anchor + MFLIMIT <= |src|
    requires anchor > 0 ==> !Hit(src, hash, Filled(log, anchor), anchor)
    requires StopsAt(src, hash, acceleration, Filled(log, anchor) + [anchor], anchor + 1, n)
    requires var p := Probe(anchor + 1, acceleration, n);
             var before := Filled(log, anchor) + [anchor] + Probes(anchor + 1, acceleration, n);
             CaughtUp(src, anchor, p, Candidate(src, hash, before, p), ip, offset)
    ensures var p := Probe(anchor + 1, acceleration, n);
            var before := Filled(log, anchor) + [anchor] + Probes(anchor + 1, acceleration, n);
            NextMatch(src, hash, acceleration, log, anchor, ip, offset, before + [p])
  {
    hide Hit, StopsAt, CaughtUp, LastUnder;
    var p := Probe(anchor + 1, acceleration, n);
    var before := Filled(log, anchor) + [anchor] + Probes(anchor + 1, acceleration, n);
    assert SearchedBy(src, hash, acceleration, Filled(log, anchor) + [anchor], anchor, ip, offset, before + [p], n);
  }

  lemma NoMatchFound(src: seq<byte>, hash: nat -> nat, acceleration: nat, log: seq<nat>, anchor: nat, n: nat)
    requires anchor > 0 ==> !Hit(src, hash, Filled(log, anchor), anchor)
    requires EndsAt(src, hash, acceleration, Filled(log, anchor) + [anchor], anchor + 1, n)
    ensures NoMatch(src, hash, acceleration, log, anchor)
  {
    hide Hit, EndsAt;
  }

  /** The sequences of the block, up to where only last literals remain. */
  method EncodeSequences(src: seq<byte>, dst: array<byte>, table: array<u16>, hash: nat -> nat,
                         acceleration: nat, limited: bool)
    returns (ok: bool, op: nat, anchor: nat, ghost qs: seq<Sequence>, ghost logs: seq<seq<nat>>)
    requires MIN_LENGTH <= |src| < LIMIT_64K && acceleration >= 1
    requires HashFits(hash, table.Length) && TableBelow(table[..], 1)
    requires !limited ==> dst.Length >= CompressBound(|src|)
    modifies dst, table
    ensures !ok ==> Overflows(src, hash, acceleration, dst.Length)
    ensures ok ==> op <= dst.Length && Encoded(src, dst[..op], qs, anchor, Reach(acceleration, |src|))
    ensures ok ==> NoLongRun(src, anchor, |src| - Reach(acceleration, |src|), Reach(acceleration, |src|))
    ensures ok ==>
              Traced(src, hash, acceleration, qs, logs) && NoMatch(src, hash, acceleration, logs[|qs|], anchor)
  {
    hide PrintLiterals, Encoded, Agree, TableBelow, TableIs, Overflows, NoLongRun, MaxStep, Traced, NextMatch, Hit,
      NoMatch, StopsAt, EndsAt, CaughtUp, LastUnder, Probe, LiteralsTo;
    ghost var reach := Reach(acceleration, |src|);
    NothingEncoded(src, reach);
    assert dst[..0] == [];
    ok, op, anchor, qs, logs := true, 0, 0, [], [[]];
    NothingTraced(src, hash, acceleration);
    var h := hash(ReadWord(src, 0, 4));
    assert h < table.Length;
    FreshTable(table[..], src, hash);
    TablePut(table[..], src, hash, [], 0);
    PutIndex(table, h, 0);
    assert Filled([], 0) + [0] == [] + [0];
    var ip := 1;
    while true
      invariant ok && op <= dst.Length && Encoded(src, dst[..op], qs, anchor, reach)
      invariant ip == anchor + 1 && ip + MFLIMIT <= |src| + 1
      invariant Traced(src, hash, acceleration, qs, logs) && |logs| == |qs| + 1
      invariant Resumes(table[..], src, hash, logs[|qs|], anchor)
      decreases |src| - anchor
    {
      var found, filled, match0, token;
      ghost var n, log;
      log := Filled(logs[|qs|], anchor) + [anchor];
      found, filled, match0, n := FindMatch(src, table, hash, ip, acceleration, log);
      if !found {
        NoMatchFound(src, hash, acceleration, logs[|qs|], anchor, n);
        return;
      }
      ip, match0 := CatchUp(src, anchor, filled, match0);
      ShorterRun(src, anchor, filled, ip, reach);
      MatchFound(src, hash, acceleration, logs[|qs|], anchor, n, ip, ip - match0);
      log := log + Probes(anchor + 1, acceleration, n) + [filled];
      token := op;
      MatchLiterals(src, hash, acceleration, logs[|qs|], anchor, ip, ip - match0, log);
      ok, op := EncodeLiterals(src, dst, token, anchor, ip, limited, hash, acceleration, qs, logs);
      if !ok {
        return;
      }
      assert dst[..token] == dst[..op][..token];
      ok, op, anchor, qs, logs :=
        EncodeMatches(src, dst, table, hash, token, op, anchor, ip, match0, limited, filled,
                      acceleration, qs, logs, log);
      if !ok {
        return;
      }
      TracedSize(src, hash, acceleration, qs, logs);
      if anchor + MFLIMIT > |src| {
        EncodedSize(src, dst[..op], qs, anchor, reach);
        LateAnchor(src, anchor, reach);
        NoMatchLate(src, hash, acceleration, logs[|qs|], anchor);
        return;
      }
      ip := anchor + 1;
    }
  }

  lemma NothingTraced(src: seq<byte>, hash: nat -> nat, acceleration: nat)
    ensures Traced(src, hash, acceleration, [], [[]])
  {
  }

  lemma FreshTable(table: seq<u16>, src: seq<byte>, hash: nat -> nat)
    requires TableBelow(table, 1)
    ensures TableIs(table, src, hash, [])
  {
  }

  lemma MatchLiterals(src: seq<byte>, hash: nat -> nat, acceleration: nat, log: seq<nat>, anchor: nat, ip: nat,
                      offset: nat, log': seq<nat>)
    requires NextMatch(src, hash, acceleration, log, anchor, ip, offset, log')
    ensures LiteralsTo(src, hash, acceleration, log, anchor, ip)
  {
    hide NextMatch;
  }

  lemma NoMatchLate(src: seq<byte>, hash: nat -> nat, acceleration: nat, log: seq<nat>, anchor: nat)
    requires anchor + MFLIMIT > |src| || |src| < MIN_LENGTH
    ensures NoMatch(src, hash, acceleration, log, anchor)
  {
  }

  lemma LateAnchor(src: seq<byte>, anchor: nat, reach: nat)
    requires anchor <= |src| && (anchor + MFLIMIT > |src| || |src| < MIN_LENGTH) && reach >= 10
    ensures NoLongRun(src, anchor, |src| - reach, reach)
  {
  }

  /**
   * LZ4_compress_generic. Every store, overshoot included, is inside the output buffer.
   * The result is the length of a conforming block that means the input, is no longer than
   * the worst case, and has been made by a greedy search; or it is 0, if what such a
   * search finds overflows the buffer. With room for the worst case it is not 0.
   */
  method CompressGeneric(src: seq<byte>, dst: array<byte>, table: array<u16>, hash: nat -> nat,
                         acceleration: nat, limited: bool) returns (r: nat)
    requires |src| < LIMIT_64K && acceleration >= 1
    requires HashFits(hash, table.Length) && TableBelow(table[..], 1)
    requires !limited ==> dst.Length >= CompressBound(|src|)
    modifies dst, table
    ensures dst.Length >= CompressBound(|src|) ==> r > 0
    ensures r > 0 ==> r <= dst.Length && r <= CompressBound(|src|) && Encodes(dst[..r], src)
    ensures r > 0 ==> GreedyBlock(dst[..r], src, hash, acceleration)
    ensures r == 0 ==> Overflows(src, hash, acceleration, dst.Length)
  {
    hide PrintLiterals, Encoded, TableBelow, HashFits, Overflows, NoLongRun, MaxStep, GreedyBlock, Traced, NoMatch;
    ghost var reach := Reach(acceleration, |src|);
    NothingEncoded(src, reach);
    NothingTraced(src, hash, acceleration);
    assert dst[..0] == [];
    ghost var qs, logs := [], [[]];
    var ok, op, anchor := true, 0, 0;
    if |src| == 0 {
      LateAnchor(src, 0, reach);
      NoMatchLate(src, hash, acceleration, [], 0);
      if limited && dst.Length <= 0 {
        OverflowsHere(src, [], hash, acceleration, [], 0, 0, logs, 0);
        OverflowsBound(src, hash, acceleration, 0);
        return 0;
      }
      BlockEncoded(src, [], hash, acceleration, [], 0, logs);
      EmptyRunPrints(src, 0);
      dst[0] := 0;
      assert dst[..1] == [0] && src[0..] == src[0..0] && [] + [0 as byte] == [0];
      return 1;
    }
    if |src| >= MIN_LENGTH {
      ok, op, anchor, qs, logs := EncodeSequences(src, dst, table, hash, acceleration, limited);
      if !ok {
        OverflowsBound(src, hash, acceleration, dst.Length);
        return 0;
      }
    } else {
      LateAnchor(src, 0, reach);
      NoMatchLate(src, hash, acceleration, [], 0);
    }
    EncodedSize(src, dst[..op], qs, anchor, reach);
    LiteralsSize(src[anchor..]);
    var lastRun := |src| - anchor;
    if limited && op + lastRun + 1 + (lastRun + 255 - NIBBLE_MAX) / 255 > dst.Length {
      TracedSize(src, hash, acceleration, qs, logs);
      OverflowsHere(src, dst[..op], hash, acceleration, qs, anchor, |src|, logs, dst.Length);
      OverflowsBound(src, hash, acceleration, dst.Length);
      return 0;
    }
    BlockEncoded(src, dst[..op], hash, acceleration, qs, anchor, logs);
    r := WriteLastLiterals(dst, op, src, anchor);
  }
}
