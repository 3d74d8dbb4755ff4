/**
 * The search for matches, step by step: which positions are probed, what the hash table
 * remembers, and which position a search stops at. The table remembers, under each hash,
 * the position put there last; a ghost log lists all positions put there, in order.
 */
module Lz4Search {
  import opened Bytes
  import opened Lz4Format

  const MIN_LENGTH := MFLIMIT + 1
  const SKIP_TRIGGER := 64  // acceleration and step are scaled by 2^6

  // ---------------------------------------------------------------- what the table remembers

  ghost predicate HashFits(hash: nat -> nat, size: nat) {
    forall w :: hash(w) < size
  }

  /** The hash of the four bytes at a position. */
  function HashAt(src: seq<byte>, hash: nat -> nat, p: nat): (h: nat) {
    if p + 4 <= |src| then hash(ReadWord(src, p, 4)) else 0
  }

  /** The last position of the log with hash `h`; a fresh table has position 0 everywhere. */
  function LastUnder(src: seq<byte>, hash: nat -> nat, log: seq<nat>, h: nat): (p: nat)
  {
    if log == [] then 0
    else
      var p := log[|log| - 1];
      if HashAt(src, hash, p) == h then p else LastUnder(src, hash, log[..|log| - 1], h)
  }

  ghost predicate TableIs(table: seq<nat>, src: seq<byte>, hash: nat -> nat, log: seq<nat>) {
    forall h :: 0 <= h < |table| ==> table[h] == LastUnder(src, hash, log, h)
  }

  ghost predicate LogBelow(log: seq<nat>, p: nat) {
    forall k :: 0 <= k < |log| ==> log[k] < p
  }

  /** The position that the table remembers for the four bytes at `p`. */
  function Candidate(src: seq<byte>, hash: nat -> nat, log: seq<nat>, p: nat): (m: nat) {
    LastUnder(src, hash, log, HashAt(src, hash, p))
  }

  /** The four bytes there are the four bytes at `p`. */
  predicate Hit(src: seq<byte>, hash: nat -> nat, log: seq<nat>, p: nat) {
    var m := Candidate(src, hash, log, p);
    p + 4 <= |src| && m + 4 <= |src| && ReadWord(src, m, 4) == ReadWord(src, p, 4)
  }

  lemma TableAt(table: seq<nat>, src: seq<byte>, hash: nat -> nat, log: seq<nat>, h: nat)
    requires TableIs(table, src, hash, log) && h < |table|
    ensures table[h] == LastUnder(src, hash, log, h)
  {
  }

  lemma TablePut(table: seq<nat>, src: seq<byte>, hash: nat -> nat, log: seq<nat>, p: nat)
    requires TableIs(table, src, hash, log) && HashAt(src, hash, p) < |table|
    ensures TableIs(table[HashAt(src, hash, p) := p], src, hash, log + [p])
  {
    hide HashAt;
    assert (log + [p])[..|log|] == log;
  }

  // ---------------------------------------------------------------- where it is looked up

  /** How far it is from probe `i` to the next: one, and then one more every 64 probes. */
  function Step(acceleration: nat, i: nat): (s: nat) {
    if i == 0 then 1 else (acceleration * SKIP_TRIGGER + i - 1) / SKIP_TRIGGER
  }

  function Probe(start: nat, acceleration: nat, i: nat): (p: nat)
    ensures p >= start && (acceleration >= 1 ==> p >= start + i)
  {
    if i == 0 then start else Probe(start, acceleration, i - 1) + Step(acceleration, i - 1)
  }

  /** The first `n` probes. */
  function Probes(start: nat, acceleration: nat, n: nat): (ps: seq<nat>)
    ensures |ps| == n
    ensures forall i {:trigger ps[i]} :: 0 <= i < n ==> ps[i] == Probe(start, acceleration, i)
  {
    seq(n, i requires 0 <= i < n => Probe(start, acceleration, i))
  }

  lemma ProbesMore(start: nat, acceleration: nat, n: nat)
    ensures Probes(start, acceleration, n + 1) == Probes(start, acceleration, n) + [Probe(start, acceleration, n)]
  {
  }

  lemma {:induction false} ProbesGrow(start: nat, acceleration: nat, i: nat, j: nat)
    requires i < j && acceleration >= 1
    ensures Probe(start, acceleration, i) < Probe(start, acceleration, j)
    decreases j
  {
    if i + 1 < j {
      ProbesGrow(start, acceleration, i, j - 1);
    }
  }

  /** The first `n` probes of a search miss. */
  ghost predicate Misses(src: seq<byte>, hash: nat -> nat, acceleration: nat, log: seq<nat>, start: nat, n: nat) {
    forall i: nat :: i < n ==> MissAt(src, hash, acceleration, log, start, i)
  }

  /** Probe `i` misses: among the positions before the search, and the probes before it. */
  predicate MissAt(src: seq<byte>, hash: nat -> nat, acceleration: nat, log: seq<nat>, start: nat, i: nat) {
    !Hit(src, hash, log + Probes(start, acceleration, i), Probe(start, acceleration, i))
  }

  /** The search looks at probe `i` only if the probe after it is not too close to the end. */
  predicate Reaches(src: seq<byte>, acceleration: nat, start: nat, i: nat) {
    Probe(start, acceleration, i + 1) + MFLIMIT <= |src| + 1
  }

  /** The search from `start` stops at probe `n`, which is the first to hit. */
  ghost predicate StopsAt(src: seq<byte>, hash: nat -> nat, acceleration: nat, log: seq<nat>, start: nat, n: nat) {
    && Misses(src, hash, acceleration, log, start, n) && !MissAt(src, hash, acceleration, log, start, n)
    && Reaches(src, acceleration, start, n)
  }

  /** The search from `start` comes to the end after `n` misses. */
  ghost predicate EndsAt(src: seq<byte>, hash: nat -> nat, acceleration: nat, log: seq<nat>, start: nat, n: nat) {
    Misses(src, hash, acceleration, log, start, n) && !Reaches(src, acceleration, start, n)
  }

  lemma NothingProbed(src: seq<byte>, hash: nat -> nat, acceleration: nat, log: seq<nat>, start: nat)
    ensures Misses(src, hash, acceleration, log, start, 0) && log + Probes(start, acceleration, 0) == log
  {
  }

  lemma MissIs(src: seq<byte>, hash: nat -> nat, acceleration: nat, log: seq<nat>, start: nat, i: nat, m: nat)
    requires m == Candidate(src, hash, log + Probes(start, acceleration, i), Probe(start, acceleration, i))
    requires Probe(start, acceleration, i) + 4 <= |src| && m + 4 <= |src|
    ensures MissAt(src, hash, acceleration, log, start, i)
       <==> ReadWord(src, m, 4) != ReadWord(src, Probe(start, acceleration, i), 4)
  {
    hide ReadWord;
  }

  lemma MissesMore(src: seq<byte>, hash: nat -> nat, acceleration: nat, log: seq<nat>, start: nat, n: nat)
    requires Misses(src, hash, acceleration, log, start, n) && MissAt(src, hash, acceleration, log, start, n)
    ensures Misses(src, hash, acceleration, log, start, n + 1)
  {
    hide MissAt;
  }

  // ---------------------------------------------------------------- the sequences that come of it

  /** A match at `p` and `m`, extended backwards to `ip` over bytes after `anchor` as far as they agree. */
  predicate CaughtUp(src: seq<byte>, anchor: nat, p: nat, m: nat, ip: nat, offset: nat) {
    && anchor <= ip <= p <= |src| && 1 <= offset <= ip && m + offset == p
    && (forall k :: ip <= k < p ==> src[k] == src[k - offset])
    && (ip > anchor && ip > offset ==> src[ip - 1] != src[ip - 1 - offset])
  }

  /** A search that starts right after `anchor` finds a match that starts at `ip`; `log'` is the log then. */
  ghost predicate Searched(src: seq<byte>, hash: nat -> nat, acceleration: nat, log: seq<nat>, anchor: nat,
                           ip: nat, offset: nat, log': seq<nat>)
  {
    exists n: nat :: SearchedBy(src, hash, acceleration, log, anchor, ip, offset, log', n)
  }

  ghost predicate SearchedBy(src: seq<byte>, hash: nat -> nat, acceleration: nat, log: seq<nat>, anchor: nat,
                             ip: nat, offset: nat, log': seq<nat>, n: nat)
  {
    var p, before := Probe(anchor + 1, acceleration, n), log + Probes(anchor + 1, acceleration, n);
    && StopsAt(src, hash, acceleration, log, anchor + 1, n) && log' == before + [p]
    && CaughtUp(src, anchor, p, Candidate(src, hash, before, p), ip, offset)
  }

  /** The log when a match has ended at `anchor`, and the position before that has been put. */
  function Filled(log: seq<nat>, anchor: nat): (log': seq<nat>) {
    if anchor < 2 then log else log + [anchor - 2]
  }

  /** From `anchor` on, the next match starts at `ip`: at `anchor` itself, or where a search finds one. */
  ghost predicate NextMatch(src: seq<byte>, hash: nat -> nat, acceleration: nat, log: seq<nat>, anchor: nat,
                            ip: nat, offset: nat, log': seq<nat>)
  {
    && |src| >= MIN_LENGTH && anchor + MFLIMIT <= |src|
    && var filled := Filled(log, anchor);
       if anchor > 0 && Hit(src, hash, filled, anchor) then
         ip == anchor && log' == filled + [anchor] && offset + Candidate(src, hash, filled, anchor) == anchor
       else Searched(src, hash, acceleration, filled + [anchor], anchor, ip, offset, log')
  }

  /** From `anchor` on there is no further match. */
  ghost predicate NoMatch(src: seq<byte>, hash: nat -> nat, acceleration: nat, log: seq<nat>, anchor: nat) {
    |src| >= MIN_LENGTH && anchor + MFLIMIT <= |src| ==>
      var filled := Filled(log, anchor);
      && !(anchor > 0 && Hit(src, hash, filled, anchor))
      && Exhausted(src, hash, acceleration, filled + [anchor], anchor + 1)
  }

  ghost predicate Exhausted(src: seq<byte>, hash: nat -> nat, acceleration: nat, log: seq<nat>, start: nat) {
    exists n: nat :: EndsAt(src, hash, acceleration, log, start, n)
  }

  /** Each sequence is the next match where the one before it ended; `logs` are the logs in between. */
  ghost predicate Traced(src: seq<byte>, hash: nat -> nat, acceleration: nat, qs: seq<Sequence>, logs: seq<seq<nat>>) {
    && |logs| == |qs| + 1 && logs[0] == []
    && forall k :: 0 <= k < |qs| ==> TracedAt(src, hash, acceleration, qs, logs, k)
  }

  ghost predicate TracedAt(src: seq<byte>, hash: nat -> nat, acceleration: nat, qs: seq<Sequence>,
                           logs: seq<seq<nat>>, k: nat)
    requires k < |qs| < |logs|
  {
    var before := Expand(qs[..k]);
    && before.Some?
    && var anchor := |before.value|;
       NextMatch(src, hash, acceleration, logs[k], anchor, anchor + |qs[k].literals|, qs[k].offset, logs[k + 1])
  }

  lemma TracedMore(src: seq<byte>, hash: nat -> nat, acceleration: nat, qs: seq<Sequence>, logs: seq<seq<nat>>,
                   q: Sequence, log: seq<nat>)
    requires Traced(src, hash, acceleration, qs, logs) && Expand(qs).Some?
    requires var anchor := |Expand(qs).value|;
             NextMatch(src, hash, acceleration, logs[|qs|], anchor, anchor + |q.literals|, q.offset, log)
    ensures Traced(src, hash, acceleration, qs + [q], logs + [log])
  {
    hide NextMatch, Expand;
    var qs', logs' := qs + [q], logs + [log];
    assert qs'[..|qs|] == qs;
    forall k | 0 <= k < |qs'| ensures TracedAt(src, hash, acceleration, qs', logs', k) {
      if k < |qs| {
        assert TracedAt(src, hash, acceleration, qs, logs, k) && qs'[..k] == qs[..k];
      }
    }
  }

  // ---------------------------------------------------------------- runs of equal bytes

  /** The bytes from `x` on, `n` of them, are all the same. */
  ghost predicate Uniform(src: seq<byte>, x: nat, n: nat)
    requires x + n <= |src|
  {
    forall k :: x < k < x + n ==> src[k] == src[x]
  }

  /** No `reach` bytes in a row between `lo` and `hi` are the same: the search has not missed a run. */
  ghost predicate NoLongRun(src: seq<byte>, lo: nat, hi: int, reach: nat)
    requires hi <= |src|
  {
    forall x :: lo <= x && x + reach <= hi ==> !Uniform(src, x, reach)
  }

  /** How many equal bytes the search cannot pass over, for a given acceleration. */
  function Reach(acceleration: nat, size: nat): (reach: nat) {
    2 * MaxStep(acceleration, size) + 4
  }

  /** The distance of two probes grows by one every 64 probes. */
  function MaxStep(acceleration: nat, size: nat): (s: nat)
    ensures s >= 3
  {
    acceleration + size / SKIP_TRIGGER + 3
  }

  lemma StepBound(acceleration: nat, size: nat, i: nat)
    requires i <= size && acceleration >= 1
    ensures 1 <= Step(acceleration, i) <= MaxStep(acceleration, size)
  {
  }

  /** Two probes in a row inside a run are a hit, so a search does not pass over a long run. */
  lemma {:induction false} MissesNoRun(src: seq<byte>, hash: nat -> nat, acceleration: nat, log: seq<nat>, start: nat,
                                       n: nat)
    requires Misses(src, hash, acceleration, log, start, n) && 1 <= start && acceleration >= 1
    requires Probe(start, acceleration, n) + 4 <= |src|
    ensures NoLongRun(src, start - 1, Probe(start, acceleration, n) + 3, Reach(acceleration, |src|))
    decreases n
  {
    hide NoLongRun, MaxStep, ReadWord, MissAt;
    var reach := Reach(acceleration, |src|);
    if n == 0 {
      ShortStart(src, start - 1, start + 3, reach);
    } else {
      ProbesGrow(start, acceleration, n - 1, n);
      MissesNoRun(src, hash, acceleration, log, start, n - 1);
      StepBound(acceleration, |src|, n - 1);
      if n >= 2 {
        StepBound(acceleration, |src|, n - 2);
        ProbesGrow(start, acceleration, n - 2, n - 1);
        assert MissAt(src, hash, acceleration, log, start, n - 1);
        MissDiffers(src, hash, acceleration, log, start, n - 2);
      }
      NoRunHere(src, start, if n >= 2 then Some(Probe(start, acceleration, n - 2)) else None,
                Probe(start, acceleration, n - 1), Probe(start, acceleration, n), MaxStep(acceleration, |src|));
    }
  }

  /** A probe that misses differs from the probe before it. */
  lemma MissDiffers(src: seq<byte>, hash: nat -> nat, acceleration: nat, log: seq<nat>, start: nat, i: nat)
    requires MissAt(src, hash, acceleration, log, start, i + 1) && acceleration >= 1
    requires Probe(start, acceleration, i + 1) + 4 <= |src| && Probe(start, acceleration, i) + 4 <= |src|
    ensures ReadWord(src, Probe(start, acceleration, i), 4) != ReadWord(src, Probe(start, acceleration, i + 1), 4)
  {
    hide ReadWord;
    var before, p := log + Probes(start, acceleration, i + 1), Probe(start, acceleration, i);
    assert before[|before| - 1] == p;
  }

  lemma NoRunHere(src: seq<byte>, start: nat, last: Option<nat>, p: nat, p': nat, s: nat)
    requires 1 <= start <= p < p' <= p + s && p' + 4 <= |src| && s >= 3
    requires last.None? ==> p == start
    requires last.Some? ==>
              start <= last.value < p <= last.value + s && ReadWord(src, last.value, 4) != ReadWord(src, p, 4)
    requires NoLongRun(src, start - 1, p + 3, 2 * s + 4)
    ensures NoLongRun(src, start - 1, p' + 3, 2 * s + 4)
  {
    hide ReadWord;
    var reach := 2 * s + 4;
    forall x | start - 1 <= x && x + reach <= p' + 3 ensures !Uniform(src, x, reach) {
      if x + reach > p + 3 && Uniform(src, x, reach) {
        UniformWords(src, x, reach, last.value, p);
        assert false;
      }
    }
  }

  lemma UniformWords(src: seq<byte>, x: nat, n: nat, i: nat, j: nat)
    requires x + n <= |src| && Uniform(src, x, n) && x <= i && x <= j && i + 4 <= x + n && j + 4 <= x + n
    ensures ReadWord(src, i, 4) == ReadWord(src, j, 4)
  {
    hide ReadWord;
    var a, b := src[i..i + 4], src[j..j + 4];
    forall k | 0 <= k < 4 ensures a[k] == b[k] {
      assert a[k] == src[i + k] && b[k] == src[j + k];
    }
    SameWords(src, i, src, j, 4);
  }

  lemma ShorterRun(src: seq<byte>, lo: nat, hi: int, hi': int, reach: nat)
    requires hi' <= hi <= |src| && NoLongRun(src, lo, hi, reach)
    ensures NoLongRun(src, lo, hi', reach)
  {
  }

  lemma ShortStart(src: seq<byte>, lo: nat, hi: nat, reach: nat)
    requires hi <= |src| && hi < lo + reach
    ensures NoLongRun(src, lo, hi, reach)
  {
  }
}
