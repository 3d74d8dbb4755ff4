/**
 * What the search makes of records: a block that repeats after `d` bytes, with no four
 * bytes twice within a period, is compressed to about `d` bytes, if the hash keeps its
 * four-byte words apart. The search cannot pass over a period.
 */
module Lz4Periodic {
  import opened Bytes
  import opened Lz4Format
  import opened Lz4Search
  import opened Lz4Encoder
  import opened Lz4Greedy
  import opened Lz4Unique
  import opened Lz4Compressor
  import Lz4Codec

  // ---------------------------------------------------------------- blocks with a period

  ghost predicate Periodic(src: seq<byte>, d: nat) {
    && d >= 1 && d + 4 <= |src|
    && (forall k :: 0 <= k < |src| - d ==> src[k + d] == src[k])
    && (forall i, j :: 0 <= i < j < d && j + 4 <= |src| ==> ReadWord(src, i, 4) != ReadWord(src, j, 4))
  }

  /** Different four-byte words of the block have different hashes. */
  ghost predicate KeepsApart(hash: nat -> nat, src: seq<byte>) {
    forall i, j ::
        0 <= i && 0 <= j && i + 4 <= |src| && j + 4 <= |src| && HashAt(src, hash, i) == HashAt(src, hash, j) ==>
      ReadWord(src, i, 4) == ReadWord(src, j, 4)
  }

  lemma {:induction false} FoldsBack(src: seq<byte>, d: nat, k: nat)
    requires Periodic(src, d) && k < |src|
    ensures d >= 1 && k % d < |src| && src[k] == src[k % d]
    decreases k
  {
    hide ReadWord, Periodic;
    PeriodPositive(src, d);
    if k >= d {
      ModLess(k, d);
      FoldsBack(src, d, k - d);
      ByteStepsBack(src, d, k);
    } else {
      DivisionUnique(k, d, 0, k);
    }
  }

  lemma ByteStepsBack(src: seq<byte>, d: nat, k: nat)
    requires Periodic(src, d) && d <= k < |src|
    ensures src[k] == src[k - d]
  {
    hide ReadWord;
    assert src[k - d + d] == src[k - d];
  }

  lemma ModLess(k: nat, d: nat)
    requires 1 <= d <= k
    ensures (k - d) % d == k % d
  {
    assert k == d * (k / d) + k % d;
    assert k - d == d * (k / d - 1) + k % d;
    DivisionUnique(k - d, d, k / d - 1, k % d);
  }

  lemma DivisionUnique(k: nat, d: nat, q: int, r: nat)
    requires d >= 1 && k == d * q + r && r < d
    ensures k % d == r
  {
    var q', r' := k / d, k % d;
    assert d * (q - q') == r' - r;
    if q != q' {
      Apart(d, q - q');
    }
  }

  lemma Apart(d: nat, x: int)
    requires x != 0
    ensures d * x >= d || d * x <= -(d as int)
  {
  }

  /** Two words are the same exactly if they are whole periods apart. */
  lemma SameResidue(src: seq<byte>, d: nat, i: nat, j: nat)
    requires Periodic(src, d) && i + 4 <= |src| && j + 4 <= |src|
    ensures ReadWord(src, i, 4) == ReadWord(src, j, 4) <==> i % d == j % d
  {
    WordFoldsBack(src, d, i);
    WordFoldsBack(src, d, j);
    hide ReadWord;
  }

  lemma {:induction false} WordFoldsBack(src: seq<byte>, d: nat, i: nat)
    requires Periodic(src, d) && i + 4 <= |src|
    ensures d >= 1 && i % d < d && i % d + 4 <= |src| && ReadWord(src, i, 4) == ReadWord(src, i % d, 4)
    decreases i
  {
    hide ReadWord, Periodic;
    PeriodPositive(src, d);
    if i >= d {
      ModLess(i, d);
      WordFoldsBack(src, d, i - d);
      WordStepsBack(src, d, i);
    } else {
      DivisionUnique(i, d, 0, i);
    }
  }

  lemma WordStepsBack(src: seq<byte>, d: nat, i: nat)
    requires Periodic(src, d) && d <= i && i + 4 <= |src|
    ensures ReadWord(src, i, 4) == ReadWord(src, i - d, 4)
  {
    hide ReadWord;
    var a, b := src[i..i + 4], src[i - d..i - d + 4];
    forall k | 0 <= k < 4 ensures a[k] == b[k] {
      assert src[i - d + k + d] == src[i - d + k];
    }
    SameWords(src, i, src, i - d, 4);
  }

  lemma PeriodPositive(src: seq<byte>, d: nat)
    requires Periodic(src, d)
    ensures d >= 1 && d + 4 <= |src|
  {
  }

  /** Bytes that are whole periods apart are equal. */
  lemma PeriodsApart(src: seq<byte>, d: nat, i: nat, offset: nat)
    requires Periodic(src, d) && offset <= i < |src| && i % d == (i - offset) % d
    ensures src[i] == src[i - offset]
  {
    hide ReadWord;
    FoldsBack(src, d, i);
    FoldsBack(src, d, i - offset);
  }

  // ---------------------------------------------------------------- counting, and remembering

  /** Of more than `d` numbers below `d`, two are equal. */
  lemma Pigeonhole(s: seq<nat>, d: nat) returns (a: nat, b: nat)
    requires |s| > d && forall k :: 0 <= k < |s| ==> s[k] < d
    ensures a < b < |s| && s[a] == s[b]
  {
    var all := set k | 0 <= k < |s| :: s[k];
    if forall x, y :: 0 <= x < y < |s| ==> s[x] != s[y] {
      Distinct(s, all);
      SubsetSize(all, Below(d));
    }
    a, b :| 0 <= a < b < |s| && s[a] == s[b];
  }

  function Below(d: nat): (r: set<nat>)
    ensures |r| == d && forall k: nat :: k in r <==> k < d
  {
    if d == 0 then {} else Below(d - 1) + {d - 1}
  }

  lemma {:induction false} Distinct(s: seq<nat>, all: set<nat>)
    requires all == set k | 0 <= k < |s| :: s[k]
    requires forall x, y :: 0 <= x < y < |s| ==> s[x] != s[y]
    ensures |all| == |s|
    decreases |s|
  {
    if s != [] {
      var n := |s| - 1;
      var rest := set k | 0 <= k < n :: s[..n][k];
      Distinct(s[..n], rest);
      assert all == rest + {s[n]};
    }
  }

  lemma {:induction false} SubsetSize(a: set<nat>, b: set<nat>)
    requires a <= b
    ensures |a| <= |b|
    decreases a
  {
    if a != {} {
      var x :| x in a;
      SubsetSize(a - {x}, b - {x});
    }
  }

  /** If some position of the log has the same four bytes, the table leads to one that has. */
  lemma {:induction false} RemembersSame(src: seq<byte>, hash: nat -> nat, log: seq<nat>, k: nat, h: nat)
    requires k < |log| && HashAt(src, hash, log[k]) == h
    ensures LastUnder(src, hash, log, h) in log && HashAt(src, hash, LastUnder(src, hash, log, h)) == h
  {
    hide HashAt;
    var n := |log| - 1;
    if HashAt(src, hash, log[n]) != h {
      RemembersSame(src, hash, log[..n], k, h);
    }
  }

  lemma SameHits(src: seq<byte>, hash: nat -> nat, log: seq<nat>, k: nat, p: nat)
    requires KeepsApart(hash, src) && k < |log| && p + 4 <= |src| && forall j :: 0 <= j < |log| ==> log[j] + 4 <= |src|
    requires ReadWord(src, log[k], 4) == ReadWord(src, p, 4)
    ensures Hit(src, hash, log, p)
  {
    hide ReadWord, LastUnder;
    RemembersSame(src, hash, log, k, HashAt(src, hash, p));
  }

  /** What the table leads to has the same hash, so the same four bytes, or is position 0. */
  lemma {:induction false} CandidateIn(src: seq<byte>, hash: nat -> nat, log: seq<nat>, h: nat, p: nat)
    requires forall j :: 0 <= j < |log| ==> log[j] < p
    ensures p > 0 ==> LastUnder(src, hash, log, h) < p
  {
    hide HashAt;
    if log != [] {
      CandidateIn(src, hash, log[..|log| - 1], h, p);
    }
  }

  // ---------------------------------------------------------------- what a search cannot miss

  /** The end of match `j`. */
  function EndOf(qs: seq<Sequence>, j: nat): (e: nat)
    requires j <= |qs|
  {
    var out := Expand(qs[..j]);
    if out.Some? then |out.value| else 0
  }

  /** What the table has been given when the search for sequence `k` starts. */
  function KnownBefore(qs: seq<Sequence>, logs: seq<seq<nat>>, k: nat): (log: seq<nat>)
    requires k <= |qs| && k < |logs|
  {
    Filled(logs[k], EndOf(qs, k)) + [EndOf(qs, k)]
  }

  lemma LogGrows(src: seq<byte>, hash: nat -> nat, acceleration: nat, qs: seq<Sequence>, logs: seq<seq<nat>>, k: nat)
    requires Traced(src, hash, acceleration, qs, logs) && k < |qs|
    ensures KnownBefore(qs, logs, k) <= logs[k + 1]
  {
    hide Hit, StopsAt, CaughtUp, Expand, Candidate;
    assert TracedAt(src, hash, acceleration, qs, logs, k);
    var anchor := EndOf(qs, k);
    var filled := Filled(logs[k], anchor);
    if !(anchor > 0 && Hit(src, hash, filled, anchor)) {
      var n: nat :| SearchedBy(src, hash, acceleration, filled + [anchor], anchor, anchor + |qs[k].literals|,
                               qs[k].offset, logs[k + 1], n);
    }
  }

  /** The ends of all earlier matches are remembered, and the positions two bytes before them. */
  lemma {:induction false} EndsRemembered(src: seq<byte>, e: seq<byte>, hash: nat -> nat, acceleration: nat,
                                          qs: seq<Sequence>, anchor: nat, logs: seq<seq<nat>>, j: nat, k: nat)
    requires Encoded(src, e, qs, anchor, Reach(acceleration, |src|)) && Traced(src, hash, acceleration, qs, logs)
    requires 1 <= j <= k <= |qs|
    ensures EndOf(qs, j) >= 2 && EndOf(qs, j) in KnownBefore(qs, logs, k)
    ensures EndOf(qs, j) - 2 in KnownBefore(qs, logs, k)
    decreases k
  {
    hide Encoded, Expand, TracedAt, Reach;
    SequenceFacts(src, e, qs, anchor, Reach(acceleration, |src|), j - 1);
    if j < k {
      EndsRemembered(src, e, hash, acceleration, qs, anchor, logs, j, k - 1);
      LogGrows(src, hash, acceleration, qs, logs, k - 1);
    }
  }

  /**
   * If the hash keeps words apart, no probe that missed has the same four bytes as the end
   * of an earlier match, or the position two before it; and when a match is followed by
   * literals, neither has the place where it ended.
   */
  lemma NothingMissed(src: seq<byte>, e: seq<byte>, hash: nat -> nat, acceleration: nat, qs: seq<Sequence>,
                      anchor: nat, logs: seq<seq<nat>>, k: nat, j: nat, x: nat) returns (n: nat)
    requires Encoded(src, e, qs, anchor, Reach(acceleration, |src|)) && Traced(src, hash, acceleration, qs, logs)
    requires KeepsApart(hash, src) && acceleration >= 1 && 1 <= j <= k < |qs| && |qs[k].literals| > 0
    requires x == EndOf(qs, j) || x + 2 == EndOf(qs, j)
    ensures var end := EndOf(qs, k);
            && end + |qs[k].literals| <= Probe(end + 1, acceleration, n) && (x < end ==> Differ(src, x, end))
            && ProbesDiffer(src, acceleration, end + 1, n, x)
  {
    hide Encoded, Expand, Reach, Hit, KeepsApart, ReadWord, Candidate, Reaches, Misses, MissAt, Probe, Differ;
    EndsRemembered(src, e, hash, acceleration, qs, anchor, logs, j, k);
    assert TracedAt(src, hash, acceleration, qs, logs, k);
    var end := EndOf(qs, k);
    SequenceFacts(src, e, qs, anchor, Reach(acceleration, |src|), k);
    var known := KnownBefore(qs, logs, k);
    assert !(end > 0 && Hit(src, hash, Filled(logs[k], end), end));
    n :| SearchedBy(src, hash, acceleration, known, end, end + |qs[k].literals|, qs[k].offset, logs[k + 1], n);
    LogsBelow(src, e, hash, acceleration, qs, anchor, logs, k);
    if x < end {
      MissesWord(src, hash, Filled(logs[k], end), end, x);
    }
    SearchDiffers(src, hash, acceleration, known, end + 1, n, x);
  }

  /** The four bytes at both places are there, and not the same. */
  predicate Differ(src: seq<byte>, x: nat, p: nat) {
    x + 4 <= |src| && p + 4 <= |src| && ReadWord(src, x, 4) != ReadWord(src, p, 4)
  }

  predicate ProbeDiffers(src: seq<byte>, acceleration: nat, start: nat, i: nat, x: nat) {
    Differ(src, x, Probe(start, acceleration, i))
  }

  ghost predicate ProbesDiffer(src: seq<byte>, acceleration: nat, start: nat, n: nat, x: nat) {
    forall i: nat :: i < n ==> ProbeDiffers(src, acceleration, start, i, x)
  }

  predicate Within(src: seq<byte>, log: seq<nat>) {
    forall k :: 0 <= k < |log| ==> log[k] + 4 <= |src|
  }

  lemma SearchDiffers(src: seq<byte>, hash: nat -> nat, acceleration: nat, log: seq<nat>, start: nat, n: nat, x: nat)
    requires StopsAt(src, hash, acceleration, log, start, n) && KeepsApart(hash, src) && acceleration >= 1
    requires Within(src, log) && x in log
    ensures ProbesDiffer(src, acceleration, start, n, x)
  {
    hide Hit, KeepsApart, ReadWord, Reaches, Probe;
    WithinReach(src, acceleration, start, n);
    forall i: nat | i < n ensures ProbeDiffers(src, acceleration, start, i, x) {
      ProbesGrow(start, acceleration, i, n);
      assert MissAt(src, hash, acceleration, log, start, i);
      ProbesBelow(src, acceleration, start, i);
      MissesWord(src, hash, log + Probes(start, acceleration, i), Probe(start, acceleration, i), x);
    }
  }

  lemma MissesWord(src: seq<byte>, hash: nat -> nat, log: seq<nat>, p: nat, x: nat)
    requires KeepsApart(hash, src) && x in log && !Hit(src, hash, log, p) && p + 4 <= |src|
    requires Within(src, log)
    ensures Differ(src, x, p)
  {
    hide KeepsApart, Hit, ReadWord;
    var k :| 0 <= k < |log| && log[k] == x;
    if ReadWord(src, x, 4) == ReadWord(src, p, 4) {
      SameHits(src, hash, log, k, p);
    }
  }

  lemma WithinReach(src: seq<byte>, acceleration: nat, start: nat, n: nat)
    requires Reaches(src, acceleration, start, n) && acceleration >= 1
    ensures Probe(start, acceleration, n) + MFLIMIT <= |src|
  {
    ProbesGrow(start, acceleration, n, n + 1);
  }

  lemma ProbesBelow(src: seq<byte>, acceleration: nat, start: nat, i: nat)
    requires acceleration >= 1 && Probe(start, acceleration, i) + 4 <= |src|
    ensures Within(src, Probes(start, acceleration, i))
  {
    forall k | 0 <= k < i ensures Probes(start, acceleration, i)[k] + 4 <= |src| {
      ProbesGrow(start, acceleration, k, i);
    }
  }

  /** All remembered positions leave room for four bytes. */
  lemma {:induction false} LogsBelow(src: seq<byte>, e: seq<byte>, hash: nat -> nat, acceleration: nat,
                                     qs: seq<Sequence>, anchor: nat, logs: seq<seq<nat>>, k: nat)
    requires Encoded(src, e, qs, anchor, Reach(acceleration, |src|)) && Traced(src, hash, acceleration, qs, logs)
    requires k < |qs| && acceleration >= 1
    ensures Within(src, Filled(logs[k], EndOf(qs, k))) && Within(src, KnownBefore(qs, logs, k))
    ensures Within(src, logs[k + 1])
    decreases k
  {
    hide Encoded, Expand, Reach, Hit, Candidate, CaughtUp, Misses, MissAt, Probe;
    assert TracedAt(src, hash, acceleration, qs, logs, k);
    var end := EndOf(qs, k);
    SequenceFacts(src, e, qs, anchor, Reach(acceleration, |src|), k);
    if k > 0 {
      LogsBelow(src, e, hash, acceleration, qs, anchor, logs, k - 1);
    }
    var known := KnownBefore(qs, logs, k);
    if !(end > 0 && Hit(src, hash, Filled(logs[k], end), end)) {
      var n: nat :| SearchedBy(src, hash, acceleration, known, end, end + |qs[k].literals|, qs[k].offset,
                               logs[k + 1], n);
      WithinReach(src, acceleration, end + 1, n);
      ProbesBelow(src, acceleration, end + 1, n);
    }
  }

  // ---------------------------------------------------------------- the search hits within a period

  /** The positions known at probe `i`: those of the log, and the probes before. */
  lemma KnownAt(src: seq<byte>, acceleration: nat, i: nat)
    requires acceleration >= 1 && Probe(1, acceleration, i) + 4 <= |src|
    ensures var known := [0] + Probes(1, acceleration, i);
            && |known| == i + 1
            && forall j :: 0 <= j < |known| ==> known[j] < Probe(1, acceleration, i) && known[j] + 4 <= |src|
    ensures forall j :: 0 <= j <= i ==> ([0] + Probes(1, acceleration, i))[j] == if j == 0 then 0
            else Probe(1, acceleration, j - 1)
  {
    var known := [0] + Probes(1, acceleration, i);
    forall j | 0 <= j < |known| ensures known[j] < Probe(1, acceleration, i) {
      if j > 0 {
        ProbesGrow(1, acceleration, j - 1, i);
      }
    }
  }

  /** A search over a block of period `d` cannot miss `d` times. */
  lemma HitsWithin(src: seq<byte>, hash: nat -> nat, acceleration: nat, d: nat)
    requires Periodic(src, d) && KeepsApart(hash, src) && acceleration >= 1
    requires Probe(1, acceleration, d - 1) + 4 <= |src|
    ensures !Misses(src, hash, acceleration, [0], 1, d)
  {
    hide ReadWord, Hit, KeepsApart, Periodic;
    assert d >= 1 by { PeriodPositive(src, d); }
    KnownAt(src, acceleration, d - 1);
    var known := [0] + Probes(1, acceleration, d - 1) + [Probe(1, acceleration, d - 1)];
    var residues := seq(d + 1, k requires 0 <= k < d + 1 => known[k] % d);
    var a, b := Pigeonhole(residues, d);
    var i := b - 1;
    var p := Probe(1, acceleration, i);
    assert known[b] == p;
    if i < d - 1 {
      ProbesGrow(1, acceleration, i, d - 1);
    }
    KnownAt(src, acceleration, i);
    var before := [0] + Probes(1, acceleration, i);
    assert before[a] == known[a];
    SameResidue(src, d, before[a], p);
    SameHits(src, hash, before, a, p);
    assert !MissAt(src, hash, acceleration, [0], 1, i);
  }

  // ---------------------------------------------------------------- the block

  /** The first match of a block of period `d` is a whole number of periods after its start. */
  lemma FirstMatch(src: seq<byte>, hash: nat -> nat, acceleration: nat, d: nat, ip: nat, offset: nat, log: seq<nat>)
    requires Periodic(src, d) && KeepsApart(hash, src) && acceleration >= 1
    requires Probe(1, acceleration, d) + MFLIMIT <= |src| + 1
    requires NextMatch(src, hash, acceleration, [], 0, ip, offset, log)
    ensures ip == offset && 1 <= offset <= Probe(1, acceleration, d - 1) && offset % d == 0
  {
    hide Hit, Periodic, StopsAt, ReadWord, KeepsApart, Candidate, Probe, CaughtUp;
    PeriodPositive(src, d);
    assert Filled([], 0) + [0] == [0];
    var n: nat :| SearchedBy(src, hash, acceleration, [0], 0, ip, offset, log, n);
    ProbesGrow(1, acceleration, d - 1, d);
    HitsWithin(src, hash, acceleration, d);
    StopsFacts(src, hash, acceleration, [0], 1, n, d);
    if n < d - 1 {
      ProbesGrow(1, acceleration, n, d - 1);
    }
    var before, p := [0] + Probes(1, acceleration, n), Probe(1, acceleration, n);
    HitMeans(src, hash, before, p);
    BackToStart(src, d, p, Candidate(src, hash, before, p), ip, offset);
  }

  /** A match that is whole periods back can be extended backwards to the start. */
  lemma BackToStart(src: seq<byte>, d: nat, p: nat, m: nat, ip: nat, offset: nat)
    requires Periodic(src, d) && CaughtUp(src, 0, p, m, ip, offset) && p + 4 <= |src| && m + 4 <= |src|
    requires ReadWord(src, m, 4) == ReadWord(src, p, 4)
    ensures ip == offset && 1 <= offset <= p && offset % d == 0
  {
    hide Periodic, ReadWord;
    PeriodPositive(src, d);
    SameResidue(src, d, m, p);
    MultipleApart(p, m, d);
    if ip > offset {
      MultipleBack(ip - 1, offset, d);
      PeriodsApart(src, d, ip - 1, offset);
    }
  }

  lemma HitMeans(src: seq<byte>, hash: nat -> nat, log: seq<nat>, p: nat)
    requires Hit(src, hash, log, p)
    ensures var m := Candidate(src, hash, log, p);
            p + 4 <= |src| && m + 4 <= |src| && ReadWord(src, m, 4) == ReadWord(src, p, 4)
  {
  }

  lemma StopsFacts(src: seq<byte>, hash: nat -> nat, acceleration: nat, log: seq<nat>, start: nat, n: nat, d: nat)
    requires StopsAt(src, hash, acceleration, log, start, n) && !Misses(src, hash, acceleration, log, start, d)
    ensures n < d && Hit(src, hash, log + Probes(start, acceleration, n), Probe(start, acceleration, n))
  {
    hide Hit;
  }

  lemma MultipleApart(p: nat, m: nat, d: nat)
    requires d >= 1 && p % d == m % d && m <= p
    ensures (p - m) % d == 0
  {
    assert p == d * (p / d) + p % d && m == d * (m / d) + m % d;
    assert p - m == d * (p / d - m / d);
    DivisionUnique(p - m, d, p / d - m / d, 0);
  }

  lemma MultipleBack(i: nat, offset: nat, d: nat)
    requires d >= 1 && offset <= i && offset % d == 0
    ensures (i - offset) % d == i % d
  {
    assert i == d * (i / d) + i % d && offset == d * (offset / d);
    assert i - offset == d * (i / d - offset / d) + i % d;
    DivisionUnique(i - offset, d, i / d - offset / d, i % d);
  }

  /** The search does find a match. */
  lemma MatchExists(src: seq<byte>, hash: nat -> nat, acceleration: nat, d: nat)
    requires Periodic(src, d) && KeepsApart(hash, src) && acceleration >= 1
    requires Probe(1, acceleration, d) + MFLIMIT <= |src| + 1 && |src| >= MIN_LENGTH
    ensures !NoMatch(src, hash, acceleration, [], 0)
  {
    hide Hit, Periodic, ReadWord, KeepsApart, LastUnder;
    PeriodPositive(src, d);
    assert Filled([], 0) + [0] == [0];
    ProbesGrow(1, acceleration, d - 1, d);
    HitsWithin(src, hash, acceleration, d);
    if NoMatch(src, hash, acceleration, [], 0) {
      var n: nat :| EndsAt(src, hash, acceleration, [0], 1, n);
      assert n < d;
      if n + 1 < d {
        ProbesGrow(1, acceleration, n + 1, d);
      }
    }
  }

  /** There is one sequence: one period, or a few, literally, and the rest as a match. */
  lemma OneMatch(src: seq<byte>, hash: nat -> nat, acceleration: nat, d: nat, e: seq<byte>, qs: seq<Sequence>,
                 anchor: nat, logs: seq<seq<nat>>)
    requires Periodic(src, d) && KeepsApart(hash, src) && acceleration >= 1
    requires Probe(1, acceleration, d) + MFLIMIT <= |src| + 1
    requires Encoded(src, e, qs, anchor, Reach(acceleration, |src|)) && Traced(src, hash, acceleration, qs, logs)
    ensures |qs| == 0 ==> anchor == 0 && e == [] && logs[0] == []
    ensures |qs| > 0 ==>
              var q := qs[0];
              && |qs| == 1 && anchor + LASTLITERALS == |src| && e == PrintSequence(q) && Printable(q)
              && |q.literals| == q.offset && 1 <= q.offset <= Probe(1, acceleration, d - 1) && q.offset % d == 0
              && |q.literals| + q.matchLength + LASTLITERALS == |src|
  {
    hide Periodic, KeepsApart, NextMatch, Expand, PrintSequence, Probe, GreedyAt, ConformingAt;
    EncodedEnds(src, e, qs, anchor, Reach(acceleration, |src|));
    if |qs| == 0 {
      assert qs == [] && PrintAll([]) == [] && |Expand([]).value| == 0 by { NothingEncoded(src, 0); ExpandNothing(); }
    } else {
      var q, reach := qs[0], Reach(acceleration, |src|);
      assert TracedAt(src, hash, acceleration, qs, logs, 0) && qs[..0] == [];
      ExpandNothing();
      FirstMatch(src, hash, acceleration, d, |q.literals|, q.offset, logs[1]);
      SequenceFacts(src, e, qs, anchor, reach, 0);
      var end := |q.literals| + q.matchLength;
      PeriodPositive(src, d);
      if end + LASTLITERALS < |src| {
        MultipleBack(end, q.offset, d);
        PeriodsApart(src, d, end, q.offset);
        assert false;
      }
      if |qs| > 1 {
        SequenceFacts(src, e, qs, anchor, reach, 1);
        assert false;
      }
      assert qs[..1] == qs && qs == [q];
      assert PrintAll([q]) == PrintSequence(q) by { PrintOne(q); }
    }
  }

  lemma ExpandNothing()
    ensures Expand([]) == Some([])
  {
  }

  lemma PrintOne(q: Sequence)
    requires Printable(q)
    ensures PrintAll([q]) == PrintSequence(q)
  {
    hide PrintSequence;
    assert [q][..0] == [] && PrintAll([]) == [];
    assert [] + PrintSequence(q) == PrintSequence(q);
  }

  /** The size of a block with `l` literals, then a match that leaves five last literals. */
  function RecordSize(l: nat, size: nat): (n: nat)
    requires l + MINMATCH + LASTLITERALS <= size
  {
    9 + l + |Extension(l)| + |Extension(size - LASTLITERALS - l - MINMATCH)|
  }

  /**
   * A block of period `d` is compressed to `l` literals, one match and five last literals,
   * where `l` is a whole number of periods, and within the first `d` probes. So it is `d`
   * itself, as long as the probe before the `d`-th is not two periods away.
   */
  lemma PeriodicSize(z: seq<byte>, src: seq<byte>, hash: nat -> nat, acceleration: nat, d: nat) returns (l: nat)
    requires Periodic(src, d) && KeepsApart(hash, src) && acceleration >= 1
    requires Probe(1, acceleration, d) + MFLIMIT <= |src| + 1 && |src| >= MIN_LENGTH
    requires GreedyBlock(z, src, hash, acceleration)
    ensures l % d == 0 && d <= l <= Probe(1, acceleration, d - 1) && l + MINMATCH + LASTLITERALS <= |src|
    ensures |z| == RecordSize(l, |src|)
    ensures Probe(1, acceleration, d - 1) < 2 * d ==> l == d
  {
    hide Periodic, KeepsApart, Traced, NoMatch, Encoded, NoLongRun, PrintSequence, PrintLiterals, PrintAll, Probe,
      Extension;
    PeriodPositive(src, d);
    var qs: seq<Sequence>, anchor: nat, logs: seq<seq<nat>> :|
      GreedyAs(z, src, hash, acceleration, qs, anchor, logs);
    OneMatch(src, hash, acceleration, d, PrintAll(qs), qs, anchor, logs);
    if |qs| == 0 {
      MatchExists(src, hash, acceleration, d);
      assert false;
    }
    l := qs[0].offset;
    Multiples(l, d);
    SequenceSize(qs[0]);
    LiteralsSize(src[anchor..]);
    assert |Extension(5)| == 0 by { ShortExtension(5); }
  }

  lemma ShortExtension(n: nat)
    requires n < 15
    ensures |Extension(n)| == 0
  {
  }

  lemma Multiples(l: nat, d: nat)
    requires d >= 1 && l >= 1 && l % d == 0
    ensures l >= d && (l < 2 * d ==> l == d)
  {
    assert l == d * (l / d);
    if l / d >= 2 {
      assert d * (l / d) >= d * 2;
    }
  }

  // ---------------------------------------------------------------- whole blocks of a page

  const HASH := Lz4Codec.Hash4

  /** Nothing overflows a page. */
  lemma PeriodicFits(src: seq<byte>, d: nat)
    requires Periodic(src, d) && KeepsApart(HASH, src) && |src| == FLASH_PAGE_SIZE && Probe(1, 1, d) <= 1900
    ensures !Overflows(src, HASH, 1, FLASH_PAGE_SIZE)
  {
    hide Periodic, KeepsApart, Traced, Encoded, NoLongRun, PrintSequence, PrintAll, Probe, NextMatch, NoMatch,
      Extension;
    if Overflows(src, HASH, 1, FLASH_PAGE_SIZE) {
      var qs: seq<Sequence>, anchor: nat, end: nat, logs: seq<seq<nat>> :|
        OverflowsAs(src, HASH, 1, qs, anchor, end, logs, FLASH_PAGE_SIZE);
      OneMatch(src, HASH, 1, d, PrintAll(qs), qs, anchor, logs);
      PeriodPositive(src, d);
      ProbesGrow(1, 1, d - 1, d);
      if |qs| > 0 {
        SequenceSize(qs[0]);
      } else if end != anchor {
        MatchExists(src, HASH, 1, d);
        var offset: nat, log: seq<nat> :| NextMatch(src, HASH, 1, [], 0, end, offset, log);
        FirstMatch(src, HASH, 1, d, end, offset, log);
      }
      assert false;
    }
  }

  /**
   * What the compressor makes of a page of records: compressed, to the size of one record,
   * or a few, and the bytes that say how long the match is. The bound on the probes holds
   * for all records up to some 460 bytes.
   */
  lemma PeriodicForm(c: CompressedBlock, src: seq<byte>, d: nat) returns (l: nat)
    requires Periodic(src, d) && KeepsApart(HASH, src) && |src| == FLASH_PAGE_SIZE && Probe(1, 1, d) <= 1900
    requires FormOf(c, src) && src != ZeroBlock()
    ensures l % d == 0 && d <= l <= Probe(1, 1, d - 1) && (Probe(1, 1, d - 1) < 2 * d ==> l == d)
    ensures c.isCompressed && !c.isZeroBlock && l + 9 <= FLASH_PAGE_SIZE
    ensures c.compressedSize == RecordSize(l, FLASH_PAGE_SIZE)
    ensures c.compressedSize <= 1940
  {
    hide GreedyBlock, Overflows, Represents, Periodic, KeepsApart, Probe, Extension;
    PeriodicFits(src, d);
    PeriodPositive(src, d);
    ProbesGrow(1, 1, d - 1, d);
    forall z | GreedyBlock(z, src, HASH, 1) ensures |z| < 3072 {
      var k := PeriodicSize(z, src, HASH, 1, d);
    }
    assert c.isCompressed;
    l := PeriodicSize(c.data[..c.compressedSize], src, HASH, 1, d);
  }

  // ---------------------------------------------------------------- an instance

  /** Records of a hundred bytes, 1 to 100. */
  function RecordBlock(): (src: seq<byte>)
    ensures |src| == FLASH_PAGE_SIZE && forall k {:trigger src[k]} :: 0 <= k < FLASH_PAGE_SIZE ==> src[k] == k % 100 + 1
  {
    seq(FLASH_PAGE_SIZE, k requires 0 <= k < FLASH_PAGE_SIZE => k % 100 + 1)
  }

  /** The four bytes at place `r` of a record, as a number. */
  function RecordWord(r: nat): (w: nat)
    requires r < 100
  {
    if r < 97 then 0x0403_0201 + r * 0x0101_0101
    else if r == 97 then 98 + 256 * 99 + 0x1_0000 * 100 + 0x100_0000
    else if r == 98 then 99 + 256 * 100 + 0x1_0000 + 0x100_0000 * 2
    else 100 + 256 + 0x1_0000 * 2 + 0x100_0000 * 3
  }

  lemma RecordWordIs(r: nat)
    requires r < 100
    ensures ReadWord(RecordBlock(), r, 4) == RecordWord(r)
  {
    hide ReadWord;
    var src := RecordBlock();
    FourBytes(src, r);
    assert src[r] == r + 1;
    assert src[r + 1] == if r < 99 then r + 2 else 1;
    assert src[r + 2] == if r < 98 then r + 3 else r - 97;
    assert src[r + 3] == if r < 97 then r + 4 else r - 96;
  }

  lemma FourBytes(src: seq<byte>, i: nat)
    requires i + 4 <= |src|
    ensures ReadWord(src, i, 4)
         == src[i] as nat + 256 * (src[i + 1] as nat + 256 * (src[i + 2] as nat + 256 * (src[i + 3] as nat)))
  {
    assert ReadWord(src, i + 4, 0) == 0;
    assert ReadWord(src, i + 3, 1) == src[i + 3] as nat;
    assert ReadWord(src, i + 2, 2) == src[i + 2] as nat + 256 * ReadWord(src, i + 3, 1);
    assert ReadWord(src, i + 1, 3) == src[i + 1] as nat + 256 * ReadWord(src, i + 2, 2);
  }

  /** The product of the hash, without the wrapped part: it grows by more than one slot from word to word. */
  lemma RecordHash(r: nat)
    requires r < 97
    ensures Lz4Codec.Hash4(RecordWord(r)) == (1044241329 + r * 6433457) / 0x8_0000
  {
    hide RecordWord, Lz4Codec.Hash4;
    var w, x := RecordWord(r), 1044241329 + r * 6433457;
    assert w == 0x0403_0201 + r * 0x0101_0101 by { RecordWordInside(r); }
    assert w * 2654435761 == 0x1_0000_0000 * (41597386 + r * 10409552) + x;
    HashIs(w, 41597386 + r * 10409552, x);
  }

  lemma RecordWordInside(r: nat)
    requires r < 97
    ensures RecordWord(r) == 0x0403_0201 + r * 0x0101_0101
  {
  }

  lemma HashIs(w: nat, q: nat, x: nat)
    requires w * 2654435761 == 0x1_0000_0000 * q + x && x < 0x1_0000_0000
    ensures Lz4Codec.Hash4(w) == x / 0x8_0000
  {
    var k := w * 2654435761;
    DivisionUnique(k, 0x1_0000_0000, q, x);
    assert Lz4Codec.Hash4(w) == k % 0x1_0000_0000 / 0x8_0000;
  }

  lemma RecordHashesDiffer(r: nat, s: nat)
    requires r < s < 100
    ensures Lz4Codec.Hash4(RecordWord(r)) != Lz4Codec.Hash4(RecordWord(s))
  {
    assert Lz4Codec.Hash4(RecordWord(97)) == 2030;
    assert Lz4Codec.Hash4(RecordWord(98)) == 5845;
    assert Lz4Codec.Hash4(RecordWord(99)) == 368;
    hide Lz4Codec.Hash4, RecordWord;
    if r < 97 {
      RecordHash(r);
    }
    if s < 97 {
      RecordHash(s);
    }
  }

  lemma RecordPeriodic()
    ensures Periodic(RecordBlock(), 100) && KeepsApart(HASH, RecordBlock()) && RecordBlock() != ZeroBlock()
  {
    hide ReadWord, RecordWord, Lz4Codec.Hash4;
    var src := RecordBlock();
    assert src[0] == 1;
    forall i: nat, j: nat | i < j < 100 ensures ReadWord(src, i, 4) != ReadWord(src, j, 4) {
      RecordWordIs(i);
      RecordWordIs(j);
      RecordHashesDiffer(i, j);
    }
    assert Periodic(src, 100);
    forall i: nat, j: nat | i + 4 <= |src| && j + 4 <= |src| && HashAt(src, HASH, i) == HashAt(src, HASH, j)
      ensures ReadWord(src, i, 4) == ReadWord(src, j, 4)
    {
      RecordApart(i, j);
    }
  }

  lemma RecordApart(i: nat, j: nat)
    requires i + 4 <= FLASH_PAGE_SIZE && j + 4 <= FLASH_PAGE_SIZE && Periodic(RecordBlock(), 100)
    requires HashAt(RecordBlock(), HASH, i) == HashAt(RecordBlock(), HASH, j)
    ensures ReadWord(RecordBlock(), i, 4) == ReadWord(RecordBlock(), j, 4)
  {
    hide ReadWord, RecordWord, Lz4Codec.Hash4, Periodic;
    var src, r, s := RecordBlock(), i % 100, j % 100;
    WordFoldsBack(src, 100, i);
    WordFoldsBack(src, 100, j);
    RecordWordIs(r);
    RecordWordIs(s);
    if r < s {
      RecordHashesDiffer(r, s);
    } else if s < r {
      RecordHashesDiffer(s, r);
    }
  }

  /** The hundredth probe is at 134, the next one at 136. */
  lemma RecordProbes()
    ensures Probe(1, 1, 99) == 134 && Probe(1, 1, 100) == 136
  {
    ProbeDense(65);
    ProbeSparse(99);
    ProbeSparse(100);
  }

  lemma {:induction false} ProbeDense(i: nat)
    requires i <= 65
    ensures Probe(1, 1, i) == 1 + i
  {
    if i > 0 {
      ProbeDense(i - 1);
    }
  }

  lemma {:induction false} ProbeSparse(i: nat)
    requires 65 <= i <= 129
    ensures Probe(1, 1, i) == 66 + 2 * (i - 65)
  {
    if i > 65 {
      ProbeSparse(i - 1);
    } else {
      ProbeDense(65);
    }
  }

  /** A page of such records is compressed to 126 bytes. */
  method RecordWitness() returns (c: CompressedBlock)
    ensures FormOf(c, RecordBlock()) && c.isCompressed && !c.isZeroBlock && c.compressedSize == 126 && c.slot == Slot1KB
  {
    hide FormOf, Periodic, KeepsApart, Probe;
    c := Lz4Compressor.Compress(RecordBlock());
    RecordPeriodic();
    RecordProbes();
    ghost var l := PeriodicForm(c, RecordBlock(), 100);
    assert RecordSize(100, FLASH_PAGE_SIZE) == 126;
    SlotOf(c, RecordBlock());
  }

  lemma SlotOf(c: CompressedBlock, src: seq<byte>)
    requires FormOf(c, src)
    ensures c.slot == QuantizeSlot(c.compressedSize, c.isZeroBlock)
  {
    hide Represents, GreedyBlock, TooLarge;
  }
}
