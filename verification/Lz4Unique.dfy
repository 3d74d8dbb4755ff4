/**
 * The encoder is a function of the input, the hash and the acceleration: the search stops
 * where it must, a match starts and ends where it must, and so there is one block only.
 */
module Lz4Unique {
  import opened Bytes
  import opened Lz4Format
  import opened Lz4Search
  import opened Lz4Encoder
  import opened Lz4Greedy

  // ---------------------------------------------------------------- one search

  /** A search has one outcome. */
  lemma StopsOnce(src: seq<byte>, hash: nat -> nat, acceleration: nat, log: seq<nat>, start: nat, n: nat, m: nat)
    requires acceleration >= 1 && StopsAt(src, hash, acceleration, log, start, n)
    requires StopsAt(src, hash, acceleration, log, start, m) || EndsAt(src, hash, acceleration, log, start, m)
    ensures n == m && StopsAt(src, hash, acceleration, log, start, m)
  {
    hide MissAt;
    if StopsAt(src, hash, acceleration, log, start, m) {
      assert n < m ==> MissAt(src, hash, acceleration, log, start, n);
      assert m < n ==> MissAt(src, hash, acceleration, log, start, m);
    } else {
      assert n < m ==> MissAt(src, hash, acceleration, log, start, n);
      if m < n {
        ProbesGrow(start, acceleration, m + 1, n + 1);
      }
      assert false;
    }
  }

  lemma CaughtUpOnce(src: seq<byte>, anchor: nat, p: nat, m: nat, ip: nat, offset: nat, ip': nat, offset': nat)
    requires CaughtUp(src, anchor, p, m, ip, offset) && CaughtUp(src, anchor, p, m, ip', offset')
    ensures ip == ip' && offset == offset'
  {
  }

  lemma SearchedOnce(src: seq<byte>, hash: nat -> nat, acceleration: nat, log: seq<nat>, anchor: nat,
                     ip: nat, offset: nat, log': seq<nat>, ip2: nat, offset2: nat, log2: seq<nat>)
    requires acceleration >= 1
    requires Searched(src, hash, acceleration, log, anchor, ip, offset, log')
    requires Searched(src, hash, acceleration, log, anchor, ip2, offset2, log2)
    ensures ip == ip2 && offset == offset2 && log' == log2
  {
    hide StopsAt, CaughtUp, Candidate;
    var n: nat :| SearchedBy(src, hash, acceleration, log, anchor, ip, offset, log', n);
    var m: nat :| SearchedBy(src, hash, acceleration, log, anchor, ip2, offset2, log2, m);
    StopsOnce(src, hash, acceleration, log, anchor + 1, n, m);
    var p := Probe(anchor + 1, acceleration, n);
    var m0 := Candidate(src, hash, log + Probes(anchor + 1, acceleration, n), p);
    CaughtUpOnce(src, anchor, p, m0, ip, offset, ip2, offset2);
  }

  /** From one place there is one next match. */
  lemma NextOnce(src: seq<byte>, hash: nat -> nat, acceleration: nat, log: seq<nat>, anchor: nat,
                 ip: nat, offset: nat, log': seq<nat>, ip2: nat, offset2: nat, log2: seq<nat>)
    requires acceleration >= 1
    requires NextMatch(src, hash, acceleration, log, anchor, ip, offset, log')
    requires NextMatch(src, hash, acceleration, log, anchor, ip2, offset2, log2)
    ensures ip == ip2 && offset == offset2 && log' == log2
  {
    hide Hit, Searched, Candidate;
    var filled := Filled(log, anchor);
    if !(anchor > 0 && Hit(src, hash, filled, anchor)) {
      SearchedOnce(src, hash, acceleration, filled + [anchor], anchor, ip, offset, log', ip2, offset2, log2);
    }
  }

  /** Either there is a next match, or there is none. */
  lemma NextOrNone(src: seq<byte>, hash: nat -> nat, acceleration: nat, log: seq<nat>, anchor: nat,
                   ip: nat, offset: nat, log': seq<nat>)
    requires acceleration >= 1 && NextMatch(src, hash, acceleration, log, anchor, ip, offset, log')
    ensures !NoMatch(src, hash, acceleration, log, anchor)
  {
    hide Hit, StopsAt, EndsAt, CaughtUp, Candidate;
    if NoMatch(src, hash, acceleration, log, anchor) {
      var searched := Filled(log, anchor) + [anchor];
      var n: nat :| SearchedBy(src, hash, acceleration, searched, anchor, ip, offset, log', n);
      var m: nat :| EndsAt(src, hash, acceleration, searched, anchor + 1, m);
      StopsOnce(src, hash, acceleration, searched, anchor + 1, n, m);
      StopsAndEnds(src, hash, acceleration, searched, anchor + 1, m);
    }
  }

  lemma StopsAndEnds(src: seq<byte>, hash: nat -> nat, acceleration: nat, log: seq<nat>, start: nat, n: nat)
    requires StopsAt(src, hash, acceleration, log, start, n)
    ensures !EndsAt(src, hash, acceleration, log, start, n)
  {
  }

  // ---------------------------------------------------------------- one sequence

  /** What sequence `k` says of the input: its literals, and bytes that repeat as far as they can. */
  lemma SequenceFacts(src: seq<byte>, e: seq<byte>, qs: seq<Sequence>, anchor: nat, reach: nat, k: nat)
    requires Encoded(src, e, qs, anchor, reach) && k < |qs|
    ensures Expand(qs[..k]).Some? && Expand(qs[..k + 1]).Some?
    ensures var q, b := qs[k], |Expand(qs[..k]).value|;
            var at := b + |q.literals|;
            var end := at + q.matchLength;
            && |Expand(qs[..k + 1]).value| == end && end + LASTLITERALS <= |src|
            && q.literals == src[b..at] && 1 <= q.offset <= at && q.matchLength >= MINMATCH
            && (forall i :: at <= i < end ==> src[i] == src[i - q.offset])
            && (end + LASTLITERALS < |src| ==> src[end] != src[end - q.offset])
  {
    hide CopyMatch, PrintAll, NoLongRun, Expand;
    ExpandKeeps(qs, k);
    ExpandKeeps(qs, k + 1);
    assert ConformingAt(qs, k, |src|) && GreedyAt(src, qs, k, reach);
    var q, before := qs[k], Expand(qs[..k]).value;
    ExpandOne(qs, k);
    var run := before + q.literals;
    var r := CopyMatch(run, q.offset, q.matchLength);
    CopyMatchRepeats(run, q.offset, q.matchLength);
    assert r <= src[..anchor];
    assert q.literals == r[|before|..|run|] == src[|before|..|run|];
    forall i | |run| <= i < |run| + q.matchLength ensures src[i] == src[i - q.offset] {
      assert RepeatsAt(r, i, q.offset);
    }
  }

  lemma ExpandOne(qs: seq<Sequence>, k: nat)
    requires k < |qs| && Expand(qs[..k]).Some? && qs[k].offset <= |Expand(qs[..k]).value| + |qs[k].literals|
    ensures Expand(qs[..k + 1])
            == Some(CopyMatch(Expand(qs[..k]).value + qs[k].literals, qs[k].offset, qs[k].matchLength))
  {
    hide CopyMatch;
    assert qs[..k + 1][..k] == qs[..k];
  }

  /** Where two runs of the encoder agree up to a sequence, they agree on that sequence. */
  lemma SequenceOnce(src: seq<byte>, hash: nat -> nat, acceleration: nat, k: nat,
                     e1: seq<byte>, qs1: seq<Sequence>, anchor1: nat, logs1: seq<seq<nat>>,
                     e2: seq<byte>, qs2: seq<Sequence>, anchor2: nat, logs2: seq<seq<nat>>)
    requires acceleration >= 1 && k < |qs1| && k < |qs2|
    requires Encoded(src, e1, qs1, anchor1, Reach(acceleration, |src|)) && Traced(src, hash, acceleration, qs1, logs1)
    requires Encoded(src, e2, qs2, anchor2, Reach(acceleration, |src|)) && Traced(src, hash, acceleration, qs2, logs2)
    requires qs1[..k] == qs2[..k] && logs1[k] == logs2[k]
    ensures qs1[k] == qs2[k] && logs1[k + 1] == logs2[k + 1]
  {
    hide Encoded, NextMatch, Expand, Reach;
    SequenceFacts(src, e1, qs1, anchor1, Reach(acceleration, |src|), k);
    SequenceFacts(src, e2, qs2, anchor2, Reach(acceleration, |src|), k);
    assert TracedAt(src, hash, acceleration, qs1, logs1, k) && TracedAt(src, hash, acceleration, qs2, logs2, k);
    var b, q1, q2 := |Expand(qs1[..k]).value|, qs1[k], qs2[k];
    NextOnce(src, hash, acceleration, logs1[k], b, b + |q1.literals|, q1.offset, logs1[k + 1],
             b + |q2.literals|, q2.offset, logs2[k + 1]);
  }

  // ---------------------------------------------------------------- one block

  lemma {:induction false} SequencesOnce(src: seq<byte>, hash: nat -> nat, acceleration: nat, k: nat,
                        e1: seq<byte>, qs1: seq<Sequence>, anchor1: nat, logs1: seq<seq<nat>>,
                        e2: seq<byte>, qs2: seq<Sequence>, anchor2: nat, logs2: seq<seq<nat>>)
    requires acceleration >= 1 && k <= |qs1| && k <= |qs2|
    requires Encoded(src, e1, qs1, anchor1, Reach(acceleration, |src|)) && Traced(src, hash, acceleration, qs1, logs1)
    requires Encoded(src, e2, qs2, anchor2, Reach(acceleration, |src|)) && Traced(src, hash, acceleration, qs2, logs2)
    ensures qs1[..k] == qs2[..k] && logs1[k] == logs2[k]
    decreases k
  {
    hide Encoded, Reach, TracedAt;
    if k > 0 {
      SequencesOnce(src, hash, acceleration, k - 1, e1, qs1, anchor1, logs1, e2, qs2, anchor2, logs2);
      SequenceOnce(src, hash, acceleration, k - 1, e1, qs1, anchor1, logs1, e2, qs2, anchor2, logs2);
      assert qs1[..k] == qs1[..k - 1] + [qs1[k - 1]] && qs2[..k] == qs2[..k - 1] + [qs2[k - 1]];
    }
  }

  /** One run cannot stop where the other goes on. */
  lemma NotShorter(z1: seq<byte>, z2: seq<byte>, src: seq<byte>, hash: nat -> nat, acceleration: nat,
                   qs1: seq<Sequence>, anchor1: nat, logs1: seq<seq<nat>>,
                   qs2: seq<Sequence>, anchor2: nat, logs2: seq<seq<nat>>)
    requires acceleration >= 1
    requires GreedyAs(z1, src, hash, acceleration, qs1, anchor1, logs1)
    requires GreedyAs(z2, src, hash, acceleration, qs2, anchor2, logs2)
    ensures |qs1| >= |qs2|
  {
    hide Encoded, NoLongRun, Reach, NoMatch, NextMatch, PrintAll, PrintLiterals, Expand;
    if |qs1| < |qs2| {
      var k := |qs1|;
      SequencesOnce(src, hash, acceleration, k, PrintAll(qs1), qs1, anchor1, logs1, PrintAll(qs2), qs2, anchor2, logs2);
      assert qs1[..k] == qs1;
      assert TracedAt(src, hash, acceleration, qs2, logs2, k);
      EncodedEnds(src, PrintAll(qs1), qs1, anchor1, Reach(acceleration, |src|));
      NextOrNone(src, hash, acceleration, logs2[k], anchor1, anchor1 + |qs2[k].literals|, qs2[k].offset, logs2[k + 1]);
    }
  }

  lemma EncodedEnds(src: seq<byte>, e: seq<byte>, qs: seq<Sequence>, anchor: nat, reach: nat)
    requires Encoded(src, e, qs, anchor, reach)
    ensures Expand(qs) == Some(src[..anchor]) && |Expand(qs).value| == anchor
  {
    hide PrintAll, Expand, GreedyAt, ConformingAt;
  }

  /** For one input, hash and acceleration the encoder can produce one block only. */
  lemma GreedyOnce(z1: seq<byte>, z2: seq<byte>, src: seq<byte>, hash: nat -> nat, acceleration: nat)
    requires acceleration >= 1
    requires GreedyBlock(z1, src, hash, acceleration) && GreedyBlock(z2, src, hash, acceleration)
    ensures z1 == z2
  {
    hide Encoded, NoLongRun, Reach, NoMatch, Traced, PrintAll, PrintLiterals, Expand;
    var qs1, anchor1, logs1 :| GreedyAs(z1, src, hash, acceleration, qs1, anchor1, logs1);
    var qs2, anchor2, logs2 :| GreedyAs(z2, src, hash, acceleration, qs2, anchor2, logs2);
    NotShorter(z1, z2, src, hash, acceleration, qs1, anchor1, logs1, qs2, anchor2, logs2);
    NotShorter(z2, z1, src, hash, acceleration, qs2, anchor2, logs2, qs1, anchor1, logs1);
    var k := |qs1|;
    SequencesOnce(src, hash, acceleration, k, PrintAll(qs1), qs1, anchor1, logs1, PrintAll(qs2), qs2, anchor2, logs2);
    assert qs1[..k] == qs1 && qs2[..k] == qs2;
    EncodedEnds(src, PrintAll(qs1), qs1, anchor1, Reach(acceleration, |src|));
    EncodedEnds(src, PrintAll(qs2), qs2, anchor2, Reach(acceleration, |src|));
  }
}
