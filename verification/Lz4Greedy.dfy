/**
 * What a greedy search makes of blocks that end in a run of equal bytes: the bytes before
 * the run as literals, and the run as one match.
 */
module Lz4Greedy {
  import opened Bytes
  import opened Lz4Format
  import opened Lz4Search
  import opened Lz4Encoder
  import opened Lz4Compressor
  import Lz4Codec

  const PAGE_REACH := Reach(1, FLASH_PAGE_SIZE)

  /** Four bytes that start before `n` do not occur again; from `n` on all bytes are the same. */
  ghost predicate Tailed(src: seq<byte>, n: nat) {
    && n <= |src| && Uniform(src, n, |src| - n)
    && forall i, j :: 0 <= i < n && i < j && j + 4 <= |src| ==> !SameFour(src, i, j)
  }

  predicate SameFour(src: seq<byte>, i: nat, j: nat)
    requires i + 4 <= |src| && j + 4 <= |src|
  {
    src[i] == src[j] && src[i + 1] == src[j + 1] && src[i + 2] == src[j + 2] && src[i + 3] == src[j + 3]
  }

  /** A long run is not passed over. */
  lemma TailStops(src: seq<byte>, n: nat, hi: nat, reach: nat)
    requires Tailed(src, n) && hi <= |src| && NoLongRun(src, 0, hi, reach)
    ensures hi < n + reach
  {
    if n + reach <= hi {
      assert Uniform(src, n, reach);
    }
  }

  lemma {:induction false} ExpandKeeps(qs: seq<Sequence>, k: nat)
    requires k <= |qs| && Expand(qs).Some?
    ensures Expand(qs[..k]).Some? && Expand(qs[..k]).value <= Expand(qs).value
    decreases |qs|
  {
    hide CopyMatch;
    if k < |qs| {
      var n := |qs| - 1;
      ExpandKeeps(qs[..n], k);
      assert qs[..n][..k] == qs[..k];
      var q, before := qs[n], Expand(qs[..n]).value;
      CopyMatchRepeats(before + q.literals, q.offset, q.matchLength);
    } else {
      assert qs[..k] == qs;
    }
  }

  /** The first sequence of a greedy search: its match is in the run, and goes to five bytes before the end. */
  lemma FirstSequence(src: seq<byte>, n: nat, e: seq<byte>, qs: seq<Sequence>, anchor: nat, reach: nat)
    requires Tailed(src, n) && Encoded(src, e, qs, anchor, reach) && |qs| > 0
    ensures var q := qs[0];
            && n < |q.literals| < n + reach
            && q.matchLength >= MINMATCH && |q.literals| + q.matchLength + LASTLITERALS == |src|
            && Expand([q]).Some? && |Expand([q]).value| == |q.literals| + q.matchLength
  {
    hide CopyMatch, NoLongRun, Tailed, PrintAll, Expand;
    var q := qs[0];
    NothingBefore(q);
    assert ConformingAt(qs, 0, |src|) && GreedyAt(src, qs, 0, reach) && qs[..0] == [];
    ExpandKeeps(qs, 1);
    assert qs[..1] == [q];
    MatchInTail(src, n, q, reach);
  }

  lemma NothingBefore(q: Sequence)
    ensures Expand([]) == Some([])
    ensures q.offset <= |q.literals| ==> Expand([q]) == Some(CopyMatch(q.literals, q.offset, q.matchLength))
  {
    hide CopyMatch;
    var none: seq<byte> := [];
    assert none + q.literals == q.literals && [q][..0] == [];
  }

  /** A match repeats four bytes. */
  lemma MatchRecurs(src: seq<byte>, q: Sequence)
    requires 1 <= q.offset <= |q.literals| && q.matchLength >= MINMATCH
    requires CopyMatch(q.literals, q.offset, q.matchLength) <= src
    ensures |q.literals| + 4 <= |src| && SameFour(src, |q.literals| - q.offset, |q.literals|)
  {
    hide CopyMatch;
    var m, o, r := |q.literals|, q.offset, CopyMatch(q.literals, q.offset, q.matchLength);
    CopyMatchRepeats(q.literals, o, q.matchLength);
    assert RepeatsAt(r, m, o) && RepeatsAt(r, m + 1, o) && RepeatsAt(r, m + 2, o) && RepeatsAt(r, m + 3, o);
  }

  lemma MatchInTail(src: seq<byte>, n: nat, q: Sequence, reach: nat)
    requires Tailed(src, n) && 1 <= q.offset <= |q.literals| && q.matchLength >= MINMATCH
    requires CopyMatch(q.literals, q.offset, q.matchLength) <= src
    requires |q.literals| + q.matchLength + LASTLITERALS <= |src|
    requires NoLongRun(src, 0, |q.literals|, reach)
    requires var end := |q.literals| + q.matchLength; end + LASTLITERALS < |src| ==> src[end] != src[end - q.offset]
    ensures n < |q.literals| < n + reach && |q.literals| + q.matchLength + LASTLITERALS == |src|
  {
    hide CopyMatch, NoLongRun;
    MatchRecurs(src, q);
    TailStops(src, n, |q.literals|, reach);
    assert forall k :: n <= k < |src| ==> src[k] == src[n];
  }

  /** So the search finds one sequence, or none yet. */
  lemma OneSequence(src: seq<byte>, n: nat, e: seq<byte>, qs: seq<Sequence>, anchor: nat, reach: nat)
    requires Tailed(src, n) && Encoded(src, e, qs, anchor, reach)
    ensures |qs| <= 1
    ensures |qs| == 0 ==> anchor == 0 && e == []
    ensures |qs| == 1 ==>
              && anchor + LASTLITERALS == |src| && n < |qs[0].literals| < n + reach && e == PrintSequence(qs[0])
              && |qs[0].literals| <= |src| && qs[0].matchLength <= |src|
  {
    hide CopyMatch, NoLongRun, PrintSequence, Tailed, GreedyAt;
    if |qs| > 0 {
      FirstSequence(src, n, e, qs, anchor, reach);
      assert qs[..1] == [qs[0]];
      assert |qs| > 1 ==> ConformingAt(qs, 1, |src|);
      assert qs == [qs[0]] && [qs[0]][..0] == [] && PrintAll([]) == [];
      assert [] + PrintSequence(qs[0]) == PrintSequence(qs[0]);
    }
  }

  // ---------------------------------------------------------------- whole blocks of a page

  /** The size of such a block: its literals, and a few bytes for the run. */
  lemma TailedSize(z: seq<byte>, src: seq<byte>, n: nat)
    requires Tailed(src, n) && |src| == FLASH_PAGE_SIZE && n + 2 * PAGE_REACH <= FLASH_PAGE_SIZE
    requires GreedyBlock(z, src, Lz4Codec.Hash4, 1)
    ensures n < |z| < n + PAGE_REACH + 50
    ensures n >= 15 ==> z[0] >= 240
  {
    hide Encoded, NoLongRun, PrintSequence, PrintLiterals, PrintAll, Tailed, Traced, NoMatch;
    var qs: seq<Sequence>, anchor: nat, logs :| GreedyAs(z, src, Lz4Codec.Hash4, 1, qs, anchor, logs);
    OneSequence(src, n, PrintAll(qs), qs, anchor, PAGE_REACH);
    if |qs| == 0 {
      TailStops(src, n, |src| - PAGE_REACH, PAGE_REACH);
      assert false;
    }
    SequenceSize(qs[0]);
    LiteralsSize(src[anchor..]);
    if n >= 15 {
      FirstToken(qs[0]);
    }
  }

  lemma FirstToken(q: Sequence)
    requires Printable(q) && |q.literals| >= 15
    ensures |PrintSequence(q)| > 0 && PrintSequence(q)[0] >= 240
  {
    hide Extension;
  }

  /** Nothing overflows a page. */
  lemma TailedFits(src: seq<byte>, n: nat)
    requires Tailed(src, n) && |src| == FLASH_PAGE_SIZE && n + 2 * PAGE_REACH <= FLASH_PAGE_SIZE
    ensures !Overflows(src, Lz4Codec.Hash4, 1, FLASH_PAGE_SIZE)
  {
    hide Encoded, NoLongRun, PrintSequence, PrintAll, Tailed, Traced, LiteralsTo;
    forall qs: seq<Sequence>, anchor: nat, end: nat | forall q :: q in qs ==> Printable(q)
      ensures !OverflowsAt(src, qs, anchor, end, PAGE_REACH, FLASH_PAGE_SIZE)
    {
      if OverflowsAt(src, qs, anchor, end, PAGE_REACH, FLASH_PAGE_SIZE) {
        OneSequence(src, n, PrintAll(qs), qs, anchor, PAGE_REACH);
        if |qs| == 1 {
          SequenceSize(qs[0]);
        } else {
          TailStops(src, n, if end + PAGE_REACH <= |src| then end else |src| - PAGE_REACH, PAGE_REACH);
        }
        assert false;
      }
    }
  }

  /**
   * What the compressor makes of such a block: it is compressed to about `n` bytes. Hence
   * for `n` from 2049 to 2700 the size is one that the translation layer stores as if raw.
   */
  lemma TailedForm(c: CompressedBlock, src: seq<byte>, n: nat)
    requires Tailed(src, n) && |src| == FLASH_PAGE_SIZE && n <= 2700 && FormOf(c, src) && src != ZeroBlock()
    ensures c.isCompressed && !c.isZeroBlock && n < c.compressedSize < n + 200
    ensures n >= 15 ==> c.data[0] >= 240
  {
    hide GreedyBlock, Overflows, Tailed, Represents;
    assert PAGE_REACH == 140;
    TailedFits(src, n);
    forall z | GreedyBlock(z, src, Lz4Codec.Hash4, 1) ensures n < |z| < n + 200 && (n >= 15 ==> z[0] >= 240) {
      TailedSize(z, src, n);
    }
    assert c.isCompressed;
    var z := c.data[..c.compressedSize];
    assert GreedyBlock(z, src, Lz4Codec.Hash4, 1) && c.data[0] == z[0];
  }

  // ---------------------------------------------------------------- blocks that are kept raw

  /** A block that does not repeat up to 3072 bytes and more is kept as it is. */
  lemma TailedRaw(c: CompressedBlock, src: seq<byte>, n: nat)
    requires Tailed(src, n) && |src| == FLASH_PAGE_SIZE && 3072 <= n <= 3800 && FormOf(c, src)
    ensures !c.isCompressed && !c.isZeroBlock && c.compressedSize == FLASH_PAGE_SIZE && c.data == src
  {
    hide GreedyBlock, Overflows, Represents, TooLarge;
    assert PAGE_REACH == 140;
    assert src != ZeroBlock() by {
      assert !SameFour(src, 0, 1);
    }
    hide Tailed;
    if c.isCompressed {
      TailedSize(c.data[..c.compressedSize], src, n);
    }
  }

  /** No four bytes occur twice. */
  ghost predicate NoneRecurs(src: seq<byte>) {
    forall i, j :: 0 <= i < j && j + 4 <= |src| ==> !SameFour(src, i, j)
  }

  /** Then no search finds a match. */
  lemma NoSequence(src: seq<byte>, e: seq<byte>, qs: seq<Sequence>, anchor: nat, reach: nat)
    requires NoneRecurs(src) && Encoded(src, e, qs, anchor, reach)
    ensures qs == [] && anchor == 0 && e == []
  {
    hide CopyMatch, NoLongRun, NoneRecurs, PrintAll;
    assert qs == [] ==> PrintAll(qs) == [] && Expand(qs) == Some([]) by { NothingEncoded(src, reach); }
    if qs != [] {
      var q := qs[0];
      NothingBefore(q);
      assert ConformingAt(qs, 0, |src|) && qs[..0] == [];
      ExpandKeeps(qs, 1);
      assert qs[..1] == [q];
      MatchRecurs(src, q);
      RecursNowhere(src, |q.literals| - q.offset, |q.literals|);
    }
  }

  lemma RecursNowhere(src: seq<byte>, i: nat, j: nat)
    requires NoneRecurs(src) && i < j && j + 4 <= |src|
    ensures !SameFour(src, i, j)
  {
  }

  /** A page in which no four bytes occur twice is kept as it is. */
  lemma NoneRecursRaw(c: CompressedBlock, src: seq<byte>)
    requires NoneRecurs(src) && |src| == FLASH_PAGE_SIZE && FormOf(c, src)
    ensures !c.isCompressed && !c.isZeroBlock && c.compressedSize == FLASH_PAGE_SIZE && c.data == src
  {
    hide Encoded, NoLongRun, PrintLiterals, Represents, TooLarge, NoneRecurs, Traced, NoMatch;
    assert src != ZeroBlock() by {
      RecursNowhere(src, 0, 1);
    }
    if c.isCompressed {
      var z := c.data[..c.compressedSize];
      var qs: seq<Sequence>, anchor: nat, logs :| GreedyAs(z, src, Lz4Codec.Hash4, 1, qs, anchor, logs);
      NoSequence(src, PrintAll(qs), qs, anchor, PAGE_REACH);
      LiteralsSize(src[anchor..]);
    }
  }

  /** A counter of two digits that starts at `from`. */
  function DigitByte(from: nat, i: nat): (b: byte)
    requires from <= 2000 && i < FLASH_PAGE_SIZE
  {
    if i % 2 == 0 then 1 + (i / 2 + from) % 100 else 101 + (i / 2 + from) / 100
  }

  function DigitBlock(from: nat): (src: seq<byte>)
    requires from <= 2000
    ensures |src| == FLASH_PAGE_SIZE
    ensures forall i {:trigger src[i]} :: 0 <= i < FLASH_PAGE_SIZE ==> src[i] == DigitByte(from, i)
  {
    seq(FLASH_PAGE_SIZE, i requires 0 <= i < FLASH_PAGE_SIZE => DigitByte(from, i))
  }

  /** No four bytes of it occur twice. */
  lemma DigitsNeverRecur(from: nat)
    requires from <= 2000
    ensures NoneRecurs(DigitBlock(from))
  {
    var src := DigitBlock(from);
    forall i, j | 0 <= i < j && j + 4 <= |src| ensures !SameFour(src, i, j) {
      if i % 2 == 0 {
        PairsApart(from, i, j);
      } else {
        PairsApart(from, i + 1, j + 1);
      }
    }
  }

  /** Different starts give different blocks. */
  lemma DigitBlocksDiffer(a: nat, b: nat)
    requires a <= 2000 && b <= 2000 && a != b
    ensures DigitBlock(a) != DigitBlock(b)
  {
    assert DigitBlock(a)[0] == DigitByte(a, 0) && DigitBlock(b)[0] == DigitByte(b, 0);
    assert DigitBlock(a)[1] == DigitByte(a, 1) && DigitBlock(b)[1] == DigitByte(b, 1);
  }

  lemma PairsApart(from: nat, i: nat, j: nat)
    requires from <= 2000 && i % 2 == 0 && i < j && j + 1 < FLASH_PAGE_SIZE
    ensures DigitByte(from, i) != DigitByte(from, j) || DigitByte(from, i + 1) != DigitByte(from, j + 1)
  {
  }

  // ---------------------------------------------------------------- two families of blocks

  /** A block of one byte value. */
  lemma ConstantTailed(b: byte)
    requires b > 0
    ensures Tailed(Fill(b, FLASH_PAGE_SIZE), 0) && Fill(b, FLASH_PAGE_SIZE) != ZeroBlock()
  {
    assert Fill(b, FLASH_PAGE_SIZE)[0] != ZeroBlock()[0];
  }

  /** `counted` bytes of a counter of two digits, low digit first, then a run. The digits do not share values. */
  function CounterByte(counted: nat, i: nat): (b: byte)
    requires counted <= FLASH_PAGE_SIZE
  {
    if i >= counted then 200 else if i % 2 == 0 then 1 + i / 2 % 100 else 101 + i / 2 / 100
  }

  function CounterBlock(counted: nat): (src: seq<byte>)
    requires counted <= FLASH_PAGE_SIZE
    ensures |src| == FLASH_PAGE_SIZE
    ensures forall i {:trigger src[i]} :: 0 <= i < FLASH_PAGE_SIZE ==> src[i] == CounterByte(counted, i)
  {
    seq(FLASH_PAGE_SIZE, i requires 0 <= i < FLASH_PAGE_SIZE => CounterByte(counted, i))
  }

  lemma CounterTailed(counted: nat)
    requires 0 < counted <= FLASH_PAGE_SIZE && counted % 2 == 0
    ensures Tailed(CounterBlock(counted), counted) && CounterBlock(counted) != ZeroBlock()
    ensures CounterBlock(counted)[0] == 1
  {
    var src := CounterBlock(counted);
    assert src[0] == CounterByte(counted, 0);
    forall i, j | 0 <= i < counted && i < j && j + 4 <= |src| ensures !SameFour(src, i, j) {
      CounterDistinct(counted, i, j);
    }
  }

  lemma CounterDistinct(counted: nat, i: nat, j: nat)
    requires i < counted <= FLASH_PAGE_SIZE && counted % 2 == 0 && i < j
    ensures CounterByte(counted, i) != CounterByte(counted, j)
         || CounterByte(counted, i + 1) != CounterByte(counted, j + 1)
         || CounterByte(counted, i + 2) != CounterByte(counted, j + 2)
  {
    if i % 2 == 0 {
      DigitsApart(counted, i, j);
    } else if i + 1 < counted {
      DigitsApart(counted, i + 1, j + 1);
    }
  }

  lemma DigitsApart(counted: nat, i: nat, j: nat)
    requires i < counted <= FLASH_PAGE_SIZE && counted % 2 == 0 && i % 2 == 0 && i < j
    ensures CounterByte(counted, i) != CounterByte(counted, j)
         || CounterByte(counted, i + 1) != CounterByte(counted, j + 1)
  {
  }
}
