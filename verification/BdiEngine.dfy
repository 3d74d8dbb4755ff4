/**
 * Base-delta-immediate compression of 64-byte cache lines. A line is read as words of 8, 4
 * or 2 bytes; when all words are close to the first, the first word and small signed
 * differences are stored. Differences and sums wrap around in the word size.
 */
module BdiEngine {
  import opened Bytes

  const CACHE_LINE_SIZE := 64

  datatype Pattern = Zeros | RepWord | Base8Delta1 | Base8Delta2 | Base8Delta4
                   | Base4Delta1 | Base4Delta2 | Base2Delta1 | Uncompressed

  datatype CompressedLine = CompressedLine(pattern: Pattern, compressedSize: nat, data: seq<byte>)

  /** The tag stored in the first payload byte. */
  function Tag(p: Pattern): (t: byte) {
    match p
    case Zeros => 0
    case RepWord => 1
    case Base8Delta1 => 2
    case Base8Delta2 => 3
    case Base8Delta4 => 4
    case Base4Delta1 => 5
    case Base4Delta2 => 6
    case Base2Delta1 => 7
    case Uncompressed => 15
  }

  /** The pattern with that tag. */
  function PatternOfTag(t: byte): (r: Option<Pattern>)
    ensures r.Some? ==> Tag(r.value) == t
    ensures forall p: Pattern :: Tag(p) == t ==> r == Some(p)
  {
    match t
    case 0 => Some(Zeros)
    case 1 => Some(RepWord)
    case 2 => Some(Base8Delta1)
    case 3 => Some(Base8Delta2)
    case 4 => Some(Base8Delta4)
    case 5 => Some(Base4Delta1)
    case 6 => Some(Base4Delta2)
    case 7 => Some(Base2Delta1)
    case 15 => Some(Uncompressed)
    case _ => None
  }

  predicate IsDelta(p: Pattern) {
    p != Zeros && p != RepWord && p != Uncompressed
  }

  function BaseWidth(p: Pattern): (w: nat)
    requires IsDelta(p)
    ensures w in {2, 4, 8}
  {
    if p in {Base8Delta1, Base8Delta2, Base8Delta4} then 8 else if p in {Base4Delta1, Base4Delta2} then 4 else 2
  }

  function DeltaWidth(p: Pattern): (d: nat)
    requires IsDelta(p)
    ensures d in {1, 2, 4} && d < BaseWidth(p)
  {
    if p == Base8Delta4 then 4 else if p in {Base8Delta2, Base4Delta2} then 2 else 1
  }

  /** Payload size with its tag byte: tag, base and one difference per further word. */
  function Size(p: Pattern): (n: nat)
    ensures 1 <= n <= CACHE_LINE_SIZE
    ensures IsDelta(p) ==> n == 1 + BaseWidth(p) + (CACHE_LINE_SIZE / BaseWidth(p) - 1) * DeltaWidth(p)
  {
    match p
    case Zeros => 1
    case RepWord => 9
    case Base8Delta1 => 16
    case Base4Delta1 => 20
    case Base8Delta2 => 23
    case Base2Delta1 => 34
    case Base4Delta2 => 35
    case Base8Delta4 => 37
    case Uncompressed => 64
  }

  /** Slots are 16, 32, 48 or 64 bytes. */
  function QuantizedSlotSize(size: nat): (s: nat)
    ensures s in {16, 32, 48, 64}
    ensures size <= CACHE_LINE_SIZE ==> size <= s && (s == 16 || s < size + 16)
  {
    if size <= 16 then 16 else if size <= 32 then 32 else if size <= 48 then 48 else 64
  }

  // ---------------------------------------------------------------- wrap-around arithmetic

  function Modulus(w: nat): (m: nat)
    requires w in {1, 2, 4, 8}
    ensures m == Pow256(w) && m >= 256
  {
    assert Pow256(1) == 0x100;
    assert Pow256(2) == 0x1_0000;
    assert Pow256(3) == 0x100_0000;
    assert Pow256(4) == 0x1_0000_0000;
    assert Pow256(6) == 0x1_0000_0000_0000;
    assert Pow256(8) == 0x1_0000_0000_0000_0000;
    if w == 1 then 0x100 else if w == 2 then 0x1_0000
    else if w == 4 then 0x1_0000_0000 else 0x1_0000_0000_0000_0000
  }

  /** Two's complement: the signed value of `v` below `m`. */
  function Signed(v: nat, m: nat): (s: int)
    requires v < m
  {
    if 2 * v < m then v else v - m
  }

  /** The unsigned representation of a signed value. */
  function Unsigned(s: int, m: nat): (v: nat)
    requires -(m as int) <= s < m
  {
    if s < 0 then s + m else s
  }

  /** The wrapping difference of two words, as a signed word. */
  function Difference(a: nat, b: nat, m: nat): (s: int)
    requires a < m && b < m
    ensures -(m as int) <= 2 * s < m
  {
    Signed(if a >= b then a - b else a - b + m, m)
  }

  /** The wrapping sum of a word and a signed difference. */
  function Sum(b: nat, s: int, m: nat): (a: nat)
    requires b < m && -(m as int) < s < m
    ensures a < m
  {
    if b + s < 0 then b + s + m else if b + s >= m then b + s - m else b + s
  }

  /** The difference fits a signed field of modulus `dm`. */
  predicate FitsDelta(s: int, dm: nat) {
    -(dm as int) <= 2 * s < dm
  }

  lemma SignedUnsigned(s: int, m: nat)
    requires FitsDelta(s, m) && m >= 1
    ensures Unsigned(s, m) < m && Signed(Unsigned(s, m), m) == s
  {
  }

  lemma DifferenceSum(a: nat, b: nat, m: nat)
    requires a < m && b < m && m >= 2
    ensures Sum(b, Difference(a, b, m), m) == a
  {
  }

  lemma SumDifference(b: nat, s: int, m: nat)
    requires b < m && -(m as int) <= 2 * s < m && m >= 2
    ensures Difference(Sum(b, s, m), b, m) == s
  {
  }

  // ---------------------------------------------------------------- what a payload means

  function WordAt(line: seq<byte>, i: nat, w: nat): (v: nat)
    requires i * w + w <= |line|
  {
    ReadWord(line, i * w, w)
  }

  function DeltaAt(buf: seq<byte>, i: nat, w: nat, d: nat): (s: int)
    requires d in {1, 2, 4} && i >= 1 && 1 + w + (i - 1) * d + d <= |buf|
    ensures FitsDelta(s, Modulus(d))
  {
    ReadWordBound(buf, 1 + w + (i - 1) * d, d);
    Signed(ReadWord(buf, 1 + w + (i - 1) * d, d), Modulus(d))
  }

  /** Word `i` of the line is the base plus difference `i`. */
  ghost predicate WordDecodes(buf: seq<byte>, line: seq<byte>, i: nat, w: nat, d: nat)
    requires w in {2, 4, 8} && d in {1, 2, 4} && d < w
  {
    && i * w + w <= |line| && 1 + w <= |buf| && (i >= 1 ==> 1 + w + (i - 1) * d + d <= |buf|)
    && (ReadWordBound(buf, 1, w); ModulusLess(d, w);
        WordAt(line, i, w) == if i == 0 then ReadWord(buf, 1, w)
                              else Sum(ReadWord(buf, 1, w), DeltaAt(buf, i, w, d), Modulus(w)))
  }

  lemma ModulusLess(d: nat, w: nat)
    requires w in {2, 4, 8} && d in {1, 2, 4} && d < w
    ensures Modulus(d) < Modulus(w)
  {
  }

  /** The payload `buf`, taken with pattern `p`, stands for the line. */
  ghost predicate Payload(p: Pattern, buf: seq<byte>, line: seq<byte>): (decodes: bool)
    ensures decodes ==> |line| == CACHE_LINE_SIZE
  {
    && |line| == CACHE_LINE_SIZE && |buf| >= Size(p)
    && match p
       case Zeros => forall k :: 0 <= k < CACHE_LINE_SIZE ==> line[k] == 0
       case RepWord => forall i :: 0 <= i < 8 ==> WordAt(line, i, 8) == ReadWord(buf, 1, 8)
       case Uncompressed => line == buf[..CACHE_LINE_SIZE]
       case _ => DeltasDecode(buf, line, BaseWidth(p), DeltaWidth(p))
  }

  ghost predicate DeltasDecode(buf: seq<byte>, line: seq<byte>, w: nat, d: nat)
    requires w in {2, 4, 8} && d in {1, 2, 4} && d < w
  {
    forall i :: 0 <= i < CACHE_LINE_SIZE / w ==> WordDecodes(buf, line, i, w, d)
  }

  lemma InLine(i: nat, w: nat, d: nat)
    requires w in {2, 4, 8} && i < CACHE_LINE_SIZE / w
    ensures i * w + w <= CACHE_LINE_SIZE
    ensures i >= 1 ==> 1 + w + (i - 1) * d + d <= 1 + w + (CACHE_LINE_SIZE / w - 1) * d
  {
    assert (i - 1) * d + d == i * d;
    assert i * d <= (CACHE_LINE_SIZE / w - 1) * d;
  }

  // ---------------------------------------------------------------- a line is its words

  lemma WordSlices(a: seq<byte>, b: seq<byte>, i: nat, w: nat)
    requires i * w + w <= |a| && i * w + w <= |b|
    ensures WordAt(a, i, w) == WordAt(b, i, w) <==> a[i * w..i * w + w] == b[i * w..i * w + w]
  {
    SameWords(a, i * w, b, i * w, w);
  }

  lemma {:induction false} WordsDetermine(a: seq<byte>, b: seq<byte>, w: nat, n: nat)
    requires n * w <= |a| && n * w <= |b|
    requires forall i :: 0 <= i < n ==> i * w + w <= |a| && i * w + w <= |b| && WordAt(a, i, w) == WordAt(b, i, w)
    ensures a[..n * w] == b[..n * w]
    decreases n
  {
    if n > 0 {
      var m := (n - 1) * w;
      assert n * w == m + w;
      WordsDetermine(a, b, w, n - 1);
      WordSlices(a, b, n - 1, w);
      assert a[..n * w] == a[..m] + a[m..m + w] && b[..n * w] == b[..m] + b[m..m + w];
    }
  }

  /** A payload stands for one line only. */
  lemma PayloadUnique(p: Pattern, buf: seq<byte>, a: seq<byte>, b: seq<byte>)
    requires Payload(p, buf, a) && Payload(p, buf, b)
    ensures a == b
  {
    if p == RepWord {
      WordsDetermine(a, b, 8, 8);
      assert a[..64] == a && b[..64] == b;
    } else if IsDelta(p) {
      var w, d := BaseWidth(p), DeltaWidth(p);
      forall i | 0 <= i < CACHE_LINE_SIZE / w ensures i * w + w <= 64 && WordAt(a, i, w) == WordAt(b, i, w) {
        assert WordDecodes(buf, a, i, w, d) && WordDecodes(buf, b, i, w, d);
      }
      WordsDetermine(a, b, w, CACHE_LINE_SIZE / w);
      assert a[..64] == a && b[..64] == b;
    }
  }

  /** Only the first `Size(p)` bytes of the payload matter: it can be read back from its slot. */
  lemma PayloadFromSlot(p: Pattern, buf: seq<byte>, slot: seq<byte>, line: seq<byte>)
    requires Payload(p, buf, line) && |slot| >= Size(p) && slot[..Size(p)] == buf[..Size(p)]
    ensures Payload(p, slot, line)
  {
    var n := Size(p);
    if p == RepWord {
      SlotWord(buf, slot, n, 1, 8);
    } else if p == Uncompressed {
      assert slot[..64] == slot[..n] && buf[..64] == buf[..n];
    } else if IsDelta(p) {
      var w, d := BaseWidth(p), DeltaWidth(p);
      forall i | 0 <= i < CACHE_LINE_SIZE / w ensures WordDecodes(slot, line, i, w, d) {
        InLine(i, w, d);
        assert WordDecodes(buf, line, i, w, d);
        WordFromSlot(buf, slot, line, i, w, d, n);
      }
    }
  }

  lemma WordFromSlot(buf: seq<byte>, slot: seq<byte>, line: seq<byte>, i: nat, w: nat, d: nat, n: nat)
    requires w in {2, 4, 8} && d in {1, 2, 4} && d < w
    requires 1 + w <= n <= |buf| && n <= |slot| && slot[..n] == buf[..n]
    requires i >= 1 ==> 1 + w + (i - 1) * d + d <= n
    requires WordDecodes(buf, line, i, w, d)
    ensures WordDecodes(slot, line, i, w, d)
  {
    hide Modulus, Sum, ReadWord, Signed;
    SlotWord(buf, slot, n, 1, w);
    if i >= 1 {
      SlotWord(buf, slot, n, 1 + w + (i - 1) * d, d);
    }
  }

  lemma SlotWord(buf: seq<byte>, slot: seq<byte>, n: nat, at: nat, w: nat)
    requires at + w <= n <= |buf| && n <= |slot| && slot[..n] == buf[..n]
    ensures ReadWord(buf, at, w) == ReadWord(slot, at, w)
  {
    SameWords(buf, at, slot, at, w);
    assert buf[at..at + w] == buf[..n][at..at + w] && slot[at..at + w] == slot[..n][at..at + w];
  }

  // ---------------------------------------------------------------- what fits

  ghost predicate DeltasFit(line: seq<byte>, w: nat, d: nat)
    requires w in {2, 4, 8} && d in {1, 2, 4} && d < w && |line| == CACHE_LINE_SIZE
  {
    forall i :: 1 <= i < CACHE_LINE_SIZE / w ==> WordFits(line, i, w, d)
  }

  /** How far word `i` is from the first, wrapping around. */
  function WordDifference(line: seq<byte>, i: nat, w: nat): (s: int)
    requires w in {2, 4, 8} && i * w + w <= |line| && w <= |line|
  {
    ReadWordBound(line, i * w, w);
    ReadWordBound(line, 0, w);
    Difference(WordAt(line, i, w), WordAt(line, 0, w), Modulus(w))
  }

  ghost predicate WordFits(line: seq<byte>, i: nat, w: nat, d: nat)
    requires w in {2, 4, 8} && d in {1, 2, 4}
  {
    i * w + w <= |line| && w <= |line| && FitsDelta(WordDifference(line, i, w), Modulus(d))
  }

  /** If any payload of a base-delta pattern stands for the line, the differences fit. */
  lemma PayloadFits(p: Pattern, buf: seq<byte>, line: seq<byte>)
    requires IsDelta(p) && Payload(p, buf, line)
    ensures DeltasFit(line, BaseWidth(p), DeltaWidth(p))
  {
    var w, d := BaseWidth(p), DeltaWidth(p);
    assert WordDecodes(buf, line, 0, w, d);
    forall i | 1 <= i < CACHE_LINE_SIZE / w ensures WordFits(line, i, w, d) {
      InLine(i, w, d);
      assert WordDecodes(buf, line, i, w, d);
      ReadWordBound(buf, 1, w);
      ModulusLess(d, w);
      SumDifference(ReadWord(buf, 1, w), DeltaAt(buf, i, w, d), Modulus(w));
    }
  }

  // ---------------------------------------------------------------- compression

  /** Stores one little-endian word. */
  method WriteWord(buf: array<byte>, at: nat, v: nat, w: nat)
    requires at + w <= buf.Length && v < Pow256(w)
    modifies buf
    ensures ReadWord(buf[..], at, w) == v
    ensures buf[..at] == old(buf[..at]) && buf[at + w..] == old(buf[at + w..])
  {
    var bytes := WordBytes(v, w);
    forall k | 0 <= k < w {
      buf[at + k] := bytes[k];
    }
    ReadWordBytes(v, w);
    assert buf[..][at..at + w] == bytes[0..w];
    SameWords(buf[..], at, bytes, 0, w);
  }

  /** All words are zero. */
  method IsZeroLine(line: seq<byte>) returns (zero: bool)
    requires |line| == CACHE_LINE_SIZE
    ensures zero <==> forall k :: 0 <= k < CACHE_LINE_SIZE ==> line[k] == 0
  {
    hide ReadWord;
    for i := 0 to 8
      invariant forall k :: 0 <= k < 8 * i ==> line[k] == 0
    {
      ZeroWord(line, 8 * i, 8);
      if ReadWord(line, 8 * i, 8) != 0 {
        return false;
      }
    }
    zero := true;
  }

  method AllRepeated(line: seq<byte>) returns (repeated: bool)
    requires |line| == CACHE_LINE_SIZE
    ensures repeated <==> forall i :: 0 <= i < 8 ==> WordAt(line, i, 8) == WordAt(line, 0, 8)
  {
    hide ReadWord, WordAt;
    for i := 1 to 8
      invariant forall j :: 0 <= j < i ==> WordAt(line, j, 8) == WordAt(line, 0, 8)
    {
      if WordAt(line, i, 8) != WordAt(line, 0, 8) {
        return false;
      }
    }
    repeated := true;
  }

  /** Every word differs from the first by a difference that fits `d` bytes. */
  method TryDeltas(line: seq<byte>, w: nat, d: nat) returns (fit: bool)
    requires w in {2, 4, 8} && d in {1, 2, 4} && d < w && |line| == CACHE_LINE_SIZE
    ensures fit <==> DeltasFit(line, w, d)
  {
    hide ReadWord, WordDifference, Modulus;
    for i := 1 to CACHE_LINE_SIZE / w
      invariant forall j :: 1 <= j < i ==> WordFits(line, j, w, d)
    {
      InLine(i, w, d);
      if !FitsDelta(WordDifference(line, i, w), Modulus(d)) {
        assert !WordFits(line, i, w, d);
        return false;
      }
    }
    fit := true;
  }

  /** What is already decided about word `j` stays, if the payload is only changed behind it. */
  lemma WordStays(a: seq<byte>, b: seq<byte>, line: seq<byte>, j: nat, w: nat, d: nat, at: nat)
    requires w in {2, 4, 8} && d in {1, 2, 4} && d < w && 1 + w <= at <= |a| && |a| == |b| && a[..at] == b[..at]
    requires j >= 1 ==> 1 + w + (j - 1) * d + d <= at
    requires WordDecodes(a, line, j, w, d)
    ensures WordDecodes(b, line, j, w, d)
  {
    WordFromSlot(a, b, line, j, w, d, at);
  }

  /** Tag, first word, and one difference per further word. */
  method EmitDeltas(line: seq<byte>, p: Pattern) returns (data: array<byte>)
    requires |line| == CACHE_LINE_SIZE && IsDelta(p) && DeltasFit(line, BaseWidth(p), DeltaWidth(p))
    ensures fresh(data) && data.Length == CACHE_LINE_SIZE + 1
    ensures data[0] == Tag(p) && Payload(p, data[..], line)
  {
    hide ReadWord, WordDecodes, Modulus, DeltasFit;
    var w, d := BaseWidth(p), DeltaWidth(p);
    data := new byte[CACHE_LINE_SIZE + 1](_ => 0);
    data[0] := Tag(p);
    ReadWordBound(line, 0, w);
    WriteWord(data, 1, WordAt(line, 0, w), w);
    BaseDecodes(data[..], line, w, d);
    assert data[..1][0] == Tag(p);
    for i := 1 to CACHE_LINE_SIZE / w
      invariant data[0] == Tag(p)
      invariant forall j :: 0 <= j < i ==> WordDecodes(data[..], line, j, w, d)
    {
      InLine(i, w, d);
      EmitDelta(data, line, i, w, d);
    }
  }

  lemma BaseDecodes(buf: seq<byte>, line: seq<byte>, w: nat, d: nat)
    requires w in {2, 4, 8} && d in {1, 2, 4} && d < w && w <= |line| && 1 + w <= |buf|
    requires ReadWord(buf, 1, w) == WordAt(line, 0, w)
    ensures WordDecodes(buf, line, 0, w, d)
  {
  }

  method EmitDelta(data: array<byte>, line: seq<byte>, i: nat, w: nat, d: nat)
    requires w in {2, 4, 8} && d in {1, 2, 4} && d < w && 1 <= i < CACHE_LINE_SIZE / w
    requires |line| == CACHE_LINE_SIZE && data.Length == CACHE_LINE_SIZE + 1
    requires 1 + w + (i - 1) * d + d <= data.Length && i * w + w <= |line|
    requires DeltasFit(line, w, d)
    requires forall j :: 0 <= j < i ==> WordDecodes(data[..], line, j, w, d)
    modifies data
    ensures data[0] == old(data[0])
    ensures forall j :: 0 <= j < i + 1 ==> WordDecodes(data[..], line, j, w, d)
  {
    hide ReadWord, WordDecodes, Modulus, WordDifference;
    assert WordFits(line, i, w, d) && WordDecodes(data[..], line, 0, w, d);
    ghost var a := data[..];
    var at := 1 + w + (i - 1) * d;
    var diff := WordDifference(line, i, w);
    WriteWord(data, at, Unsigned(diff, Modulus(d)), d);
    assert data[..at] == a[..at];
    forall j | 0 <= j < i ensures WordDecodes(data[..], line, j, w, d) {
      EarlierDelta(j, i, d);
      assert data[..][..at] == a[..at];
      WordStays(a, data[..], line, j, w, d, at);
    }
    DeltaDecodes(a, data[..], line, i, w, d);
  }

  lemma EarlierDelta(j: nat, i: nat, d: nat)
    requires j < i
    ensures j >= 1 ==> (j - 1) * d + d <= (i - 1) * d
  {
    assert (j - 1) * d + d == j * d;
    assert j * d <= (i - 1) * d;
  }

  /** A difference written in two's complement decodes to the word it came from. */
  lemma DeltaDecodes(a: seq<byte>, b: seq<byte>, line: seq<byte>, i: nat, w: nat, d: nat)
    requires w in {2, 4, 8} && d in {1, 2, 4} && d < w && i >= 1 && i * w + w <= |line|
    requires 1 + w + (i - 1) * d + d <= |b| && 1 + w <= |a| == |b|
    requires WordFits(line, i, w, d) && WordDecodes(b, line, 0, w, d)
    requires ReadWord(b, 1 + w + (i - 1) * d, d) == Unsigned(WordDifference(line, i, w), Modulus(d))
    ensures WordDecodes(b, line, i, w, d)
  {
    hide ReadWord, Modulus, Difference, Sum, Signed, Unsigned, Pow256;
    ReadWordBound(line, i * w, w);
    ReadWordBound(line, 0, w);
    SignedUnsigned(WordDifference(line, i, w), Modulus(d));
    DifferenceSum(WordAt(line, i, w), WordAt(line, 0, w), Modulus(w));
  }

  method Emit(line: seq<byte>, p: Pattern) returns (c: CompressedLine)
    requires |line| == CACHE_LINE_SIZE && IsDelta(p) && DeltasFit(line, BaseWidth(p), DeltaWidth(p))
    ensures c.pattern == p && c.compressedSize == Size(p)
    ensures |c.data| == CACHE_LINE_SIZE + 1 && Payload(p, c.data, line) && c.data[0] == Tag(p)
  {
    var data := EmitDeltas(line, p);
    c := CompressedLine(p, Size(p), data[..]);
  }

  /** No payload of any pattern smaller than `size` stands for the line. */
  ghost predicate NoneSmaller(line: seq<byte>, size: nat) {
    forall p: Pattern, buf: seq<byte> :: Payload(p, buf, line) ==> size <= Size(p)
  }

  /**
   * The patterns are tried in the order of their sizes, so the one chosen is the smallest
   * that any payload could achieve.
   */
  method Compress(line: seq<byte>) returns (c: CompressedLine)
    requires |line| == CACHE_LINE_SIZE
    ensures c.compressedSize == Size(c.pattern) && |c.data| == CACHE_LINE_SIZE + 1
    ensures Payload(c.pattern, c.data, line)
    ensures c.pattern != Uncompressed ==> c.data[0] == Tag(c.pattern)
    ensures NoneSmaller(line, c.compressedSize)
  {
    hide DeltasDecode, DeltasFit, ReadWord;
    var zero := IsZeroLine(line);
    if zero {
      c := CompressedLine(Zeros, 1, Fill(0, CACHE_LINE_SIZE + 1));
      return;
    }
    var repeated := AllRepeated(line);
    if repeated {
      var data := new byte[CACHE_LINE_SIZE + 1](_ => 0);
      data[0] := Tag(RepWord);
      ReadWordBound(line, 0, 8);
      WriteWord(data, 1, WordAt(line, 0, 8), 8);
      assert data[..1][0] == Tag(RepWord);
      c := CompressedLine(RepWord, 9, data[..]);
      return;
    }
    c := CompressDeltas(line);
  }

  method CompressDeltas(line: seq<byte>) returns (c: CompressedLine)
    requires |line| == CACHE_LINE_SIZE
    requires !(forall k :: 0 <= k < CACHE_LINE_SIZE ==> line[k] == 0)
    requires !(forall i :: 0 <= i < 8 ==> WordAt(line, i, 8) == WordAt(line, 0, 8))
    ensures c.compressedSize == Size(c.pattern) && |c.data| == CACHE_LINE_SIZE + 1
    ensures Payload(c.pattern, c.data, line)
    ensures c.pattern != Uncompressed ==> c.data[0] == Tag(c.pattern)
    ensures NoneSmaller(line, c.compressedSize)
  {
    hide DeltasFit, ReadWord, WordAt, Payload, NoneSmaller;
    var fit := TryDeltas(line, 8, 1);
    if fit {
      c := Emit(line, Base8Delta1);
      NoneBetter(line, Base8Delta1);
      return;
    }
    fit := TryDeltas(line, 4, 1);
    if fit {
      c := Emit(line, Base4Delta1);
      NoneBetter(line, Base4Delta1);
      return;
    }
    fit := TryDeltas(line, 8, 2);
    if fit {
      c := Emit(line, Base8Delta2);
      NoneBetter(line, Base8Delta2);
      return;
    }
    fit := TryDeltas(line, 2, 1);
    if fit {
      c := Emit(line, Base2Delta1);
      NoneBetter(line, Base2Delta1);
      return;
    }
    fit := TryDeltas(line, 4, 2);
    if fit {
      c := Emit(line, Base4Delta2);
      NoneBetter(line, Base4Delta2);
      return;
    }
    fit := TryDeltas(line, 8, 4);
    if fit {
      c := Emit(line, Base8Delta4);
      NoneBetter(line, Base8Delta4);
      return;
    }
    c := CompressedLine(Uncompressed, 64, line + [0]);
    RawPayload(line);
    NoneBetter(line, Uncompressed);
  }

  lemma RawPayload(line: seq<byte>)
    requires |line| == CACHE_LINE_SIZE
    ensures Payload(Uncompressed, line + [0], line)
  {
  }

  /** A pattern is the smallest if the differences of every smaller one fail to fit. */
  lemma NoneBetter(line: seq<byte>, p: Pattern)
    requires |line| == CACHE_LINE_SIZE && p != Zeros && p != RepWord
    requires !(forall k :: 0 <= k < CACHE_LINE_SIZE ==> line[k] == 0)
    requires !(forall i :: 0 <= i < 8 ==> WordAt(line, i, 8) == WordAt(line, 0, 8))
    requires forall q: Pattern :: IsDelta(q) && Size(q) < Size(p) ==> !DeltasFit(line, BaseWidth(q), DeltaWidth(q))
    ensures NoneSmaller(line, Size(p))
  {
    hide DeltasDecode, DeltasFit, ReadWord;
    forall q: Pattern, buf: seq<byte> | Payload(q, buf, line) ensures Size(p) <= Size(q) {
      if IsDelta(q) {
        PayloadFits(q, buf, line);
      }
    }
  }

  // ---------------------------------------------------------------- decompression

  /** Sizes that DecompressRaw refuses for pattern `p`; raw lines and zeros are not checked. */
  predicate TooShort(p: Pattern, compSize: nat) {
    compSize == 0 || (p != Zeros && p != Uncompressed && compSize < Size(p))
  }

  method DecodeRepeated(buf: seq<byte>, dest: array<byte>)
    requires |buf| >= 9 && dest.Length == CACHE_LINE_SIZE
    modifies dest
    ensures Payload(RepWord, buf, dest[..])
  {
    hide ReadWord;
    var v := ReadWord(buf, 1, 8);
    ReadWordBound(buf, 1, 8);
    for i := 0 to 8
      invariant forall j :: 0 <= j < i ==> WordAt(dest[..], j, 8) == v
    {
      ghost var a := dest[..];
      WriteWord(dest, 8 * i, v, 8);
      assert dest[..8 * i] == a[..8 * i];
      forall j | 0 <= j < i ensures WordAt(dest[..], j, 8) == v {
        assert dest[..][..8 * i] == a[..8 * i] && WordAt(a, j, 8) == v;
        SlotWord(a, dest[..], 8 * i, 8 * j, 8);
      }
    }
  }

  method DecodeDeltas(buf: seq<byte>, dest: array<byte>, p: Pattern)
    requires IsDelta(p) && |buf| >= Size(p) && dest.Length == CACHE_LINE_SIZE
    modifies dest
    ensures Payload(p, buf, dest[..])
  {
    hide ReadWord, WordDecodes, Modulus;
    var w, d := BaseWidth(p), DeltaWidth(p);
    ReadWordBound(buf, 1, w);
    WriteWord(dest, 0, ReadWord(buf, 1, w), w);
    BaseDecodes(buf, dest[..], w, d);
    for i := 1 to CACHE_LINE_SIZE / w
      invariant forall j :: 0 <= j < i ==> WordDecodes(buf, dest[..], j, w, d)
    {
      InLine(i, w, d);
      DecodeDelta(buf, dest, i, w, d);
    }
  }

  method DecodeDelta(buf: seq<byte>, dest: array<byte>, i: nat, w: nat, d: nat)
    requires w in {2, 4, 8} && d in {1, 2, 4} && d < w && 1 <= i
    requires dest.Length == CACHE_LINE_SIZE && i * w + w <= CACHE_LINE_SIZE
    requires 1 + w + (i - 1) * d + d <= |buf| && 1 + w <= |buf|
    requires forall j :: 0 <= j < i ==> WordDecodes(buf, dest[..], j, w, d)
    modifies dest
    ensures forall j :: 0 <= j < i + 1 ==> WordDecodes(buf, dest[..], j, w, d)
  {
    hide ReadWord, WordDecodes, Modulus, Sum;
    ghost var a := dest[..];
    ReadWordBound(buf, 1, w);
    ModulusLess(d, w);
    var v := Sum(ReadWord(buf, 1, w), DeltaAt(buf, i, w, d), Modulus(w));
    WriteWord(dest, i * w, v, w);
    assert dest[..i * w] == a[..i * w];
    forall j | 0 <= j < i ensures WordDecodes(buf, dest[..], j, w, d) {
      EarlierWord(j, i, w);
      assert dest[..][..i * w] == a[..i * w];
      LineStays(buf, a, dest[..], j, w, d, i * w);
    }
    WrittenDecodes(buf, dest[..], i, w, d, v);
  }

  lemma EarlierWord(j: nat, i: nat, w: nat)
    requires j < i
    ensures j * w + w <= i * w
  {
    assert j * w + w == (j + 1) * w;
    assert (j + 1) * w <= i * w;
  }

  lemma WrittenDecodes(buf: seq<byte>, line: seq<byte>, i: nat, w: nat, d: nat, v: nat)
    requires w in {2, 4, 8} && d in {1, 2, 4} && d < w && 1 <= i && i * w + w <= |line|
    requires 1 + w + (i - 1) * d + d <= |buf| && 1 + w <= |buf| && ReadWord(line, i * w, w) == v
    requires ReadWord(buf, 1, w) < Modulus(w) && Modulus(d) < Modulus(w)
    requires v == Sum(ReadWord(buf, 1, w), DeltaAt(buf, i, w, d), Modulus(w))
    ensures WordDecodes(buf, line, i, w, d)
  {
    hide ReadWord, Modulus, Sum;
  }

  /** A decoded word stays when the line is only changed behind it. */
  lemma LineStays(buf: seq<byte>, a: seq<byte>, b: seq<byte>, j: nat, w: nat, d: nat, at: nat)
    requires w in {2, 4, 8} && d in {1, 2, 4} && d < w && at <= |a| && |a| == |b| && a[..at] == b[..at]
    requires j * w + w <= at && WordDecodes(buf, a, j, w, d)
    ensures WordDecodes(buf, b, j, w, d)
  {
    hide ReadWord, Modulus, Sum;
    SlotWord(a, b, at, j * w, w);
  }

  /** The pattern that is decoded: the one given, or the one whose tag comes first. */
  function PatternFor(buf: seq<byte>, explicit: Option<Pattern>): (r: Option<Pattern>) {
    if explicit.Some? then explicit else if buf == [] then None else PatternOfTag(buf[0])
  }

  /** Decodes a payload that may be followed by anything, as it is in its slot. */
  method DecompressRaw(buf: seq<byte>, compSize: nat, dest: array<byte>, explicit: Option<Pattern>) returns (ok: bool)
    requires compSize <= |buf| && dest.Length == CACHE_LINE_SIZE
    requires compSize > 0 && PatternFor(buf, explicit) == Some(Uncompressed) ==> CACHE_LINE_SIZE <= |buf|
    modifies dest
    ensures ok <==> PatternFor(buf, explicit).Some? && !TooShort(PatternFor(buf, explicit).value, compSize)
    ensures ok ==> Payload(PatternFor(buf, explicit).value, buf, dest[..])
    ensures !ok ==> dest[..] == old(dest[..])
  {
    if compSize == 0 {
      return false;
    }
    match PatternFor(buf, explicit)
    case Some(p) => ok := DecodePattern(buf, compSize, dest, p);
    case None => ok := false;
  }

  method DecodePattern(buf: seq<byte>, compSize: nat, dest: array<byte>, p: Pattern) returns (ok: bool)
    requires compSize <= |buf| && dest.Length == CACHE_LINE_SIZE
    requires p == Uncompressed ==> CACHE_LINE_SIZE <= |buf|
    modifies dest
    ensures ok <==> !TooShort(p, compSize)
    ensures ok ==> Payload(p, buf, dest[..])
    ensures !ok ==> dest[..] == old(dest[..])
  {
    hide ReadWord, DeltasDecode;
    if TooShort(p, compSize) {
      return false;
    }
    ok := true;
    if p == Zeros {
      forall k | 0 <= k < CACHE_LINE_SIZE {
        dest[k] := 0;
      }
    } else if p == RepWord {
      DecodeRepeated(buf, dest);
    } else if p == Uncompressed {
      forall k | 0 <= k < CACHE_LINE_SIZE {
        dest[k] := buf[k];
      }
      assert dest[..] == buf[..CACHE_LINE_SIZE];
    } else {
      DecodeDeltas(buf, dest, p);
    }
  }

  /** Compression is lossless, also when the payload is read back from its slot. */
  method RoundTrip(line: seq<byte>, rest: seq<byte>, dest: array<byte>) returns (c: CompressedLine, ok: bool)
    requires |line| == CACHE_LINE_SIZE == dest.Length && |rest| == CACHE_LINE_SIZE
    modifies dest
    ensures ok && dest[..] == line
  {
    c := Compress(line);
    var slot := c.data[..c.compressedSize] + rest[c.compressedSize..];
    PayloadFromSlot(c.pattern, c.data, slot, line);
    ok := DecompressRaw(slot, QuantizedSlotSize(c.compressedSize), dest, Some(c.pattern));
    PayloadUnique(c.pattern, slot, line, dest[..]);
  }

  /**
   * Without being told the pattern, what is read back is the line if and only if the line
   * was compressed, or starts with the tag of raw lines: a raw line is stored without a tag.
   */
  method RoundTripByTag(line: seq<byte>, dest: array<byte>) returns (c: CompressedLine, ok: bool)
    requires |line| == CACHE_LINE_SIZE == dest.Length
    modifies dest
    ensures Payload(c.pattern, c.data, line)
    ensures ok && dest[..] == line <==> c.pattern != Uncompressed || line[0] == Tag(Uncompressed)
  {
    hide ReadWord, DeltasDecode;
    c := Compress(line);
    ok := DecompressRaw(c.data, c.compressedSize, dest, None);
    var read := PatternFor(c.data, None);
    if c.pattern == Uncompressed {
      assert c.data[..CACHE_LINE_SIZE][0] == line[0];
      assert ok && dest[..] == line ==> Payload(read.value, c.data, line) && CACHE_LINE_SIZE <= Size(read.value);
    }
    if read == Some(c.pattern) {
      PayloadUnique(c.pattern, c.data, line, dest[..]);
    }
  }
}
