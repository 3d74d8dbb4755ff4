/**
 * The byte syntax against the reference decoder: printing a block and decoding it gives
 * the block's meaning, conforming blocks print to conforming bytes, and whatever
 * decodes at all is the print of some block with that meaning.
 */
module Lz4Syntax {
  import opened Bytes
  import opened Lz4Format

  ghost predicate Has(src: seq<byte>, ip: nat, t: seq<byte>) {
    ip + |t| <= |src| && src[ip..ip + |t|] == t
  }

  lemma HasSplit(src: seq<byte>, ip: nat, t: seq<byte>, u: seq<byte>)
    requires Has(src, ip, t + u)
    ensures Has(src, ip, t) && Has(src, ip + |t|, u)
  {
    assert src[ip..ip + |t|] == (t + u)[..|t|];
    assert src[ip + |t|..ip + |t| + |u|] == (t + u)[|t|..];
  }

  // ---------------------------------------------------------------- lengths

  lemma {:induction false} ReadLengthPrinted(src: seq<byte>, ip: nat, n: nat)
    requires Has(src, ip, LengthBytes(n))
    ensures ReadLength(src, ip) == Some((n, ip + |LengthBytes(n)|))
    decreases n
  {
    var t := LengthBytes(n);
    assert src[ip] == src[ip..ip + |t|][0] == t[0];
    if n >= 255 {
      assert src[ip + 1..ip + |t|] == src[ip..ip + |t|][1..] == LengthBytes(n - 255);
      ReadLengthPrinted(src, ip + 1, n - 255);
    }
  }

  lemma ReadCountPrinted(src: seq<byte>, ip: nat, n: nat)
    requires Has(src, ip, Extension(n))
    ensures ReadCount(src, Nibble(n), ip) == Some((n, ip + |Extension(n)|))
  {
    if n >= NIBBLE_MAX {
      ReadLengthPrinted(src, ip, n - NIBBLE_MAX);
    }
  }

  lemma {:induction false} ReadLengthPrints(src: seq<byte>, ip: nat)
    requires ip <= |src| && ReadLength(src, ip).Some?
    ensures src[ip..ReadLength(src, ip).value.1] == LengthBytes(ReadLength(src, ip).value.0)
    decreases |src| - ip
  {
    if src[ip] == 255 {
      ReadLengthPrints(src, ip + 1);
      var end := ReadLength(src, ip).value.1;
      assert src[ip..end] == [src[ip]] + src[ip + 1..end];
    }
  }

  lemma ReadCountPrints(src: seq<byte>, nibble: nat, ip: nat)
    requires ip <= |src| && nibble <= NIBBLE_MAX && ReadCount(src, nibble, ip).Some?
    ensures var n := ReadCount(src, nibble, ip).value;
            nibble == Nibble(n.0) && src[ip..n.1] == Extension(n.0)
  {
    if nibble == NIBBLE_MAX {
      ReadLengthPrints(src, ip);
    }
  }

  // ---------------------------------------------------------------- one sequence

  /** The literal part of a sequence, read back. */
  lemma LiteralsPrinted(src: seq<byte>, ip: nat, literals: seq<byte>, low: nat)
    requires low <= NIBBLE_MAX
    requires Has(src, ip, PrintLiterals(literals, low))
    ensures ip < |src|
    ensures src[ip] == 16 * Nibble(|literals|) + low
    ensures src[ip] / 16 == Nibble(|literals|) && src[ip] % 16 == low
    ensures var p := ip + 1 + |Extension(|literals|)|;
            && ReadCount(src, src[ip] / 16, ip + 1) == Some((|literals|, p))
            && Has(src, p, literals)
            && p + |literals| == ip + |PrintLiterals(literals, low)|
  {
    hide ReadCount, Extension;
    var token: byte := 16 * Nibble(|literals|) + low;
    HasSplit(src, ip, [token] + Extension(|literals|), literals);
    HasSplit(src, ip, [token], Extension(|literals|));
    assert src[ip] == src[ip..ip + 1][0];
    assert (16 * Nibble(|literals|) + low) / 16 == Nibble(|literals|);
    ReadCountPrinted(src, ip + 1, |literals|);
  }

  /** Where the parts of a printed sequence are. */
  lemma SequencePrinted(src: seq<byte>, ip: nat, q: Sequence) returns (p: nat, o: nat)
    requires Printable(q)
    requires Has(src, ip, PrintSequence(q))
    ensures ip < p <= o && o + 2 + |Extension(q.matchLength - MINMATCH)| == ip + |PrintSequence(q)| <= |src|
    ensures ReadCount(src, src[ip] / 16, ip + 1) == Some((|q.literals|, p))
    ensures Has(src, p, q.literals) && o == p + |q.literals|
    ensures Word16(src[o], src[o + 1]) == q.offset
    ensures ReadCount(src, src[ip] % 16, o + 2) == Some((q.matchLength - MINMATCH, ip + |PrintSequence(q)|))
  {
    hide ReadCount, Extension, Nibble, PrintLiterals;
    var code := q.matchLength - MINMATCH;
    HasSplit(src, ip, PrintLiterals(q.literals, Nibble(code)) + LittleEndian16(q.offset), Extension(code));
    HasSplit(src, ip, PrintLiterals(q.literals, Nibble(code)), LittleEndian16(q.offset));
    LiteralsPrinted(src, ip, q.literals, Nibble(code));
    p := ip + 1 + |Extension(|q.literals|)|;
    o := p + |q.literals|;
    assert src[o..o + 2] == LittleEndian16(q.offset);
    assert src[o] == src[o..o + 2][0] && src[o + 1] == src[o..o + 2][1];
    ReadCountPrinted(src, o + 2, code);
  }

  lemma DecodeSequence(src: seq<byte>, ip: nat, q: Sequence, out: seq<byte>)
    requires Printable(q) && q.offset <= |out| + |q.literals|
    requires Has(src, ip, PrintSequence(q))
    ensures Decode(src, ip, out)
         == Decode(src, ip + |PrintSequence(q)|, CopyMatch(out + q.literals, q.offset, q.matchLength))
  {
    hide PrintSequence, ReadCount, CopyMatch;
    var p, o := SequencePrinted(src, ip, q);
    var next := ip + |PrintSequence(q)|;
    calc {
      Decode(src, ip, out);
      DecodeLiterals(src, src[ip], |q.literals|, p, out);
      DecodeOffset(src, src[ip], o, out + q.literals);
      DecodeMatchLength(src, src[ip] % 16, q.offset, o + 2, out + q.literals);
      DecodeMatch(src, q.offset, q.matchLength, next, out + q.literals);
    }
  }

  lemma ObeysSequence(src: seq<byte>, ip: nat, q: Sequence, pos: nat, size: nat)
    requires Printable(q) && 1 <= q.offset <= pos + |q.literals|
    requires pos + |q.literals| + MFLIMIT <= size
    requires pos + |q.literals| + q.matchLength + LASTLITERALS <= size
    requires Has(src, ip, PrintSequence(q))
    requires Obeys(src, ip + |PrintSequence(q)|, pos + |q.literals| + q.matchLength, size)
    ensures Obeys(src, ip, pos, size)
  {
    hide PrintSequence, ReadCount, Has;
    var p, o := SequencePrinted(src, ip, q);
    var next := ip + |PrintSequence(q)|;
    var at := pos + |q.literals|;
    assert ObeysMatch(src, q.offset, q.matchLength, next, at, size);
    assert ObeysMatchLength(src, src[ip] % 16, q.offset, o + 2, at, size);
    assert ObeysOffset(src, src[ip], o, at, size);
    assert ObeysLiterals(src, src[ip], |q.literals|, p, pos, size);
  }

  // ---------------------------------------------------------------- whole blocks

  /** Position after the first `k` printed sequences. */
  lemma {:induction false} PrintAllPrefix(qs: seq<Sequence>, k: nat)
    requires k <= |qs| && forall q :: q in qs ==> Printable(q)
    ensures PrintAll(qs[..k]) <= PrintAll(qs)
    decreases |qs|
  {
    if k < |qs| {
      PrintAllPrefix(qs[..|qs| - 1], k);
      assert qs[..|qs| - 1][..k] == qs[..k];
    } else {
      assert qs[..k] == qs;
    }
  }

  lemma PrintAllHas(qs: seq<Sequence>, k: nat, tail: seq<byte>)
    requires k < |qs| && forall q :: q in qs ==> Printable(q)
    ensures Has(PrintAll(qs) + tail, |PrintAll(qs[..k])|, PrintSequence(qs[k]))
    ensures |PrintAll(qs[..k + 1])| == |PrintAll(qs[..k])| + |PrintSequence(qs[k])|
  {
    hide PrintSequence;
    PrintAllPrefix(qs, k + 1);
    assert qs[..k + 1][..k] == qs[..k];
    var a, b := |PrintAll(qs[..k])|, |PrintAll(qs[..k + 1])|;
    assert (PrintAll(qs) + tail)[a..b] == PrintAll(qs)[..b][a..];
  }

  lemma {:induction false} ExpandPrefix(qs: seq<Sequence>, k: nat)
    requires k <= |qs| && Expand(qs).Some?
    ensures Expand(qs[..k]).Some? && |Expand(qs[..k]).value| <= |Expand(qs).value|
    decreases |qs|
  {
    if k < |qs| {
      ExpandPrefix(qs[..|qs| - 1], k);
      assert qs[..|qs| - 1][..k] == qs[..k];
    } else {
      assert qs[..k] == qs;
    }
  }

  lemma {:induction false} DecodePrefix(qs: seq<Sequence>, k: nat, tail: seq<byte>)
    requires k <= |qs| && Expand(qs).Some? && forall q :: q in qs ==> Printable(q)
    ensures Expand(qs[..k]).Some? && |PrintAll(qs[..k])| <= |PrintAll(qs)|
    ensures Decode(PrintAll(qs) + tail, 0, [])
         == Decode(PrintAll(qs) + tail, |PrintAll(qs[..k])|, Expand(qs[..k]).value)
    decreases k
  {
    hide PrintSequence, Decode, CopyMatch, Has;
    ExpandPrefix(qs, k);
    PrintAllPrefix(qs, k);
    if k > 0 {
      DecodePrefix(qs, k - 1, tail);
      PrintAllHas(qs, k - 1, tail);
      assert qs[..k][..k - 1] == qs[..k - 1];
      DecodeSequence(PrintAll(qs) + tail, |PrintAll(qs[..k - 1])|, qs[k - 1], Expand(qs[..k - 1]).value);
    }
  }

  /** The round trip of the format: a printed block decodes to its meaning. */
  lemma DecodePrint(b: Block, low: nat)
    requires low <= NIBBLE_MAX && Meaning(b).Some? && forall q :: q in b.sequences ==> Printable(q)
    ensures Decode(PrintAll(b.sequences) + PrintLiterals(b.lastLiterals, low), 0, []) == Meaning(b)
  {
    hide PrintAll, ReadCount, Expand, PrintLiterals, Nibble;
    var qs, tail := b.sequences, PrintLiterals(b.lastLiterals, low);
    var src := PrintAll(qs) + tail;
    var ip := |PrintAll(qs)|;
    DecodePrefix(qs, |qs|, tail);
    assert qs[..|qs|] == qs;
    assert src[ip..ip + |tail|] == tail;
    LiteralsPrinted(src, ip, b.lastLiterals, low);
    var p := ip + 1 + |Extension(|b.lastLiterals|)|;
    assert src[p..] == b.lastLiterals;
    assert DecodeLiterals(src, src[ip], |b.lastLiterals|, p, Expand(qs).value) == Meaning(b);
  }

  lemma ConformingPrintable(b: Block)
    requires Conforming(b)
    ensures forall q :: q in b.sequences ==> Printable(q)
  {
    forall q | q in b.sequences ensures Printable(q) {
      var i :| 0 <= i < |b.sequences| && b.sequences[i] == q;
      assert ConformingAt(b.sequences, i, |Meaning(b).value|);
    }
  }

  lemma ObeysLast(src: seq<byte>, ip: nat, literals: seq<byte>, low: nat, pos: nat)
    requires low <= NIBBLE_MAX && ip <= |src| && src[ip..] == PrintLiterals(literals, low)
    ensures Obeys(src, ip, pos, pos + |literals|)
  {
    hide ReadCount, PrintLiterals, Extension, Nibble;
    assert src[ip..ip + |PrintLiterals(literals, low)|] == src[ip..];
    LiteralsPrinted(src, ip, literals, low);
    assert ObeysLiterals(src, src[ip], |literals|, ip + 1 + |Extension(|literals|)|, pos, pos + |literals|);
  }

  lemma {:induction false} ObeysSuffix(b: Block, k: nat, low: nat)
    requires Conforming(b) && k <= |b.sequences| && low <= NIBBLE_MAX
    ensures forall q :: q in b.sequences ==> Printable(q)
    ensures Expand(b.sequences[..k]).Some? && |PrintAll(b.sequences[..k])| <= |PrintAll(b.sequences)|
    ensures Obeys(PrintAll(b.sequences) + PrintLiterals(b.lastLiterals, low), |PrintAll(b.sequences[..k])|,
                  |Expand(b.sequences[..k]).value|, |Meaning(b).value|)
    decreases |b.sequences| - k
  {
    hide PrintSequence, PrintLiterals, Obeys, Has, PrintAll, CopyMatch;
    ConformingPrintable(b);
    var qs, tail, size := b.sequences, PrintLiterals(b.lastLiterals, low), |Meaning(b).value|;
    var src := PrintAll(qs) + tail;
    PrintAllPrefix(qs, k);
    ExpandPrefix(qs, k);
    var ip := |PrintAll(qs[..k])|;
    if k == |qs| {
      assert qs[..k] == qs;
      assert src[ip..] == tail;
      ObeysLast(src, ip, b.lastLiterals, low, |Expand(qs).value|);
    } else {
      ObeysSuffix(b, k + 1, low);
      PrintAllHas(qs, k, tail);
      assert ConformingAt(qs, k, size);
      assert qs[..k + 1][..k] == qs[..k];
      ObeysSequence(src, ip, qs[k], |Expand(qs[..k]).value|, size);
    }
  }

  /** A conforming block prints to bytes that obey the format, of the meaning's size. */
  lemma PrintObeys(b: Block)
    requires Conforming(b)
    ensures forall q :: q in b.sequences ==> Printable(q)
    ensures WellFormed(Print(b), |Meaning(b).value|)
    ensures Decode(Print(b), 0, []) == Meaning(b)
  {
    ObeysSuffix(b, 0, 0);
    assert b.sequences[..0] == [];
    DecodePrint(b, 0);
  }

  /** The converse of DecodePrint: what decodes is the print of a block with that meaning. */
  lemma {:induction false} DecodeParses(src: seq<byte>, ip: nat, qs: seq<Sequence>) returns (b: Block, low: nat)
    requires ip <= |src|
    requires Expand(qs).Some? && (forall q :: q in qs ==> Printable(q)) && PrintAll(qs) == src[..ip]
    requires Decode(src, ip, Expand(qs).value).Some?
    ensures forall q :: q in b.sequences ==> Printable(q)
    ensures low <= NIBBLE_MAX
    ensures src == PrintAll(b.sequences) + PrintLiterals(b.lastLiterals, low)
    ensures Meaning(b) == Decode(src, ip, Expand(qs).value)
    decreases |src| - ip
  {
    hide ReadCount, PrintSequence, PrintLiterals, Extension, CopyMatch, Nibble, Expand, PrintAll;
    var out := Expand(qs).value;
    var n := ReadCount(src, src[ip] / 16, ip + 1).value;
    var o := n.1 + n.0;
    assert DecodeLiterals(src, src[ip], n.0, n.1, out).Some?;
    var literals := src[n.1..o];
    low := src[ip] % 16;
    ParsedLiterals(src, ip);
    if o == |src| {
      b := Block(qs, literals);
      assert src == src[..ip] + src[ip..o];
      assert src[n.1..] == literals;
    } else {
      assert DecodeOffset(src, src[ip], o, out + literals).Some?;
      var offset := Word16(src[o], src[o + 1]);
      assert DecodeMatchLength(src, low, offset, o + 2, out + literals).Some?;
      var m := ReadCount(src, low, o + 2).value;
      ReadCountPrints(src, low, o + 2);
      assert DecodeMatch(src, offset, m.0 + MINMATCH, m.1, out + literals).Some?;
      var q := Sequence(literals, offset, m.0 + MINMATCH);
      ParsedSequence(src, ip, o, m.1, q);
      OneMore(qs, q);
      assert src[..m.1] == src[..ip] + src[ip..m.1];
      b, low := DecodeParses(src, m.1, qs + [q]);
    }
  }

  lemma OneMore(qs: seq<Sequence>, q: Sequence)
    requires Printable(q) && (forall x :: x in qs ==> Printable(x))
    requires Expand(qs).Some? && q.offset <= |Expand(qs).value + q.literals|
    ensures Expand(qs + [q]) == Some(CopyMatch(Expand(qs).value + q.literals, q.offset, q.matchLength))
    ensures (forall x :: x in qs + [q] ==> Printable(x)) && PrintAll(qs + [q]) == PrintAll(qs) + PrintSequence(q)
  {
    hide CopyMatch, PrintSequence;
    assert (qs + [q])[..|qs|] == qs;
  }

  lemma ParsedLiterals(src: seq<byte>, ip: nat)
    requires ip < |src| && ReadCount(src, src[ip] / 16, ip + 1).Some?
    requires var n := ReadCount(src, src[ip] / 16, ip + 1).value; n.1 + n.0 <= |src|
    ensures var n := ReadCount(src, src[ip] / 16, ip + 1).value;
            src[ip..n.1 + n.0] == PrintLiterals(src[n.1..n.1 + n.0], src[ip] % 16)
  {
    var n := ReadCount(src, src[ip] / 16, ip + 1).value;
    ReadCountPrints(src, src[ip] / 16, ip + 1);
    assert src[ip..n.1 + n.0] == [src[ip]] + src[ip + 1..n.1] + src[n.1..n.1 + n.0];
  }

  lemma ParsedSequence(src: seq<byte>, ip: nat, o: nat, next: nat, q: Sequence)
    requires ip <= o && o + 2 <= next <= |src| && Printable(q)
    requires src[ip..o] == PrintLiterals(q.literals, Nibble(q.matchLength - MINMATCH))
    requires q.offset == Word16(src[o], src[o + 1])
    requires src[o + 2..next] == Extension(q.matchLength - MINMATCH)
    ensures src[ip..next] == PrintSequence(q)
  {
    hide PrintLiterals, Extension, Nibble, LittleEndian16;
    OffsetBytes(src, o);
    ThreeParts(src, ip, o, next);
  }

  lemma OffsetBytes(src: seq<byte>, o: nat)
    requires o + 2 <= |src|
    ensures LittleEndian16(Word16(src[o], src[o + 1])) == src[o..o + 2]
  {
    assert src[o..o + 2] == [src[o], src[o + 1]];
  }

  lemma ThreeParts(src: seq<byte>, ip: nat, o: nat, next: nat)
    requires ip <= o && o + 2 <= next <= |src|
    ensures src[ip..next] == src[ip..o] + src[o..o + 2] + src[o + 2..next]
  {
  }

  /** Decoding succeeds exactly on the prints of blocks, the last token's low nibble being free. */
  lemma DecodesIffPrinted(src: seq<byte>, out: seq<byte>)
    ensures Decode(src, 0, []) == Some(out) <==>
            exists b: Block, low: nat ::
              && low <= NIBBLE_MAX
              && (forall q :: q in b.sequences ==> Printable(q))
              && src == PrintAll(b.sequences) + PrintLiterals(b.lastLiterals, low)
              && Meaning(b) == Some(out)
  {
    if Decode(src, 0, []) == Some(out) {
      var b, low := DecodeParses(src, 0, []);
    }
    forall b: Block, low: nat |
      && low <= NIBBLE_MAX
      && (forall q :: q in b.sequences ==> Printable(q))
      && src == PrintAll(b.sequences) + PrintLiterals(b.lastLiterals, low)
      && Meaning(b) == Some(out)
      ensures Decode(src, 0, []) == Some(out)
    {
      DecodePrint(b, low);
    }
  }
}
