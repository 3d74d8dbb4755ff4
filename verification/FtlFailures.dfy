/**
 * Where the translation layer falls short, from fresh controllers and through the host's
 * operations: blocks of a mid size, and siblings on a page that has gone stale.
 */
module FtlFailures {
  import opened Bytes
  import opened FlashModel
  import opened Lz4Compressor
  import opened Lz4Greedy
  import opened Lz4Periodic
  import Lz4Search
  import opened FtlState
  import opened FtlSteps
  import opened FtlMachine
  import opened FtlController
  import FtlHost
  import Lz4Encoder

  // ---------------------------------------------------------------- mid sizes

  /**
   * A block reads back as written exactly if LZ4 leaves a size outside 2049..3071, or the
   * compressed bytes happen to be the block.
   */
  method WriteThenRead(ftl: FTLController, lba: nat, src: seq<byte>)
    returns (ok: bool, read: seq<byte>, ghost c: CompressedBlock)
    requires ftl.Valid() && lba < ftl.lbas && |src| == PAGE_SIZE
    modifies ftl, ftl.flash
    ensures ftl.Valid() && FormOf(c, src) && Handed(c) && ftl.State() == Written(old(ftl.State()), ftl.Geo(), lba, c)
    ensures AllFoundBlank(ftl.State()) ==> ok && (read == src <==> !MidSize(c) || c.data == src)
    ensures AllFoundBlank(ftl.State()) && MidSize(c) ==> read == c.data
  {
    hide FTLController.Structure, FTLController.Good, FTLController.Early, Represents, Written,
      Lz4Encoder.GreedyBlock, TooLarge, FoundBlank;
    ftl.TraceMeans();
    var stored;
    stored, c := ftl.WriteBlock(lba, src);
    ftl.TraceMeans();
    var dest := new byte[PAGE_SIZE](_ => 0);
    ok := ftl.ReadBlock(lba, dest);
    read := dest[..];
  }

  /** The mid sizes: too large for half a page, and still kept compressed. */
  lemma MidSizes(c: CompressedBlock, src: seq<byte>)
    requires FormOf(c, src)
    ensures MidSize(c) <==> 2049 <= c.compressedSize <= 3071
    ensures FitsHalf(c) <==> 1 <= c.compressedSize <= 2048
  {
    hide Represents, Lz4Encoder.GreedyBlock, TooLarge;
  }

  /** The first write of a fresh controller comes before any collection. */
  lemma FirstWrite(g: Geometry, lba: nat, c: CompressedBlock)
    requires Handed(c) && g.pagesPerBlock >= 1
    ensures AllFoundBlank(Written(Fresh(g), g, lba, c))
  {
    hide Written;
    var s := Written(Fresh(g), g, lba, c);
    WrittenUsed(Fresh(g), g, lba, c);
    assert |s.collections| > 0 ==> |s.collections| * g.pagesPerBlock >= g.pagesPerBlock;
  }

  /**
   * Every block of 2049 to 2700 bytes without repetitions and then a run is written to a
   * fresh controller, of any geometry, without complaint, and reads back as something else.
   */
  method MidSizeReadsWrong(capacity: nat, totalBlocks: nat, pagesPerBlock: nat, lba: nat, src: seq<byte>, ghost n: nat)
    returns (ok: bool, read: seq<byte>)
    requires totalBlocks >= 2 && pagesPerBlock >= 1 && lba < (capacity + PAGE_SIZE - 1) / PAGE_SIZE
    requires |src| == PAGE_SIZE && 2049 <= n <= 2700 && Tailed(src, n) && src != ZeroBlock() && src[0] < 240
    ensures ok && read != src
  {
    hide FTLController.Valid, Tailed, FormOf, Written;
    var ftl := new FTLController(capacity, totalBlocks, pagesPerBlock);
    ghost var c;
    ok, read, c := WriteThenRead(ftl, lba, src);
    FirstWrite(ftl.Geo(), lba, c);
    TailedForm(c, src, n);
  }

  /** There is such a block: a counter of two digits up to 1049, and a run. */
  method MidSizeWitness(capacity: nat, totalBlocks: nat, pagesPerBlock: nat, lba: nat)
    returns (src: seq<byte>, ok: bool, read: seq<byte>)
    requires totalBlocks >= 2 && pagesPerBlock >= 1 && lba < (capacity + PAGE_SIZE - 1) / PAGE_SIZE
    ensures src == CounterBlock(2100) && ok && read != src
  {
    src := CounterBlock(2100);
    CounterTailed(2100);
    ok, read := MidSizeReadsWrong(capacity, totalBlocks, pagesPerBlock, lba, src, 2100);
  }

  /**
   * Such a block outside the mid sizes reads back as written: short enough for half a page,
   * or so long that it is kept raw.
   */
  method OtherSizesReadRight(capacity: nat, totalBlocks: nat, pagesPerBlock: nat, lba: nat, src: seq<byte>,
                             ghost n: nat)
    returns (ok: bool, read: seq<byte>, ghost c: CompressedBlock)
    requires totalBlocks >= 2 && pagesPerBlock >= 1 && lba < (capacity + PAGE_SIZE - 1) / PAGE_SIZE
    requires |src| == PAGE_SIZE && Tailed(src, n) && src != ZeroBlock() && (n <= 1840 || 3072 <= n <= 3800)
    ensures ok && read == src && FormOf(c, src)
    ensures if n <= 1840 then FitsHalf(c) else c.slot == Full4KB && c.data == src
  {
    hide FTLController.Valid, Tailed, FormOf, Written;
    var ftl := new FTLController(capacity, totalBlocks, pagesPerBlock);
    ok, read, c := WriteThenRead(ftl, lba, src);
    FirstWrite(ftl.Geo(), lba, c);
    KeptBelow(c, src);
    if n <= 1840 {
      TailedForm(c, src, n);
    } else {
      TailedRaw(c, src, n);
    }
  }

  /** A page of records takes half a page of flash at most, and reads back as written. */
  method RecordsReadRight(capacity: nat, totalBlocks: nat, pagesPerBlock: nat, lba: nat, src: seq<byte>, ghost d: nat)
    returns (ok: bool, read: seq<byte>, ghost c: CompressedBlock)
    requires totalBlocks >= 2 && pagesPerBlock >= 1 && lba < (capacity + PAGE_SIZE - 1) / PAGE_SIZE
    requires |src| == PAGE_SIZE && src != ZeroBlock() && Periodic(src, d) && KeepsApart(HASH, src)
    requires Lz4Search.Probe(1, 1, d) <= 1900
    ensures ok && read == src && FormOf(c, src) && FitsHalf(c)
  {
    hide FTLController.Valid, Periodic, KeepsApart, FormOf, Written, Lz4Search.Probe;
    var ftl := new FTLController(capacity, totalBlocks, pagesPerBlock);
    ok, read, c := WriteThenRead(ftl, lba, src);
    FirstWrite(ftl.Geo(), lba, c);
    ghost var l := PeriodicForm(c, src, d);
  }

  /** A counter up to 1599 and a run: LZ4 makes more than 3072 bytes of it, and it is kept raw. */
  method LargeWitness(capacity: nat, totalBlocks: nat, pagesPerBlock: nat, lba: nat)
    returns (src: seq<byte>, ok: bool, read: seq<byte>)
    requires totalBlocks >= 2 && pagesPerBlock >= 1 && lba < (capacity + PAGE_SIZE - 1) / PAGE_SIZE
    ensures src == CounterBlock(3200) && ok && read == src
  {
    src := CounterBlock(3200);
    CounterTailed(3200);
    ghost var c;
    ok, read, c := OtherSizesReadRight(capacity, totalBlocks, pagesPerBlock, lba, src, 3200);
  }

  // ---------------------------------------------------------------- siblings

  /**
   * A collection with a blank reserve, and then a read. Of the blocks that were stored
   * before it, exactly those on stale pages of the victim are refused (if they were kept
   * as half pages; a whole page would read as erased), and all others read as before.
   */
  method CollectThenRead(ftl: FTLController, i: nat, dest: array<byte>) returns (ok: bool)
    requires ftl.Valid() && ftl.activePageIdx == ftl.flash.pagesPerBlock && AllFoundBlank(ftl.State())
    requires BlankFrom(ftl.Snap(), ftl.reserveBlockIdx, 0)
    requires i < |ftl.lbaTable| == ftl.lbas && i !in ftl.lost && dest.Length == PAGE_SIZE
    modifies ftl, ftl.flash, dest
    ensures ftl.Valid() && ftl.contents == old(ftl.contents)
    ensures i !in old(GivenUp(ftl.State())) ==> ok && dest[..] == ftl.contents[i]
    ensures i in old(GivenUp(ftl.State())) ==>
              if old(ftl.lbaTable[i].state) == CompressedHalfPage then !ok else ok && dest[..] == Fill(0xFF, PAGE_SIZE)
  {
    hide FTLController.Early, FTLController.Good, GivenUp, Shaped, Collected, Represents;
    ghost var s, g := ftl.State(), ftl.Geo();
    CollectedMeans(s, g);
    ghost var gone := ftl.RunGarbageCollectionIfNeeded({});
    ftl.TraceMeans();
    if i in GivenUp(s) {
      StaleIsLive(s, i);
      FTLController.EntryBound(ftl.Snap(), g, i);
      FTLController.PageSizes(ftl.Snap(), g, ftl.lbaTable[i].blockIdx);
      assert i in gone;
    }
    ok := ftl.ReadBlock(i, dest);
  }

  lemma CollectedMeans(s: Machine, g: Geometry)
    requires s.page == g.pagesPerBlock && AllFoundBlank(s)
    requires BlankFrom(s.t, s.reserve, 0)
    ensures AllFoundBlank(Collected(s, g)) && Collected(s, g).lost == s.lost + GivenUp(s)
    ensures Collected(s, g).t.staged == s.t.staged
  {
    hide FoundBlank, StaleLive, Migrated, Victim;
    var c := Collection(s.t, s.reserve, s.lost);
    assert FoundBlank(c) by { BlankMeans(c); }
    MigratedStaged(s.t, Victim(c).0, 0, g.pagesPerBlock, s.reserve, 0);
  }

  lemma BlankMeans(c: Collection)
    ensures FoundBlank(c) <==> BlankFrom(c.t, c.reserve, 0)
  {
  }

  lemma StaleIsLive(s: Machine, i: nat)
    requires i in GivenUp(s)
    ensures i < |s.t.table| && Mapped(s.t.table[i]) && !IsStaged(s.t, i) && i !in s.lost
  {
    hide Victim;
  }

  // ---------------------------------------------------------------- a run that loses a block

  /** A machine with two pages to a block that has written to block 0 only, and has not collected yet. */
  ghost predicate OnBlockZero(s: Machine, g: Geometry) {
    && g.totalBlocks >= 2 && g.pagesPerBlock == 2 && g.lbas >= 4
    && |s.t.table| == g.lbas && |s.t.blocks| == |s.t.owners| == g.totalBlocks
    && s.active == 0 && s.reserve == 1 && s.page <= 2 && s.lost == {} && s.collections == []
    && |s.t.blocks[0].pages| == |s.t.blocks[0].pageValid| == |s.t.owners[0]| == 2
    && (forall b :: 1 <= b < g.totalBlocks ==> s.t.blocks[b] == BlankBlock(2))
    && |s.t.owners[1]| == 2
  }

  /** Handed over compressed, to half a page at most. */
  predicate IsHalf(c: CompressedBlock) {
    Handed(c) && !c.isZeroBlock && c.compressedSize <= HALF_PAGE
  }

  lemma FreshOnBlockZero(g: Geometry)
    requires g.totalBlocks >= 2 && g.pagesPerBlock == 2 && g.lbas >= 4
    ensures var s := Fresh(g);
            && OnBlockZero(s, g) && s.t.staged.None? && s.page == 0 && s.t.blocks[0] == BlankBlock(2)
            && s.t.owners[0] == [[], []]
            && forall i :: 0 <= i < g.lbas ==> !Mapped(s.t.table[i])
  {
    var none: seq<PageOwner> := [];
    assert Fresh(g).t.owners[0] == [none, none];
  }

  /** The first half of a pair waits. */
  lemma Stages(s: Machine, g: Geometry, lba: nat, c: CompressedBlock)
    requires OnBlockZero(s, g) && s.t.staged.None? && lba < g.lbas && !Mapped(s.t.table[lba]) && IsHalf(c)
    ensures var r := Written(s, g, lba, c);
            && r == s.(t := s.t.(staged := r.t.staged))
            && r.t.staged.Some? && r.t.staged.value.lba == lba && r.t.staged.value.compSize == c.compressedSize
  {
    hide HalfPage, Collected;
    assert s.lost + {lba} - {lba} == s.lost;
  }

  /** The second half is packed with it, on the next page of block 0. */
  lemma Packs(s: Machine, g: Geometry, lba: nat, c: CompressedBlock)
    requires OnBlockZero(s, g) && s.t.staged.Some? && lba < g.lbas && !Mapped(s.t.table[lba]) && IsHalf(c)
    requires var h := s.t.staged.value; h.lba < g.lbas && h.lba != lba
    requires s.page < 2 && !s.t.blocks[0].pages[s.page].isProgrammed
    ensures var r, h, p := Written(s, g, lba, c), s.t.staged.value, s.page;
            && r.t.staged.None? && r.page == p + 1
            && r.active == s.active && r.reserve == s.reserve && r.lost == {} && r.collections == []
            && r.t.table == s.t.table[h.lba := MappingEntry(CompressedHalfPage, 0, p, 0, h.compSize)]
                                     [lba := MappingEntry(CompressedHalfPage, 0, p, 1, c.compressedSize)]
            && r.t.owners
               == s.t.owners[0 := s.t.owners[0][p := s.t.owners[0][p] + [PageOwner(h.lba, 0)] + [PageOwner(lba, 1)]]]
            && (exists data :: r.t.blocks == s.t.blocks[0 := Programmed(s.t.blocks[0], p, data)])
  {
    hide HalfPage, ScanVictim, Migrated;
    var h, p := s.t.staged.value, s.page;
    var d := Begun(s, lba);
    var data := h.data + HalfPage(c);
    assert d.t == s.t;
    assert {lba} - {h.lba} == {lba} && {lba} - {lba} == {};
    var m := ProgrammedNext(d, g, data);
    assert m == d.(t := WithPage(d.t, 0, p, data));
    var list := s.t.owners[0][p];
    var r := Written(s, g, lba, c);
    assert r.t.owners[0][p] == list + [PageOwner(h.lba, 0)] + [PageOwner(lba, 1)];
    assert r.t.owners[0] == s.t.owners[0][p := list + [PageOwner(h.lba, 0)] + [PageOwner(lba, 1)]];
    assert r.t.blocks == s.t.blocks[0 := Programmed(s.t.blocks[0], p, data)];
  }

  /** Overwriting a block of the second page makes that page stale. */
  lemma Overwrites(s: Machine, g: Geometry, lba: nat, c: CompressedBlock)
    requires OnBlockZero(s, g) && s.t.staged.None? && lba < g.lbas && IsHalf(c)
    requires PointsAt(s.t.table[lba], 0, 1) && s.t.blocks[0].pageValid[1]
    ensures var r := Written(s, g, lba, c);
            && r == s.(t := s.t.(blocks := s.t.blocks[0 := Invalidated(s.t.blocks[0], 1)], staged := r.t.staged))
            && r.t.staged.Some? && r.t.staged.value.lba == lba
  {
    hide HalfPage, Collected;
    assert s.lost + {lba} - {lba} == s.lost;
  }

  /** Both pages of block 0 are full, the second one is stale, and block 3 is on it. */
  ghost predicate Doomed(s: Machine, g: Geometry) {
    && OnBlockZero(s, g) && s.page == 2 && s.t.staged.Some? && s.t.staged.value.lba == 2
    && s.t.blocks[0].pageValid == [true, false] && s.t.blocks[0].invalidPageCount == 1
    && s.t.owners[0][0] == [PageOwner(0, 0), PageOwner(1, 1)]
    && s.t.table[3].state == CompressedHalfPage && PointsAt(s.t.table[3], 0, 1)
  }

  lemma MigratedDoomed(s: Machine, g: Geometry)
    requires Doomed(s, g)
    ensures var t := Migrated(s.t, 0, 0, 2, 1, 0);
            |t.table| == |s.t.table| && t.table[3] == s.t.table[3] && |t.blocks| == |t.owners| == g.totalBlocks
              && t.staged == s.t.staged
  {
    var t1 := PageMoved(s.t, 0, 0, 1, 0);
    RepointTwo(s.t.table, s.t.owners[0][0], 1, 0);
    assert !t1.blocks[0].pageValid[1];
    var t2 := OwnersCleared(t1, 0, 1);
    assert Migrated(t2, 0, 2, 2, 1, 1) == t2;
    assert Migrated(t1, 0, 1, 2, 1, 1) == t2;
    assert Migrated(s.t, 0, 0, 2, 1, 0) == t2;
  }

  lemma RepointTwo(table: seq<MappingEntry>, list: seq<PageOwner>, b: nat, p: nat)
    requires list == [PageOwner(0, 0), PageOwner(1, 1)] && |table| > 3
    ensures Repoint(table, list, b, p)[3] == table[3]
  {
    RepointIsRepointed(table, list, b, p);
    assert !Owns(list, 3);
  }

  /** The flush collects block 0, and fills its first page; block 3 points at the second one. */
  lemma FlushLoses(s: Machine, g: Geometry)
    requires Doomed(s, g)
    ensures var r := Flushed(s, g);
            && r.t.staged.None? && |r.t.table| == g.lbas && r.t.table[3] == s.t.table[3]
            && |r.t.blocks| > 0 && |r.t.blocks[0].pages| == 2 && !r.t.blocks[0].pages[1].isProgrammed
  {
    hide Migrated, ScanVictim, StaleLive, NextIndex;
    BlockZeroFirst(s.t.blocks, 1, |s.t.blocks|);
    MigratedDoomed(s, g);
    var c := Collected(s, g);
    assert c.t == Wiped(Migrated(s.t, 0, 0, 2, 1, 0), 0, 2) && c.active == 0 && c.page == 0;
    assert c.t.blocks[0] == Erased(c.t.blocks[0].(eraseCount := 0), 2).(eraseCount := c.t.blocks[0].eraseCount);
  }

  // ---------------------------------------------------------------- the run itself

  /** A block that LZ4 brings to half a page: a few different bytes, and a run. */
  ghost predicate Compressible(src: seq<byte>) {
    |src| == PAGE_SIZE && src != ZeroBlock() && exists n: nat :: n <= 1800 && Tailed(src, n)
  }

  lemma CompressibleHalf(c: CompressedBlock, src: seq<byte>)
    requires Compressible(src) && FormOf(c, src) && Handed(c)
    ensures IsHalf(c)
  {
    hide FormOf, Tailed;
    var n: nat :| n <= 1800 && Tailed(src, n);
    TailedForm(c, src, n);
  }

  lemma ConstantCompressible(b: byte)
    requires b > 0
    ensures Compressible(Fill(b, PAGE_SIZE))
  {
    hide Tailed;
    ConstantTailed(b);
  }

  method WriteHalf(ftl: FTLController, lba: nat, src: seq<byte>) returns (ghost c: CompressedBlock)
    requires ftl.Valid() && lba < ftl.lbas && Compressible(src)
    modifies ftl, ftl.flash
    ensures ftl.Valid() && IsHalf(c) && ftl.State() == Written(old(ftl.State()), ftl.Geo(), lba, c)
    ensures ftl.contents == old(ftl.contents)[lba := src]
  {
    hide FTLController.Valid, FormOf, Written, Compressible;
    assert |src| == PAGE_SIZE by { CompressibleSize(src); }
    var ok;
    ok, c := ftl.WriteBlock(lba, src);
    CompressibleHalf(c, src);
    assert Stored(c, src) == src;
  }

  lemma CompressibleSize(src: seq<byte>)
    requires Compressible(src)
    ensures |src| == PAGE_SIZE
  {
  }

  /**
   * Four compressible blocks are written to a fresh controller with two pages to a block,
   * and fill the first flash block; then block 2 is overwritten and the device flushed.
   * Block 3, which shared a page with the old block 2, cannot be read any more.
   */
  method SiblingLost(capacity: nat, totalBlocks: nat, b: seq<seq<byte>>) returns (ok: bool, ftl: FTLController)
    requires totalBlocks >= 2 && capacity >= 4 * PAGE_SIZE && |b| == 5 && forall k :: 0 <= k < 5 ==> Compressible(b[k])
    ensures fresh(ftl) && fresh(ftl.flash) && ftl.Valid() && 3 < |ftl.contents| && ftl.contents[3] == b[3]
    ensures !ok
  {
    hide FTLController.Valid, Written, Flushed, Compressible, Fresh;
    ftl := new FTLController(capacity, totalBlocks, 2);
    ghost var g := ftl.Geo();
    ghost var c0 := WriteHalf(ftl, 0, b[0]);
    ghost var c1 := WriteHalf(ftl, 1, b[1]);
    ghost var c2 := WriteHalf(ftl, 2, b[2]);
    ghost var c3 := WriteHalf(ftl, 3, b[3]);
    ghost var c4 := WriteHalf(ftl, 2, b[4]);
    ftl.TraceMeans();
    ComesToDoomed(g, c0, c1, c2, c3, c4);
    FlushLoses(ftl.State(), g);
    FtlHost.FlushAll(ftl);
    var dest := new byte[PAGE_SIZE](_ => 0);
    ok := ftl.ReadBlock(3, dest);
  }

  lemma ComesToDoomed(g: Geometry, c0: CompressedBlock, c1: CompressedBlock, c2: CompressedBlock,
                      c3: CompressedBlock, c4: CompressedBlock)
    requires g.totalBlocks >= 2 && g.pagesPerBlock == 2 && g.lbas >= 4
    requires IsHalf(c0) && IsHalf(c1) && IsHalf(c2) && IsHalf(c3) && IsHalf(c4)
    ensures var s3 := Written(Written(Written(Fresh(g), g, 0, c0), g, 1, c1), g, 2, c2);
            Doomed(Written(Written(s3, g, 3, c3), g, 2, c4), g)
  {
    hide Written, Fresh;
    FreshOnBlockZero(g);
    var s0 := Fresh(g);
    var s1 := Written(s0, g, 0, c0);
    Stages(s0, g, 0, c0);
    var s2 := Written(s1, g, 1, c1);
    Packs(s1, g, 1, c1);
    var s3 := Written(s2, g, 2, c2);
    Stages(s2, g, 2, c2);
    var s4 := Written(s3, g, 3, c3);
    Packs(s3, g, 3, c3);
    Overwrites(s4, g, 2, c4);
  }

  /** For instance with five blocks of one byte value each. */
  method SiblingWitness(capacity: nat, totalBlocks: nat) returns (ok: bool)
    requires totalBlocks >= 2 && capacity >= 4 * PAGE_SIZE
    ensures !ok
  {
    hide Compressible;
    var b := seq(5, k requires 0 <= k < 5 => Fill((k + 1) as byte, PAGE_SIZE));
    forall k | 0 <= k < 5 ensures Compressible(b[k]) {
      ConstantCompressible((k + 1) as byte);
    }
    var ftl;
    ok, ftl := SiblingLost(capacity, totalBlocks, b);
  }
}
