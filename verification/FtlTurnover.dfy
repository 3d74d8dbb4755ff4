/**
 * What follows the last blank page. A controller on which as many blocks were written as
 * there are pages has no blank reserve block any more, and the next overwrite is dropped:
 * runs from fresh controllers of any geometry, through the host's operations.
 */
module FtlTurnover {
  import opened Bytes
  import opened FlashModel
  import opened Lz4Encoder
  import opened Lz4Compressor
  import opened Lz4Greedy
  import opened FtlState
  import opened FtlSteps
  import opened FtlMachine
  import opened FtlController

  // ---------------------------------------------------------------- writes of whole pages

  /** The block is kept as it is, on a page of its own. */
  predicate IsRaw(c: CompressedBlock) {
    Handed(c) && !c.isZeroBlock && c.compressedSize > HALF_PAGE
  }

  /** Such a write, with nothing staged. */
  lemma RawWritten(s: Machine, g: Geometry, lba: nat, c: CompressedBlock)
    requires lba < |s.t.table| && IsRaw(c) && s.t.staged.None?
    ensures Written(s, g, lba, c)
         == Advanced(Mapping(ProgrammedNext(Begun(s, lba), g, c.data), lba, RawFullPage, 0, c.compressedSize))
  {
    hide Collected;
  }

  /** A block of which no four bytes occur twice is such a block. */
  method WriteRaw(ftl: FTLController, lba: nat, src: seq<byte>) returns (ghost c: CompressedBlock)
    requires ftl.Valid() && lba < ftl.lbas && |src| == PAGE_SIZE && NoneRecurs(src)
    modifies ftl, ftl.flash
    ensures ftl.Valid() && IsRaw(c) && c.data == src
    ensures ftl.State() == Written(old(ftl.State()), ftl.Geo(), lba, c) && ftl.contents == old(ftl.contents)[lba := src]
  {
    hide FTLController.Valid, FormOf, Written, NoneRecurs;
    var ok;
    ok, c := ftl.WriteBlock(lba, src);
    NoneRecursRaw(c, src);
  }

  /** A page that holds a whole block is read as it is, whatever happened before. */
  method ReadWhole(ftl: FTLController, lba: nat) returns (ok: bool, read: seq<byte>)
    requires ftl.Valid() && lba < ftl.lbas && ftl.State().t.staged.None?
    requires lba < |ftl.State().t.table|
    requires OnPage(ftl.State().t, lba, ftl.lbaTable[lba].blockIdx, ftl.lbaTable[lba].pageIdx)
    modifies ftl, ftl.flash
    ensures ftl.Valid() && ftl.State() == old(ftl.State()) && ftl.contents == old(ftl.contents) && ok
    ensures read == old(ftl.flash.blocks[ftl.lbaTable[lba].blockIdx].pages[ftl.lbaTable[lba].pageIdx].data)
  {
    hide FTLController.Structure, FTLController.Good, FTLController.Early;
    var dest := new byte[PAGE_SIZE](_ => 0);
    ok := ftl.ReadBlock(lba, dest);
    read := dest[..];
  }

  /** Block `i` is kept whole, on page `p` of block `b`. */
  predicate OnPage(t: Tables, i: nat, b: nat, p: nat) {
    && i < |t.table| && t.table[i].state == RawFullPage && PointsAt(t.table[i], b, p)
    && b < |t.blocks| && p < |t.blocks[b].pages| && t.blocks[b].pages[p].isProgrammed
  }

  lemma ShapedAlways(ftl: FTLController)
    requires ftl.Valid()
    ensures Shaped(ftl.State().t, ftl.Geo())
  {
    hide FTLController.Good, FTLController.Early;
  }

  // ---------------------------------------------------------------- a device filled once

  /**
   * The first `n` logical blocks have been written once, each on a page of its own, and page
   * after page; block 0 with the bytes `first`.
   */
  ghost predicate Filling(s: Machine, g: Geometry, n: nat, first: seq<byte>) {
    && s.t.staged.None? && s.active < g.totalBlocks && s.page <= g.pagesPerBlock
    && n == s.active * g.pagesPerBlock + s.page
    && s.reserve == (if s.active + 1 < g.totalBlocks then s.active + 1 else 0)
    && (forall i :: n <= i < |s.t.table| ==> !Mapped(s.t.table[i]))
    && (forall b :: 0 <= b < |s.t.blocks| ==> s.t.blocks[b].invalidPageCount == 0)
    && (forall b :: s.active < b < |s.t.blocks| ==> BlankFrom(s.t, b, 0))
    && BlankFrom(s.t, s.active, s.page)
    && (n > 0 ==> OnPage(s.t, 0, 0, 0) && s.t.blocks[0].pages[0].data == first)
    && (n > 0 ==> PageIsValid(s.t, 0, 0))
  }

  lemma FreshFilling(g: Geometry, first: seq<byte>)
    requires g.totalBlocks >= 2
    ensures Filling(Fresh(g), g, 0, first)
  {
  }

  /** There is room for one page more. */
  lemma RoomAhead(a: nat, p: nat, total: nat, n: nat)
    requires a < total && p <= n && 1 <= n && a * n + p < total * n
    ensures p == n ==> a + 1 < total && a * n + p == (a + 1) * n
  {
  }

  lemma FillNext(s: Machine, g: Geometry, n: nat, first: seq<byte>)
    requires Shaped(s.t, g) && Filling(s, g, n, first) && n < g.totalBlocks * g.pagesPerBlock
    ensures var r := Collected(s, g);
            Filling(r, g, n, first) && r.page < g.pagesPerBlock && r.t == s.t
  {
    hide ScanVictim, Migrated, Shaped, NextReserve, StaleLive;
    FTLController.BlockCount(s.t, g);
    if s.page == g.pagesPerBlock {
      RoomAhead(s.active, s.page, g.totalBlocks, g.pagesPerBlock);
      NothingStale(s.t.blocks, s.reserve, |s.t.blocks|);
    }
  }

  lemma FillPage(s: Machine, g: Geometry, n: nat, first: seq<byte>, data: seq<byte>, size: nat)
    requires Shaped(s.t, g) && Filling(s, g, n, first) && s.page < g.pagesPerBlock && n < g.lbas
    requires n == 0 ==> data == first
    ensures var m := s.(t := WithPageIfBlank(s.t, s.active, s.page, data));
            Filling(Advanced(Mapping(m, n, RawFullPage, 0, size)), g, n + 1, first)
  {
    hide Shaped;
    FTLController.BlockCount(s.t, g);
    FTLController.PageSizes(s.t, g, s.active);
    var r := Advanced(Mapping(s.(t := WithPageIfBlank(s.t, s.active, s.page, data)), n, RawFullPage, 0, size));
    var blk := s.t.blocks[s.active];
    assert r.t.blocks == s.t.blocks[s.active := Programmed(blk, s.page, data)];
    FirstPage(s.active, s.page, g.pagesPerBlock);
    forall b | s.active < b < |r.t.blocks| ensures BlankFrom(r.t, b, 0) {
      assert BlankFrom(s.t, b, 0);
    }
  }

  lemma FirstPage(a: nat, p: nat, n: nat)
    requires n >= 1
    ensures a * n + p == 0 ==> a == 0 && p == 0
  {
    if a > 0 {
      Times(a, 1, n);
    }
  }

  lemma Times(k: nat, m: nat, n: nat)
    requires k >= m
    ensures k * n >= m * n
  {
  }

  lemma FillOne(s: Machine, g: Geometry, n: nat, first: seq<byte>, c: CompressedBlock)
    requires Shaped(s.t, g) && Filling(s, g, n, first) && n < g.totalBlocks * g.pagesPerBlock && n < g.lbas
    requires IsRaw(c) && (n == 0 ==> c.data == first)
    ensures Filling(Written(s, g, n, c), g, n + 1, first)
  {
    hide Shaped, Filling, Collected, Written, IsRaw;
    FTLController.BlockCount(s.t, g);
    assert s.t.staged.None? && !Mapped(s.t.table[n]) by { NotYet(s, g, n, first); }
    RawWritten(s, g, n, c);
    var d := Begun(s, n);
    assert d.t == s.t;
    assert Filling(d, g, n, first) by { FillingAnyLost(s, d, g, n, first); }
    FillNext(d, g, n, first);
    FillPage(Collected(d, g), g, n, first, c.data, c.compressedSize);
  }

  lemma NotYet(s: Machine, g: Geometry, n: nat, first: seq<byte>)
    requires Filling(s, g, n, first) && n < |s.t.table|
    ensures s.t.staged.None? && !Mapped(s.t.table[n])
  {
  }

  lemma FillingAnyLost(s: Machine, d: Machine, g: Geometry, n: nat, first: seq<byte>)
    requires Filling(s, g, n, first) && d == s.(lost := d.lost)
    ensures Filling(d, g, n, first)
  {
  }

  /** When all pages are filled, an overwrite of block 0 goes to its own old page, and is dropped. */
  lemma OverwriteDropped(s: Machine, g: Geometry, first: seq<byte>, c: CompressedBlock)
    requires Shaped(s.t, g) && Filling(s, g, g.totalBlocks * g.pagesPerBlock, first) && g.lbas > 0 && IsRaw(c)
    ensures var r := Written(s, g, 0, c);
            r.t.staged.None? && OnPage(r.t, 0, 0, 0) && r.t.blocks[0].pages[0].data == first
  {
    hide Shaped, ScanVictim, Migrated, IsRaw, StaleLive, Written;
    FTLController.BlockCount(s.t, g);
    FTLController.PageSizes(s.t, g, 0);
    RawWritten(s, g, 0, c);
    AllFilled(s.active, s.page, g.totalBlocks, g.pagesPerBlock);
    var d := Begun(s, 0);
    NothingStale(d.t.blocks, 0, |d.t.blocks|);
  }

  lemma AllFilled(a: nat, p: nat, total: nat, n: nat)
    requires a < total && p <= n && 1 <= n && a * n + p == total * n
    ensures p == n && a + 1 == total
  {
    if a + 1 < total {
      Times(total - a, 2, n);
    }
  }

  /**
   * Every page of a fresh controller is filled once, with blocks that are kept as they are;
   * then block 0 is written again. The write is accepted, and block 0 is read as it was
   * first written. All geometries; `b` are the blocks written, one for each page.
   */
  method FillAndOverwrite(capacity: nat, totalBlocks: nat, pagesPerBlock: nat, b: seq<seq<byte>>, again: seq<byte>)
    returns (ok: bool, read: seq<byte>, ftl: FTLController)
    requires totalBlocks >= 2 && pagesPerBlock >= 1 && |b| == totalBlocks * pagesPerBlock > 0
    requires (capacity + PAGE_SIZE - 1) / PAGE_SIZE >= |b|
    requires forall k :: 0 <= k < |b| ==> |b[k]| == PAGE_SIZE && NoneRecurs(b[k])
    requires |again| == PAGE_SIZE && NoneRecurs(again)
    ensures fresh(ftl) && fresh(ftl.flash) && ftl.Valid() && |ftl.contents| > 0 && ftl.contents[0] == again
    ensures ok && read == b[0]
  {
    hide FTLController.Valid, Written, NoneRecurs, Filling, Fresh, IsRaw;
    ftl := new FTLController(capacity, totalBlocks, pagesPerBlock);
    ghost var g := ftl.Geo();
    FreshFilling(g, b[0]);
    ghost var c, s;
    for n := 0 to |b|
      invariant fresh(ftl) && fresh(ftl.flash) && ftl.Valid() && ftl.Geo() == g
      invariant Filling(ftl.State(), g, n, b[0])
    {
      ShapedAlways(ftl);
      s := ftl.State();
      c := WriteRaw(ftl, n, b[n]);
      FillOne(s, g, n, b[0], c);
    }
    ShapedAlways(ftl);
    ftl.TraceMeans();
    s := ftl.State();
    c := WriteRaw(ftl, 0, again);
    OverwriteDropped(s, g, b[0], c);
    ok, read := ReadWhole(ftl, 0);
  }

  // ---------------------------------------------------------------- two blocks written in turn

  /**
   * Two blocks have been written in turn, `n` times in all, block `last` at last. After `k`
   * collections block 0 is in use up to its page `page`; the two blocks are on the pages
   * before that, or on the first page of block `k`. The blocks from 1 to `k` have one page
   * each, which the collections filled, block 1 with the bytes `early`.
   */
  ghost predicate Turning(s: Machine, g: Geometry, n: nat, k: nat, last: nat, early: seq<byte>) {
    && s.t.staged.None? && s.active == 0 && 1 <= s.page <= g.pagesPerBlock && n == k * g.pagesPerBlock + s.page
    && k < g.totalBlocks && s.reserve == (if k + 1 < g.totalBlocks then k + 1 else 1) && last <= 1
    && InUse(s.t, k, s.page) && Latest(s.t, last, s.page - 1) && Before(s.t, 1 - last, s.page, k)
    && (k >= 1 ==> PageIs(s.t, 1, 0, early)) && (n == g.pagesPerBlock ==> PageIs(s.t, 0, g.pagesPerBlock - 1, early))
  }

  ghost predicate PageIs(t: Tables, b: nat, p: nat, data: seq<byte>) {
    PageIsProgrammed(t, b, p) && t.blocks[b].pages[p].data == data
  }

  /** Which pages are blank, valid and stale. */
  ghost predicate InUse(t: Tables, k: nat, page: nat) {
    && |t.blocks| > 0 && BlankFrom(t, 0, page) && Flagged(t.blocks[0], page)
    && (forall b :: 1 <= b < |t.blocks| ==> Spare(t, b, k))
    && (k >= 1 && page == 1 && k < |t.blocks| ==> t.blocks[k].invalidPageCount == 0)
  }

  /** At most the first page has been filled, and that only up to block `k`. */
  ghost predicate Spare(t: Tables, b: nat, k: nat) {
    BlankFrom(t, b, if b <= k then 1 else 0) && t.blocks[b].invalidPageCount <= 1
  }

  /** The last two pages before `page` are valid. */
  predicate Flagged(blk: FlashBlock, page: nat) {
    && blk.invalidPageCount == (if page >= 2 then page - 2 else 0)
    && forall p :: 0 <= p < |blk.pageValid| ==> (blk.pageValid[p] <==> p < page <= p + 2)
  }

  /** Block `i` is on page `p` of block 0 alone, and nothing is on the pages after that. */
  ghost predicate Latest(t: Tables, i: nat, p: nat) {
    && OnPage(t, i, 0, p) && |t.owners| > 0 && p < |t.owners[0]| && t.owners[0][p] == [PageOwner(i, 0)]
    && forall q :: p < q < |t.owners[0]| ==> t.owners[0][q] == []
  }

  /** Where the block that is written next is. */
  ghost predicate Before(t: Tables, i: nat, page: nat, k: nat) {
    && i < |t.table|
    && (if page >= 2 then PointsAt(t.table[i], 0, page - 2)
        else if k >= 1 then PointsAt(t.table[i], k, 0) else !Mapped(t.table[i]))
  }

  /** The first write. */
  lemma TurnFirst(g: Geometry, early: seq<byte>, c: CompressedBlock)
    requires g.totalBlocks >= 2 && g.pagesPerBlock >= 2 && g.lbas >= 2 && IsRaw(c)
    ensures Turning(Written(Fresh(g), g, 0, c), g, 1, 0, 0, early)
  {
    hide Written;
    var s := Fresh(g);
    RawWritten(s, g, 0, c);
    var r := Written(s, g, 0, c);
    assert r.t.blocks == s.t.blocks[0 := Programmed(s.t.blocks[0], 0, c.data)];
    assert r.t.owners[0][0] == [PageOwner(0, 0)];
    assert InUse(r.t, 0, 1);
  }

  /** The write of the other block has started: one page of block 0 is valid, the last one used. */
  ghost predicate OnlyLatest(s: Tables, d: Tables, page: nat) {
    && d.table == s.table && d.owners == s.owners && d.staged == s.staged && |d.blocks| == |s.blocks| > 0
    && (forall b :: 0 <= b < |s.blocks| ==> SamePages(s.blocks[b], d.blocks[b]))
    && (forall b :: 1 <= b < |s.blocks| ==> d.blocks[b].invalidPageCount <= 1)
    && d.blocks[0].invalidPageCount + 1 == page
    && (forall p :: 0 <= p < |d.blocks[0].pageValid| ==> (d.blocks[0].pageValid[p] <==> p + 1 == page))
  }

  predicate SamePages(a: FlashBlock, b: FlashBlock) {
    b.pages == a.pages && |b.pageValid| == |a.pageValid|
  }

  lemma TurnStarts(s: Machine, g: Geometry, n: nat, k: nat, last: nat, early: seq<byte>)
    requires Shaped(s.t, g) && Turning(s, g, n, k, last, early) && last <= 1 < g.lbas
    ensures |s.t.table| == g.lbas && Shaped(Begun(s, 1 - last).t, g)
    ensures var d := Begun(s, 1 - last); d == s.(t := d.t, lost := d.lost) && OnlyLatest(s.t, d.t, s.page)
  {
    hide Shaped, PageIs;
    FTLController.BlockCount(s.t, g);
    FTLController.PageSizes(s.t, g, 0);
    FTLController.PageSizes(s.t, g, k);
    DetachShaped(s.t, 1 - last, g);
    var d := Begun(s, 1 - last);
    forall b | 1 <= b < |s.t.blocks| ensures d.t.blocks[b].invalidPageCount <= 1 {
      assert Spare(s.t, b, k);
    }
  }

  /** The next page of block 0 takes the other block. */
  lemma TurnPage(s: Machine, d: Machine, g: Geometry, k: nat, last: nat, data: seq<byte>, size: nat)
    requires Shaped(s.t, g) && s.active == d.active == 0 && s.page == d.page < g.pagesPerBlock
    requires OnlyLatest(s.t, d.t, s.page) && last <= 1 < g.lbas
    requires s.page >= 1 && k < g.totalBlocks && InUse(s.t, k, s.page) && Latest(s.t, last, s.page - 1)
    requires s.t.staged.None?
    ensures var m := d.(t := WithPageIfBlank(d.t, 0, d.page, data));
            var r := Mapping(m, 1 - last, RawFullPage, 0, size);
            && r.t.staged.None? && InUse(r.t, k, s.page + 1) && Latest(r.t, 1 - last, s.page)
            && Before(r.t, last, s.page + 1, k)
            && PageIs(r.t, 0, s.page, data)
            && (forall b :: 1 <= b < |s.t.blocks| ==> b < |r.t.blocks| && SamePages(s.t.blocks[b], r.t.blocks[b]))
  {
    hide Shaped;
    FTLController.BlockCount(s.t, g);
    FTLController.PageSizes(s.t, g, 0);
    var m := d.(t := WithPageIfBlank(d.t, 0, d.page, data));
    assert m.t.blocks == d.t.blocks[0 := Programmed(d.t.blocks[0], d.page, data)];
    var r := Mapping(m, 1 - last, RawFullPage, 0, size);
    assert r.t.owners[0][s.page] == [PageOwner(1 - last, 0)];
    forall b | 1 <= b < |r.t.blocks|
      ensures Spare(r.t, b, k) && SamePages(s.t.blocks[b], r.t.blocks[b])
    {
      assert Spare(s.t, b, k);
      assert SamePages(s.t.blocks[b], d.t.blocks[b]);
    }
  }

  /** A write while block 0 has a blank page. */
  lemma TurnMore(s: Machine, g: Geometry, n: nat, k: nat, last: nat, early: seq<byte>, c: CompressedBlock)
    requires Shaped(s.t, g) && Turning(s, g, n, k, last, early) && s.page < g.pagesPerBlock && IsRaw(c) && g.lbas >= 2
    requires n + 1 == g.pagesPerBlock ==> c.data == early
    ensures Turning(Written(s, g, 1 - last, c), g, n + 1, k, 1 - last, early)
  {
    hide Shaped, Written, Handed, InUse, Latest, Before, Begun, WithPageIfBlank;
    TurnStarts(s, g, n, k, last, early);
    RawWritten(s, g, 1 - last, c);
    var d := Begun(s, 1 - last);
    TurnPage(s, d, g, k, last, c.data, c.compressedSize);
    if k >= 1 {
      Times(k, 1, g.pagesPerBlock);
    }
  }

  /** Only the last of the pages that remain is valid: it alone is moved. */
  lemma {:induction false} MigratedLast(t: Tables, v: nat, p: nat, n: nat, r: nat, w: nat)
    requires p < n && v != r && HasPage(t, v, n - 1) && HasPage(t, r, w) && PageIsValid(t, v, n - 1)
    requires forall q :: p <= q < n - 1 ==> !PageIsValid(t, v, q)
    ensures var t', t1 := Migrated(t, v, p, n, r, w), WithPageIfBlank(t, r, w, t.blocks[v].pages[n - 1].data);
            && t'.table == Repoint(t.table, t.owners[v][n - 1], r, w) && t'.staged == t.staged
            && t'.blocks == t1.blocks && |t'.owners| == |t.owners|
    decreases n - p
  {
    hide Repoint, WithPageIfBlank;
    if p == n - 1 {
      OnlyBlocks(t, r, w, t.blocks[v].pages[p].data);
      var t1 := PageMoved(t, v, p, r, w);
      assert Migrated(t1, v, n, n, r, w + 1) == t1;
    } else {
      var t1 := OwnersCleared(t, v, p);
      BlocksOnly(t, t1, r, w, t.blocks[v].pages[n - 1].data);
      assert !PageIsValid(t, v, p) && forall q :: 0 <= q < n ==> PageIsValid(t1, v, q) == PageIsValid(t, v, q);
      MigratedLast(t1, v, p + 1, n, r, w);
    }
  }

  lemma BlocksOnly(t: Tables, t1: Tables, b: nat, p: nat, data: seq<byte>)
    requires t1 == t.(owners := t1.owners) && HasPage(t, b, p) && HasPage(t1, b, p)
    ensures WithPageIfBlank(t1, b, p, data).blocks == WithPageIfBlank(t, b, p, data).blocks
  {
  }

  lemma OnlyBlocks(t: Tables, b: nat, p: nat, data: seq<byte>)
    ensures var t1 := WithPageIfBlank(t, b, p, data); t1 == t.(blocks := t1.blocks) && |t1.blocks| == |t.blocks|
  {
  }

  lemma RepointOne(table: seq<MappingEntry>, i: nat, b: nat, p: nat)
    requires i < |table|
    ensures Repoint(table, [PageOwner(i, 0)], b, p) == table[i := table[i].(blockIdx := b, pageIdx := p)]
  {
    var list := [PageOwner(i, 0)];
    assert list[..0] == [];
  }

  /** What a collection of block 0 makes of it, blank reserve or not. */
  ghost predicate TurnedOver(s: Machine, r: Machine, last: nat, n: nat)
    requires s.reserve < |s.t.blocks| && last < |s.t.table| && n >= 1 && n == |s.t.blocks[0].pages|
    requires |s.t.blocks[s.reserve].pages| == |s.t.blocks[s.reserve].pageValid| == n
  {
    var v := s.reserve;
    var page := s.t.blocks[v].pages[0];
    && r.active == 0 && r.page == 0 && r.reserve == NextReserve(v, 0, |s.t.blocks|) && r.t.staged == s.t.staged
    && r.t.table == s.t.table[last := s.t.table[last].(blockIdx := v, pageIdx := 0)]
    && |r.t.blocks| == |s.t.blocks| == |r.t.owners| && r.t.owners[0] == seq(n, _ => [])
    && r.t.blocks[0] == Erased(s.t.blocks[0], n)
    && (forall b :: 1 <= b < |s.t.blocks| && b != v ==> r.t.blocks[b] == s.t.blocks[b])
    && r.t.blocks[v] == if page.isProgrammed then s.t.blocks[v]
       else Programmed(s.t.blocks[v], 0, s.t.blocks[0].pages[n - 1].data)
  }

  lemma TurnCollects(s: Machine, d: Machine, g: Geometry, last: nat)
    requires Shaped(s.t, g) && g.pagesPerBlock >= 2 && d.active == 0 && d.page == g.pagesPerBlock
    requires 1 <= d.reserve < g.totalBlocks && OnlyLatest(s.t, d.t, d.page)
    requires Latest(s.t, last, d.page - 1) && last < g.lbas
    ensures |d.t.blocks| == g.totalBlocks && |d.t.table| == g.lbas
    ensures |d.t.blocks[0].pages| == |d.t.blocks[d.reserve].pages| == |d.t.blocks[d.reserve].pageValid|
            == g.pagesPerBlock
    ensures TurnedOver(d, Collected(d, g), last, g.pagesPerBlock)
  {
    hide Shaped, Migrated, Repoint, ScanVictim, NextReserve, StaleLive;
    FTLController.BlockCount(s.t, g);
    FTLController.PageSizes(s.t, g, 0);
    FTLController.PageSizes(s.t, g, d.reserve);
    var n := g.pagesPerBlock;
    assert SamePages(s.t.blocks[0], d.t.blocks[0]) && SamePages(s.t.blocks[d.reserve], d.t.blocks[d.reserve]);
    BlockZeroFirst(d.t.blocks, d.reserve, |d.t.blocks|);
    MigratedLast(d.t, 0, 0, n, d.reserve, 0);
    RepointOne(d.t.table, last, d.reserve, 0);
    var m := Migrated(d.t, 0, 0, n, d.reserve, 0);
    assert Collected(d, g).t == Wiped(m, 0, n);
  }

  lemma BlankNotStale(t: Tables, g: Geometry, b: nat)
    requires Shaped(t, g) && b < g.totalBlocks && BlankFrom(t, b, 0)
    ensures b < |t.blocks| && t.blocks[b].invalidPageCount == 0
  {
    assert BlockOk(t.blocks[b], g.pagesPerBlock);
    StaleCountZero(t.blocks[b], g.pagesPerBlock);
  }

  /** The first page of the renewed block 0 takes the other block. */
  lemma TurnRenewed(s: Machine, d: Machine, m: Machine, g: Geometry, k: nat, last: nat, data: seq<byte>, size: nat)
    requires Shaped(s.t, g) && g.pagesPerBlock >= 2 && d.reserve == k + 1 < g.totalBlocks && last <= 1 < g.lbas
    requires s.t.staged.None? && InUse(s.t, k, g.pagesPerBlock) && Latest(s.t, last, g.pagesPerBlock - 1)
    requires OnlyLatest(s.t, d.t, g.pagesPerBlock) && Shaped(d.t, g)
    requires |d.t.blocks| == g.totalBlocks && |d.t.table| == g.lbas
    requires |d.t.blocks[0].pages| == |d.t.blocks[k + 1].pages| == |d.t.blocks[k + 1].pageValid| == g.pagesPerBlock
    requires TurnedOver(d, m, last, g.pagesPerBlock)
    ensures var m1 := m.(t := WithPageIfBlank(m.t, 0, 0, data));
            var r := Mapping(m1, 1 - last, RawFullPage, 0, size);
            && r.t.staged.None? && InUse(r.t, k + 1, 1) && Latest(r.t, 1 - last, 0) && Before(r.t, last, 1, k + 1)
            && PageIs(r.t, k + 1, 0, s.t.blocks[0].pages[g.pagesPerBlock - 1].data)
            && (forall b :: 1 <= b < |s.t.blocks| && b != k + 1 ==>
                 b < |r.t.blocks| && SamePages(s.t.blocks[b], r.t.blocks[b]))
  {
    hide Shaped, NextReserve;
    FTLController.BlockCount(s.t, g);
    FTLController.PageSizes(s.t, g, 0);
    var m1 := m.(t := WithPageIfBlank(m.t, 0, 0, data));
    assert m1.t.blocks == m.t.blocks[0 := Programmed(m.t.blocks[0], 0, data)];
    var r := Mapping(m1, 1 - last, RawFullPage, 0, size);
    assert r.t.owners[0][0] == [PageOwner(1 - last, 0)];
    assert Spare(s.t, k + 1, k) && SamePages(s.t.blocks[0], d.t.blocks[0])
      && SamePages(s.t.blocks[k + 1], d.t.blocks[k + 1]);
    BlankNotStale(d.t, g, k + 1);
    forall b | 1 <= b < |r.t.blocks|
      ensures Spare(r.t, b, k + 1)
      ensures b != k + 1 ==> SamePages(s.t.blocks[b], r.t.blocks[b])
    {
      assert SamePages(s.t.blocks[b], d.t.blocks[b]) && Spare(s.t, b, k);
    }
    assert BlankFrom(r.t, 0, 1);
    assert Flagged(r.t.blocks[0], 1);
    assert r.t.blocks[k + 1].invalidPageCount == 0;
    assert InUse(r.t, k + 1, 1);
  }

  /** A write when block 0 is full, and there is a blank block to collect into. */
  lemma TurnOver(s: Machine, g: Geometry, n: nat, k: nat, last: nat, early: seq<byte>, c: CompressedBlock)
    requires Shaped(s.t, g) && Turning(s, g, n, k, last, early) && s.page == g.pagesPerBlock >= 2 && IsRaw(c)
    requires g.lbas >= 2 && k + 1 < g.totalBlocks
    ensures Turning(Written(s, g, 1 - last, c), g, n + 1, k + 1, 1 - last, early)
  {
    hide Shaped, Written, Handed, Begun, Collected, InUse, Latest, Before, OnlyLatest, WithPageIfBlank;
    TurnStarts(s, g, n, k, last, early);
    RawWritten(s, g, 1 - last, c);
    var d := Begun(s, 1 - last);
    TurnCollects(s, d, g, last);
    var m := Collected(d, g);
    TurnRenewed(s, d, m, g, k, last, c.data, c.compressedSize);
    assert k == 0 ==> n == g.pagesPerBlock;
    var r := Written(s, g, 1 - last, c);
    assert PageIs(r.t, 1, 0, early);
  }

  /** When no block is left, the page of the block written before is dropped. */
  lemma TurnTooFar(s: Machine, g: Geometry, n: nat, last: nat, early: seq<byte>, c: CompressedBlock)
    requires Shaped(s.t, g) && Turning(s, g, n, g.totalBlocks - 1, last, early) && s.page == g.pagesPerBlock >= 2
    requires IsRaw(c) && g.lbas >= 2 && g.totalBlocks >= 2
    ensures var r := Written(s, g, 1 - last, c);
            r.t.staged.None? && OnPage(r.t, last, 1, 0) && r.t.blocks[1].pages[0].data == early
  {
    hide Shaped, Written, Handed, Begun, Collected;
    TurnStarts(s, g, n, g.totalBlocks - 1, last, early);
    RawWritten(s, g, 1 - last, c);
    var d := Begun(s, 1 - last);
    TurnCollects(s, d, g, last);
  }

  /** The collections so far, after a write that is not the last. */
  function CollectionsAfter(k: nat, page: nat, g: Geometry): (r: nat) {
    if page < g.pagesPerBlock then k else k + 1
  }

  lemma TurnOne(s: Machine, g: Geometry, n: nat, k: nat, last: nat, early: seq<byte>, c: CompressedBlock)
    requires Shaped(s.t, g) && Turning(s, g, n, k, last, early) && n < g.totalBlocks * g.pagesPerBlock
    requires IsRaw(c) && g.lbas >= 2 && g.pagesPerBlock >= 2 && (n + 1 == g.pagesPerBlock ==> c.data == early)
    ensures Turning(Written(s, g, 1 - last, c), g, n + 1, CollectionsAfter(k, s.page, g), 1 - last, early)
  {
    hide Shaped, Written, IsRaw, InUse, Latest, Before;
    if s.page < g.pagesPerBlock {
      TurnMore(s, g, n, k, last, early, c);
    } else {
      RoomAhead(k, s.page, g.totalBlocks, g.pagesPerBlock);
      TurnOver(s, g, n, k, last, early, c);
    }
  }

  /** Two blocks are written in turn. */
  method Alternate(ftl: FTLController, b: seq<seq<byte>>, ghost early: seq<byte>) returns (ghost k: nat)
    requires ftl.Valid() && ftl.State() == Fresh(ftl.Geo()) && |ftl.contents| == ftl.lbas >= 2
    requires ftl.flash.totalBlocks >= 2 && ftl.flash.pagesPerBlock >= 2
    requires 1 <= |b| <= ftl.flash.totalBlocks * ftl.flash.pagesPerBlock
    requires forall n :: 0 <= n < |b| ==> |b[n]| == PAGE_SIZE && NoneRecurs(b[n])
    requires |b| >= ftl.flash.pagesPerBlock ==> b[ftl.flash.pagesPerBlock - 1] == early
    modifies ftl, ftl.flash
    ensures ftl.Valid() && |ftl.contents| == ftl.lbas && ftl.contents[(|b| - 1) % 2] == b[|b| - 1]
    ensures Turning(ftl.State(), ftl.Geo(), |b|, k, (|b| - 1) % 2, early)
  {
    hide FTLController.Valid, Written, NoneRecurs, Turning, Fresh, IsRaw, FTLController.State;
    ghost var g := ftl.Geo();
    ghost var c := WriteRaw(ftl, 0, b[0]);
    k := 0;
    TurnFirst(g, early, c);
    for n := 1 to |b|
      invariant ftl.Valid() && |ftl.contents| == g.lbas
      invariant Turning(ftl.State(), g, n, k, (n - 1) % 2, early) && ftl.contents[(n - 1) % 2] == b[n - 1]
    {
      ShapedAlways(ftl);
      ghost var s := ftl.State();
      c := WriteRaw(ftl, n % 2, b[n]);
      TurnOne(s, g, n, k, (n - 1) % 2, early, c);
      k := CollectionsAfter(k, s.page, g);
    }
  }

  /**
   * Two blocks of a fresh controller are written in turn, once for each page there is and
   * one time more; `b` are the blocks written, kept as they are. All writes are accepted.
   * The block that was not written last is read as it was when the first flash block filled
   * up. All geometries of two pages to a block and more.
   */
  method AlternateOnceTooOften(capacity: nat, totalBlocks: nat, pagesPerBlock: nat, b: seq<seq<byte>>)
    returns (ok: bool, read: seq<byte>, ftl: FTLController, lba: nat)
    requires totalBlocks >= 2 && pagesPerBlock >= 2 && capacity > PAGE_SIZE
    requires |b| == totalBlocks * pagesPerBlock + 1 > pagesPerBlock
    requires forall n :: 0 <= n < |b| ==> |b[n]| == PAGE_SIZE && NoneRecurs(b[n])
    ensures fresh(ftl) && fresh(ftl.flash) && ftl.Valid() && lba == |b| % 2 < |ftl.contents|
    ensures ftl.contents[lba] == b[|b| - 2]
    ensures ok && read == b[pagesPerBlock - 1]
  {
    hide FTLController.Valid, Written, NoneRecurs, Turning, Fresh, IsRaw;
    ftl := new FTLController(capacity, totalBlocks, pagesPerBlock);
    ghost var early, n := b[pagesPerBlock - 1], |b| - 1;
    ghost var k := Alternate(ftl, b[..|b| - 1], early);
    lba := |b| % 2;
    ShapedAlways(ftl);
    ghost var s := ftl.State();
    ghost var c := WriteRaw(ftl, 1 - lba, b[|b| - 1]);
    TurnEnd(s, ftl.Geo(), n, k, lba, early, c);
    ok, read := ReadWhole(ftl, lba);
  }

  lemma TurnEnd(s: Machine, g: Geometry, n: nat, k: nat, last: nat, early: seq<byte>, c: CompressedBlock)
    requires Shaped(s.t, g) && Turning(s, g, n, k, last, early) && n == g.totalBlocks * g.pagesPerBlock
    requires IsRaw(c) && g.lbas >= 2 && g.totalBlocks >= 2 && g.pagesPerBlock >= 2
    ensures var r := Written(s, g, 1 - last, c);
            r.t.staged.None? && OnPage(r.t, last, 1, 0) && r.t.blocks[1].pages[0].data == early
  {
    hide Shaped, Written, IsRaw, InUse, Latest, Before;
    AllFilled(k, s.page, g.totalBlocks, g.pagesPerBlock);
    TurnTooFar(s, g, n, last, early, c);
  }

  // ---------------------------------------------------------------- instances

  /** There are such blocks: counters of two digits. Block 0 is read as it was before the overwrite. */
  method FillWitness(capacity: nat, totalBlocks: nat, pagesPerBlock: nat)
    returns (written: seq<byte>, ok: bool, read: seq<byte>)
    requires totalBlocks >= 2 && pagesPerBlock >= 1
    requires (capacity + PAGE_SIZE - 1) / PAGE_SIZE >= totalBlocks * pagesPerBlock
    ensures written == DigitBlock(1) && ok && read == DigitBlock(0) != written
  {
    Times(totalBlocks, 2, pagesPerBlock);
    DigitsNeverRecur(0);
    DigitsNeverRecur(1);
    DigitBlocksDiffer(0, 1);
    var b := seq(totalBlocks * pagesPerBlock, _ => DigitBlock(0));
    var ftl;
    written := DigitBlock(1);
    ok, read, ftl := FillAndOverwrite(capacity, totalBlocks, pagesPerBlock, b, written);
  }

  method AlternateWitness(capacity: nat, totalBlocks: nat, pagesPerBlock: nat)
    returns (written: seq<byte>, ok: bool, read: seq<byte>)
    requires totalBlocks >= 2 && pagesPerBlock >= 2 && capacity > PAGE_SIZE
    ensures written == DigitBlock(1) && ok && read == DigitBlock(0) != written
  {
    Times(totalBlocks, 2, pagesPerBlock);
    DigitsNeverRecur(0);
    DigitsNeverRecur(1);
    DigitBlocksDiffer(0, 1);
    var n := totalBlocks * pagesPerBlock;
    var b := seq(n + 1, k => DigitBlock(if k < pagesPerBlock then 0 else 1));
    written := b[n - 1];
    var ftl, lba;
    ok, read, ftl, lba := AlternateOnceTooOften(capacity, totalBlocks, pagesPerBlock, b);
  }
}
