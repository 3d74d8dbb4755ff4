/**
 * Runs that go on after the reserve pointer has been round once, and are right for any
 * number of writes: one block rewritten on any geometry, and two blocks rewritten in turn
 * on an even number of flash blocks of one page.
 */
module FtlRounds {
  import opened Bytes
  import opened FlashModel
  import opened Lz4Compressor
  import opened Lz4Greedy
  import opened FtlState
  import opened FtlSteps
  import opened FtlMachine
  import opened FtlController
  import opened FtlHost
  import opened FtlTurnover

  // ---------------------------------------------------------------- a collection that moves nothing

  ghost predicate Sized(t: Tables, g: Geometry) {
    && |t.table| == g.lbas && |t.blocks| == |t.owners| == g.totalBlocks
    && (forall b :: 0 <= b < g.totalBlocks ==> BlockSized(t, b, g.pagesPerBlock))
  }

  predicate BlockSized(t: Tables, b: nat, n: nat) {
    b < |t.blocks| && b < |t.owners| && |t.blocks[b].pages| == |t.blocks[b].pageValid| == |t.owners[b]| == n
  }

  /** Nothing was ever written on block `b` since it was erased. */
  ghost predicate Unused(t: Tables, b: nat) {
    && BlankFrom(t, b, 0) && t.blocks[b].invalidPageCount == 0
    && forall p :: 0 <= p < |t.blocks[b].pageValid| ==> !t.blocks[b].pageValid[p]
  }

  /** Block `b` is written up to page `page`; only the last of these is valid, if `current`. */
  ghost predicate Rewritten(t: Tables, b: nat, page: nat, current: bool) {
    && BlankFrom(t, b, page) && t.blocks[b].invalidPageCount + One(current) == page
    && forall p :: 0 <= p < |t.blocks[b].pageValid| ==> (t.blocks[b].pageValid[p] <==> current && p + 1 == page)
  }

  lemma {:induction false} MigratedNone(t: Tables, v: nat, p: nat, n: nat, r: nat, w: nat)
    requires forall q :: p <= q < n ==> !PageIsValid(t, v, q)
    ensures var t' := Migrated(t, v, p, n, r, w);
            && t' == t.(owners := t'.owners) && |t'.owners| == |t.owners|
            && (forall b :: 0 <= b < |t.owners| && b != v ==> t'.owners[b] == t.owners[b])
    decreases n - p
  {
    if p < n {
      assert !PageIsValid(t, v, p);
      var t1 := OwnersCleared(t, v, p);
      assert forall q :: p + 1 <= q < n ==> PageIsValid(t1, v, q) == PageIsValid(t, v, q);
      MigratedNone(t1, v, p + 1, n, r, w);
    }
  }

  /** The victim has no valid page: it is erased, and nothing else changes. */
  lemma CollectsNothing(s: Machine, g: Geometry, v: nat)
    requires Sized(s.t, g) && s.page == g.pagesPerBlock >= 1 && v < g.totalBlocks
    requires ScanVictim(s.t.blocks, s.reserve, g.totalBlocks) == (v, g.pagesPerBlock)
    requires Rewritten(s.t, v, g.pagesPerBlock, false) && BlankFrom(s.t, s.reserve, 0) && AllFoundBlank(s)
    ensures var r := Collected(s, g);
            && Sized(r.t, g) && r.active == v && r.page == 0 && r.reserve == NextReserve(s.reserve, v, g.totalBlocks)
            && r.t.table == s.t.table && r.t.staged == s.t.staged && AllFoundBlank(r)
            && r.t.blocks == s.t.blocks[v := Erased(s.t.blocks[v], g.pagesPerBlock)]
            && Rewritten(r.t, v, 0, false)
  {
    hide ScanVictim, Migrated, NextReserve, StaleLive;
    assert BlockSized(s.t, v, g.pagesPerBlock);
    MigratedNone(s.t, v, 0, g.pagesPerBlock, s.reserve, 0);
    var m, r := Migrated(s.t, v, 0, g.pagesPerBlock, s.reserve, 0), Collected(s, g);
    assert r.t == WithErased(m, v, g.pagesPerBlock);
    forall b | 0 <= b < g.totalBlocks ensures BlockSized(r.t, b, g.pagesPerBlock) {
      assert BlockSized(s.t, b, g.pagesPerBlock);
    }
  }

  /** The next page takes block `i`. */
  lemma NextPage(s: Machine, g: Geometry, i: nat, data: seq<byte>, size: nat)
    requires Sized(s.t, g) && s.active < g.totalBlocks && s.page < g.pagesPerBlock && i < g.lbas && s.t.staged.None?
    requires Rewritten(s.t, s.active, s.page, false) && AllFoundBlank(s)
    ensures var m := s.(t := WithPageIfBlank(s.t, s.active, s.page, data));
            var r := Advanced(Mapping(m, i, RawFullPage, 0, size));
            && Sized(r.t, g) && Rewritten(r.t, s.active, s.page + 1, true) && r.t.staged.None? && AllFoundBlank(r)
            && r.t.table == s.t.table[i := MappingEntry(RawFullPage, s.active, s.page, 0, size)]
            && r.active == s.active && r.page == s.page + 1 && r.reserve == s.reserve
            && (forall b :: 0 <= b < g.totalBlocks && b != s.active ==> r.t.blocks[b] == s.t.blocks[b])
  {
    assert BlockSized(s.t, s.active, g.pagesPerBlock);
    var m := s.(t := WithPageIfBlank(s.t, s.active, s.page, data));
    assert m.t.blocks == s.t.blocks[s.active := Programmed(s.t.blocks[s.active], s.page, data)];
    var r := Advanced(Mapping(m, i, RawFullPage, 0, size));
    forall b | 0 <= b < g.totalBlocks ensures BlockSized(r.t, b, g.pagesPerBlock) {
      assert BlockSized(s.t, b, g.pagesPerBlock);
    }
  }

  /** A write of block `i`, which is on the last page written of block `b`, makes that page stale. */
  lemma GoesStale(s: Machine, g: Geometry, i: nat, b: nat, page: nat)
    requires Sized(s.t, g) && i < g.lbas && b < g.totalBlocks && 1 <= page <= g.pagesPerBlock && s.t.staged.None?
    requires PointsAt(s.t.table[i], b, page - 1) && Rewritten(s.t, b, page, true) && AllFoundBlank(s)
    ensures var d := Begun(s, i);
            && Sized(d.t, g) && d == s.(t := d.t, lost := d.lost) && d.t == s.t.(blocks := d.t.blocks)
            && Rewritten(d.t, b, page, false) && AllFoundBlank(d)
            && (forall k :: 0 <= k < g.totalBlocks && k != b ==> d.t.blocks[k] == s.t.blocks[k])
  {
    assert BlockSized(s.t, b, g.pagesPerBlock);
    var d := Begun(s, i);
    forall k | 0 <= k < g.totalBlocks ensures BlockSized(d.t, k, g.pagesPerBlock) {
      assert BlockSized(s.t, k, g.pagesPerBlock);
    }
  }

  // ---------------------------------------------------------------- one block

  /** Only block 0 has been written, on flash block 0. */
  ghost predicate Alone(s: Machine, g: Geometry) {
    && Sized(s.t, g) && s.t.staged.None? && s.active == 0 && s.page <= g.pagesPerBlock && 1 <= s.reserve < g.totalBlocks
    && Rewritten(s.t, 0, s.page, s.page > 0) && AllFoundBlank(s)
    && (forall b :: 1 <= b < g.totalBlocks ==> Unused(s.t, b))
    && g.lbas >= 1 && (if s.page == 0 then !Mapped(s.t.table[0]) else PointsAt(s.t.table[0], 0, s.page - 1))
    && (forall i :: 1 <= i < g.lbas ==> !Mapped(s.t.table[i]))
  }

  lemma FreshAlone(g: Geometry)
    requires g.totalBlocks >= 2 && g.lbas >= 1
    ensures Alone(Fresh(g), g)
  {
  }

  lemma AloneMore(s: Machine, g: Geometry, c: CompressedBlock)
    requires g.totalBlocks >= 2 && g.pagesPerBlock >= 1 && Alone(s, g) && IsRaw(c)
    ensures var r, full := Written(s, g, 0, c), s.page == g.pagesPerBlock;
            && Alone(r, g) && r.page == (if full then 1 else s.page + 1)
            && r.reserve == (if full then NextReserve(s.reserve, 0, g.totalBlocks) else s.reserve)
  {
    hide Written, Sized, Rewritten, Handed, Begun, WithPageIfBlank, Mapping, Collected;
    SizedIs(s.t, g);
    RawWritten(s, g, 0, c);
    var d := Begun(s, 0);
    if s.page > 0 {
      GoesStale(s, g, 0, 0, s.page);
    } else {
      assert d.t == s.t && d == s.(lost := d.lost) by { NothingDetached(s, 0); }
    }
    assert Rewritten(d.t, 0, d.page, false) && |d.t.blocks| == g.totalBlocks by { SizedIs(d.t, g); }
    forall b | 1 <= b < g.totalBlocks
      ensures Unused(d.t, b) && d.t.blocks[b].invalidPageCount == 0 && BlankFrom(d.t, b, 0)
    {
      assert Unused(s.t, b);
    }
    if s.page == g.pagesPerBlock {
      assert d.t.blocks[0].invalidPageCount == s.page by { RewrittenCount(d.t, 0, s.page); }
      BlockZeroFirst(d.t.blocks, d.reserve, g.totalBlocks);
      CollectsNothing(d, g, 0);
    } else {
      FTLController.NotFull(d, g);
    }
    var m := Collected(d, g);
    NextPage(m, g, 0, c.data, c.compressedSize);
    var r := Written(s, g, 0, c);
    forall b | 1 <= b < g.totalBlocks ensures Unused(r.t, b) {
      assert Unused(d.t, b) && r.t.blocks[b] == d.t.blocks[b];
    }
  }

  lemma NothingDetached(s: Machine, i: nat)
    requires i < |s.t.table| && !Mapped(s.t.table[i]) && s.t.staged.None?
    ensures Begun(s, i) == s.(lost := s.lost + {i})
  {
  }

  lemma SizedIs(t: Tables, g: Geometry)
    requires Sized(t, g)
    ensures |t.blocks| == g.totalBlocks && |t.table| == g.lbas
  {
  }

  lemma RewrittenCount(t: Tables, b: nat, page: nat)
    requires Rewritten(t, b, page, false)
    ensures t.blocks[b].invalidPageCount == page
  {
  }

  // ---------------------------------------------------------------- two blocks in turn

  /**
   * Pages of flash blocks 0 and 2 hold blocks 0 and 1, one page each, all others are blank.
   * The reserve pointer passes over whichever of the two is the victim: before block 0 is
   * rewritten it is on an odd place from 3 on, before block 1 on place 1 or an even one from 4.
   */
  ghost predicate PingPong(s: Machine, g: Geometry, last: nat) {
    && Sized(s.t, g) && s.t.staged.None? && s.page == 1 && s.reserve < g.totalBlocks && AllFoundBlank(s)
    && s.active == 2 * last && last <= 1 && g.lbas >= 2
    && (if last == 1 then s.reserve >= 3 && s.reserve % 2 == 1
       else s.reserve == 1 || (s.reserve >= 4 && s.reserve % 2 == 0))
    && Rewritten(s.t, 0, 1, true) && Rewritten(s.t, 2, 1, true)
    && PointsAt(s.t.table[0], 0, 0) && PointsAt(s.t.table[1], 2, 0)
    && (forall b :: 0 <= b < g.totalBlocks && b != 0 && b != 2 ==> Unused(s.t, b))
  }

  lemma {:induction false} OnlyVictim(blocks: seq<FlashBlock>, reserve: nat, v: nat, n: nat)
    requires n <= |blocks| && v != reserve && v < |blocks| && blocks[v].invalidPageCount > 0
    requires forall b :: 0 <= b < |blocks| && b != v ==> blocks[b].invalidPageCount == 0
    ensures ScanVictim(blocks, reserve, n) == if v < n then (v, blocks[v].invalidPageCount) else (0, 0)
  {
    if n > 0 {
      OnlyVictim(blocks, reserve, v, n - 1);
    }
  }

  lemma PingPongMore(s: Machine, g: Geometry, last: nat, c: CompressedBlock)
    requires g.totalBlocks >= 4 && g.totalBlocks % 2 == 0 && g.pagesPerBlock == 1 && PingPong(s, g, last) && IsRaw(c)
    ensures PingPong(Written(s, g, 1 - last, c), g, 1 - last)
  {
    hide Written, Sized, Rewritten, Handed, Begun, WithPageIfBlank, Mapping, Collected;
    SizedIs(s.t, g);
    var i := 1 - last;
    var v := 2 * i;
    RawWritten(s, g, i, c);
    var d := Begun(s, i);
    GoesStale(s, g, i, v, 1);
    SizedIs(d.t, g);
    RewrittenCount(d.t, v, 1);
    CurrentCount(s.t, 2 * last);
    forall b | 0 <= b < g.totalBlocks && b != v ensures d.t.blocks[b].invalidPageCount == 0 {
      assert b != 2 * last ==> Unused(s.t, b);
    }
    OnlyVictim(d.t.blocks, d.reserve, v, g.totalBlocks);
    assert Unused(s.t, s.reserve);
    CollectsNothing(d, g, v);
    var m := Collected(d, g);
    NextPage(m, g, i, c.data, c.compressedSize);
    var r := Written(s, g, i, c);
    forall b | 0 <= b < g.totalBlocks && b != v ensures r.t.blocks[b] == s.t.blocks[b] {
      assert m.t.blocks[b] == d.t.blocks[b];
    }
    SizedIs(r.t, g);
    SameRewritten(s.t, r.t, 2 * last);
    forall b | 0 <= b < g.totalBlocks && b != 0 && b != 2 ensures Unused(r.t, b) {
      assert Unused(s.t, b);
    }
  }

  lemma CurrentCount(t: Tables, b: nat)
    requires Rewritten(t, b, 1, true)
    ensures t.blocks[b].invalidPageCount == 0
  {
  }

  lemma SameRewritten(t: Tables, t': Tables, b: nat)
    requires Rewritten(t, b, 1, true) && b < |t'.blocks| && t'.blocks[b] == t.blocks[b]
    ensures Rewritten(t', b, 1, true)
  {
  }

  /** The first write of block 1: no page is stale, so the reserve block is taken as it is. */
  lemma PingPongStarts(s: Machine, g: Geometry, c: CompressedBlock)
    requires g.totalBlocks >= 4 && g.pagesPerBlock == 1 && g.lbas >= 2 && IsRaw(c)
    requires Alone(s, g) && s.page == 1 && s.reserve == 2
    ensures PingPong(Written(s, g, 1, c), g, 1)
  {
    hide Written, Sized, Handed, Begun, WithPageIfBlank, Mapping, ScanVictim;
    SizedIs(s.t, g);
    RawWritten(s, g, 1, c);
    var d := Begun(s, 1);
    NothingDetached(s, 1);
    CurrentCount(s.t, 0);
    forall b | 1 <= b < g.totalBlocks ensures s.t.blocks[b].invalidPageCount == 0 && BlankFrom(s.t, b, 0) {
      assert Unused(s.t, b);
    }
    NothingStale(s.t.blocks, s.reserve, g.totalBlocks);
    var m := Collected(d, g);
    assert m.t == s.t && m.active == 2 && m.page == 0 && m.reserve == 3;
    assert AllFoundBlank(m);
    assert Rewritten(m.t, 2, 0, false) by { UnusedRewritten(s.t, g, 2); }
    hide Collected, Rewritten;
    NextPage(m, g, 1, c.data, c.compressedSize);
    var r := Written(s, g, 1, c);
    SizedIs(r.t, g);
    assert r.t.blocks[0] == s.t.blocks[0];
    SameRewritten(s.t, r.t, 0);
    forall b | 0 <= b < g.totalBlocks && b != 0 && b != 2 ensures Unused(r.t, b) {
      assert Unused(s.t, b) && r.t.blocks[b] == s.t.blocks[b];
    }
  }

  lemma UnusedRewritten(t: Tables, g: Geometry, b: nat)
    requires Sized(t, g) && b < g.totalBlocks && Unused(t, b)
    ensures Rewritten(t, b, 0, false)
  {
  }

  // ---------------------------------------------------------------- whole runs

  /** Every block written is kept as it is. */
  ghost predicate AllRaw(ops: seq<HostOp>) {
    forall k :: 0 <= k < |ops| && ops[k].Write? ==> |ops[k].block| == PAGE_SIZE && NoneRecurs(ops[k].block)
  }

  lemma RawForms(ops: seq<HostOp>, forms: seq<CompressedBlock>, lbas: nat)
    requires AllRaw(ops) && FormsOf(ops, forms, lbas)
    ensures NoMidSize(ops, forms, lbas) && NoHalves(ops, forms, lbas)
    ensures forall k :: 0 <= k < |ops| && ops[k].Write? && ops[k].lba < lbas ==> IsRaw(forms[k])
  {
    hide NoneRecurs, FormOf;
    forall k | 0 <= k < |ops| && ops[k].Write? && ops[k].lba < lbas
      ensures IsRaw(forms[k]) && !MidSize(forms[k]) && !FitsHalf(forms[k])
    {
      NoneRecursRaw(forms[k], ops[k].block);
    }
  }

  lemma AllRawBefore(ops: seq<HostOp>, forms: seq<CompressedBlock>, lbas: nat, n: nat)
    requires AllRaw(ops) && FormsOf(ops, forms, lbas) && n <= |ops|
    ensures AllRaw(ops[..n]) && FormsOf(ops[..n], forms[..n], lbas)
  {
    hide FormOf, NoneRecurs;
  }

  /** Operations that write block 0 only. */
  predicate OnlyFirst(ops: seq<HostOp>) {
    forall k :: 0 <= k < |ops| && ops[k].Write? ==> ops[k].lba == 0
  }

  lemma {:induction false} RewritesAlone(g: Geometry, ops: seq<HostOp>, forms: seq<CompressedBlock>)
    requires g.totalBlocks >= 2 && g.pagesPerBlock >= 1 && g.lbas >= 1
    requires AllRaw(ops) && OnlyFirst(ops) && FormsOf(ops, forms, g.lbas)
    ensures Alone(After(Fresh(g), g, ops, forms), g)
  {
    hide FormOf, NoneRecurs, Alone, Written, Fresh;
    if ops == [] {
      FreshAlone(g);
    } else {
      var n := |ops| - 1;
      AllRawBefore(ops, forms, g.lbas, n);
      RewritesAlone(g, ops[..n], forms[..n]);
      RawForms(ops, forms, g.lbas);
      var s := After(Fresh(g), g, ops[..n], forms[..n]);
      NoStaging(s, g);
      if ops[n].Write? {
        AloneMore(s, g, forms[n]);
      }
    }
  }

  lemma NoStaging(s: Machine, g: Geometry)
    requires Alone(s, g)
    ensures Flushed(s, g) == s && AllFoundBlank(s)
  {
  }

  /**
   * One block is rewritten any number of times, on any geometry: every reply, also to reads
   * of other blocks, is that of the plain map, however often the pointer goes round.
   */
  method RewriteForever(capacity: nat, totalBlocks: nat, pagesPerBlock: nat, ops: seq<HostOp>)
    returns (replies: seq<Reply>, ftl: FTLController)
    requires totalBlocks >= 2 && pagesPerBlock >= 1 && capacity > 0 && AllRaw(ops) && OnlyFirst(ops)
    ensures fresh(ftl) && fresh(ftl.flash) && ftl.Valid()
    ensures replies == Replies(seq(ftl.lbas, _ => ZeroBlock()), ops)
  {
    hide FTLController.Valid, NoneRecurs, FormsOf, After, Fresh, Alone, NoMidSize, NoHalves;
    ghost var forms;
    assert WellSized(ops);
    replies, ftl, forms := Run(capacity, totalBlocks, pagesPerBlock, ops);
    RewritesAlone(ftl.Geo(), ops, forms);
    RawForms(ops, forms, ftl.lbas);
    NoStaging(ftl.State(), ftl.Geo());
  }

  function Writes(ops: seq<HostOp>): (n: nat) {
    if ops == [] then 0 else Writes(ops[..|ops| - 1]) + One(ops[|ops| - 1].Write?)
  }

  /** The block of write `w`: 0, 0, 1, 0, 1, and so on. */
  function Turn(w: nat): (lba: nat) {
    if w == 0 then 0 else (w + 1) % 2
  }

  predicate InTurn(ops: seq<HostOp>) {
    forall k :: 0 <= k < |ops| && ops[k].Write? ==> ops[k].lba == Turn(Writes(ops[..k]))
  }

  ghost predicate AfterTurns(s: Machine, g: Geometry, w: nat) {
    if w < 3 then Alone(s, g) && s.page == (if w == 0 then 0 else 1) && s.reserve == (if w < 2 then 1 else 2)
    else PingPong(s, g, Turn(w - 1))
  }

  lemma AfterTurnsMore(s: Machine, g: Geometry, w: nat, c: CompressedBlock)
    requires g.totalBlocks >= 4 && g.totalBlocks % 2 == 0 && g.pagesPerBlock == 1 && g.lbas >= 2 && IsRaw(c)
    requires AfterTurns(s, g, w)
    ensures AfterTurns(Written(s, g, Turn(w), c), g, w + 1)
  {
    hide Alone, PingPong, Written, IsRaw;
    if w < 2 {
      AloneMore(s, g, c);
    } else if w == 2 {
      PingPongStarts(s, g, c);
    } else {
      PingPongMore(s, g, Turn(w - 1), c);
    }
  }

  lemma {:induction false} TurnsAlternate(g: Geometry, ops: seq<HostOp>, forms: seq<CompressedBlock>)
    requires g.totalBlocks >= 4 && g.totalBlocks % 2 == 0 && g.pagesPerBlock == 1 && g.lbas >= 2
    requires AllRaw(ops) && InTurn(ops) && FormsOf(ops, forms, g.lbas)
    ensures AfterTurns(After(Fresh(g), g, ops, forms), g, Writes(ops))
  {
    hide FormOf, NoneRecurs, AfterTurns, Written, Fresh;
    if ops == [] {
      assert AfterTurns(Fresh(g), g, 0) by { FreshTurns(g); }
    } else {
      var n := |ops| - 1;
      AllRawBefore(ops, forms, g.lbas, n);
      assert forall k :: 0 <= k < n ==> ops[..n][..k] == ops[..k];
      TurnsAlternate(g, ops[..n], forms[..n]);
      RawForms(ops, forms, g.lbas);
      var s := After(Fresh(g), g, ops[..n], forms[..n]);
      TurnsStaging(s, g, Writes(ops[..n]));
      if ops[n].Write? {
        AfterTurnsMore(s, g, Writes(ops[..n]), forms[n]);
      }
    }
  }

  lemma FreshTurns(g: Geometry)
    requires g.totalBlocks >= 2 && g.lbas >= 1
    ensures AfterTurns(Fresh(g), g, 0)
  {
    hide Alone;
    FreshAlone(g);
  }

  lemma TurnsStaging(s: Machine, g: Geometry, w: nat)
    requires AfterTurns(s, g, w)
    ensures Flushed(s, g) == s && AllFoundBlank(s)
  {
  }

  /**
   * Two blocks are rewritten in turn any number of times, on an even number of flash blocks
   * of one page each. The pointer passes over the victim at every second collection, and
   * every reply is that of the plain map.
   */
  method PingPongForever(capacity: nat, totalBlocks: nat, ops: seq<HostOp>)
    returns (replies: seq<Reply>, ftl: FTLController)
    requires totalBlocks >= 4 && totalBlocks % 2 == 0 && capacity > PAGE_SIZE && AllRaw(ops) && InTurn(ops)
    ensures fresh(ftl) && fresh(ftl.flash) && ftl.Valid()
    ensures replies == Replies(seq(ftl.lbas, _ => ZeroBlock()), ops)
  {
    hide FTLController.Valid, NoneRecurs, FormsOf, After, Fresh, AfterTurns, NoMidSize, NoHalves;
    ghost var forms;
    assert WellSized(ops);
    replies, ftl, forms := Run(capacity, totalBlocks, 1, ops);
    TurnsAlternate(ftl.Geo(), ops, forms);
    RawForms(ops, forms, ftl.lbas);
    TurnsStaging(ftl.State(), ftl.Geo(), Writes(ops));
  }
}
