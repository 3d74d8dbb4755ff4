/**
 * Traffic of zero and incompressible blocks only: no page is shared, so a live block is
 * never on a stale page, and until the reserve pointer has gone round once the reserve
 * block is blank. Under such traffic garbage collection needs no further assumption.
 */
module FtlRaw {
  import opened Bytes
  import opened FlashModel
  import opened FtlState
  import opened FtlSteps

  /** Nothing staged; live blocks on valid pages; at most one owner on a valid page. */
  ghost predicate RawState(t: Tables, pending: set<nat>, g: Geometry) {
    && t.staged.None?
    && (forall i :: 0 <= i < |t.table| && Live(t, pending, i) ==>
         PageIsValid(t, t.table[i].blockIdx, t.table[i].pageIdx))
    && (forall b, p :: 0 <= b < g.totalBlocks && 0 <= p < g.pagesPerBlock ==> FewOwners(t, b, p))
  }

  ghost predicate FewOwners(t: Tables, b: nat, p: nat) {
    PageIsValid(t, b, p) && b < |t.owners| && p < |t.owners[b]| ==> |t.owners[b][p]| <= 1
  }

  /** After `n` exhausted blocks the reserve is block `n + 1`, and it and all after it are blank. */
  ghost predicate ReserveFresh(t: Tables, g: Geometry, active: nat, reserve: nat, n: nat) {
    n + 2 <= g.totalBlocks ==>
      && reserve == n + 1 && active < reserve
      && forall b :: reserve <= b < g.totalBlocks ==> BlankFrom(t, b, 0)
  }

  lemma RawDetach(t: Tables, lba: nat, g: Geometry)
    requires Shaped(t, g) && lba < g.lbas && RawState(t, {}, g) && OwnersExact(t, {}, g)
    ensures RawState(Detached(t, lba), {lba}, g)
  {
    hide BlocksOk, EntryOk;
    var t' := Detached(t, lba);
    forall i | 0 <= i < |t'.table| && Live(t', {lba}, i)
      ensures PageIsValid(t', t'.table[i].blockIdx, t'.table[i].pageIdx)
    {
      assert Live(t, {}, i);
      var e := t.table[lba];
      if Mapped(e) && t.table[i].blockIdx == e.blockIdx && t.table[i].pageIdx == e.pageIdx {
        assert EntryBounds(t, g, lba) by { EntryInBounds(t, g, lba); }
        assert PageOwnersExact(t, {}, e.blockIdx, e.pageIdx) && FewOwners(t, e.blockIdx, e.pageIdx);
        TwoOwners(t, e.blockIdx, e.pageIdx, lba, i);
        assert false;
      }
    }
    forall b, p | 0 <= b < g.totalBlocks && 0 <= p < g.pagesPerBlock ensures FewOwners(t', b, p) {
      assert FewOwners(t, b, p);
      DetachedFlags(t, lba, b, p);
    }
  }

  ghost predicate EntryBounds(t: Tables, g: Geometry, i: nat)
    requires i < |t.table|
  {
    t.table[i].blockIdx < g.totalBlocks && t.table[i].pageIdx < g.pagesPerBlock
  }

  lemma EntryInBounds(t: Tables, g: Geometry, i: nat)
    requires Shaped(t, g) && i < |t.table| && Mapped(t.table[i])
    ensures EntryBounds(t, g, i)
  {
    hide BlocksOk;
    assert EntryOk(t.table[i], g);
  }

  /** Two live blocks on one valid page are two owners. */
  lemma TwoOwners(t: Tables, b: nat, p: nat, i: nat, j: nat)
    requires i < |t.table| && j < |t.table| && i != j && Live(t, {}, i) && Live(t, {}, j)
    requires PointsAt(t.table[i], b, p) && PointsAt(t.table[j], b, p)
    requires b < |t.owners| && p < |t.owners[b]| && ListExact(t, {}, b, p, t.owners[b][p])
    ensures |t.owners[b][p]| >= 2
  {
    var list := t.owners[b][p];
    assert Owns(list, i) && Owns(list, j);
  }

  lemma RawProgram(t: Tables, pending: set<nat>, b: nat, p: nat, data: seq<byte>, g: Geometry)
    requires Shaped(t, g) && b < g.totalBlocks && p < g.pagesPerBlock
    requires b < |t.blocks| && p < |t.blocks[b].pages| == |t.blocks[b].pageValid|
    requires b < |t.owners| && p < |t.owners[b]| && t.owners[b][p] == []
    requires RawState(t, pending, g)
    ensures RawState(WithPage(t, b, p, data), pending, g)
  {
    hide BlocksOk, EntryOk;
    var t' := WithPage(t, b, p, data);
    forall i | 0 <= i < |t'.table| && Live(t', pending, i)
      ensures PageIsValid(t', t'.table[i].blockIdx, t'.table[i].pageIdx)
    {
      assert Live(t, pending, i);
    }
    forall b', p' | 0 <= b' < g.totalBlocks && 0 <= p' < g.pagesPerBlock ensures FewOwners(t', b', p') {
      assert FewOwners(t, b', p');
    }
  }

  lemma RawAttach(t: Tables, i: nat, e: MappingEntry, g: Geometry)
    requires Shaped(t, g) && i < g.lbas && EntryOk(e, g) && Mapped(e)
    requires RawState(t, {i}, g)
    requires e.blockIdx < |t.owners| && e.pageIdx < |t.owners[e.blockIdx]|
    requires t.owners[e.blockIdx][e.pageIdx] == [] && PageIsValid(t, e.blockIdx, e.pageIdx)
    ensures RawState(Attached(t, i, e), {}, g)
  {
    hide BlocksOk, EntryOk;
    var t' := Attached(t, i, e);
    forall j | 0 <= j < |t'.table| && Live(t', {}, j)
      ensures PageIsValid(t', t'.table[j].blockIdx, t'.table[j].pageIdx)
    {
      assert j != i ==> Live(t, {i}, j);
    }
    forall b, p | 0 <= b < g.totalBlocks && 0 <= p < g.pagesPerBlock ensures FewOwners(t', b, p) {
      assert FewOwners(t, b, p);
    }
  }

  lemma RawZero(t: Tables, lba: nat, g: Geometry)
    requires lba < |t.table| && RawState(t, {lba}, g)
    ensures RawState(Zeroed(t, lba), {}, g)
  {
    var t' := Zeroed(t, lba);
    forall j | 0 <= j < |t'.table| && Live(t', {}, j)
      ensures PageIsValid(t', t'.table[j].blockIdx, t'.table[j].pageIdx)
    {
      assert Live(t, {lba}, j);
    }
    forall b, p | 0 <= b < g.totalBlocks && 0 <= p < g.pagesPerBlock ensures FewOwners(t', b, p) {
      assert FewOwners(t, b, p);
    }
  }

  lemma RawMove(t: Tables, t': Tables, pending: set<nat>, v: nat, p: nat, r: nat, w: nat, g: Geometry)
    requires v < |t.owners| && p < |t.owners[v]| && r < |t.owners| && w < |t.owners[r]| && v != r
    requires v < g.totalBlocks && p < g.pagesPerBlock
    requires t' == t.(table := t'.table, owners := OwnersMoved(t.owners, v, p, r, w))
    requires Repointed(t.table, t'.table, t.owners[v][p], r, w)
    requires PageIsValid(t, v, p) && PageIsValid(t, r, w)
    requires RawState(t, pending, g)
    ensures RawState(t', pending, g)
  {
    hide Owns;
    forall i | 0 <= i < |t'.table| && Live(t', pending, i)
      ensures PageIsValid(t', t'.table[i].blockIdx, t'.table[i].pageIdx)
    {
      assert Live(t, pending, i);
    }
    assert FewOwners(t, v, p);
    forall b, q | 0 <= b < g.totalBlocks && 0 <= q < g.pagesPerBlock ensures FewOwners(t', b, q) {
      assert FewOwners(t, b, q);
    }
  }

  lemma RawClear(t: Tables, pending: set<nat>, v: nat, p: nat, g: Geometry)
    requires v < |t.owners| && p < |t.owners[v]| && RawState(t, pending, g)
    ensures RawState(t.(owners := t.owners[v := t.owners[v][p := []]]), pending, g)
  {
    var t' := t.(owners := t.owners[v := t.owners[v][p := []]]);
    forall i | 0 <= i < |t'.table| && Live(t', pending, i)
      ensures PageIsValid(t', t'.table[i].blockIdx, t'.table[i].pageIdx)
    {
      assert Live(t, pending, i);
    }
    forall b, q | 0 <= b < g.totalBlocks && 0 <= q < g.pagesPerBlock ensures FewOwners(t', b, q) {
      assert FewOwners(t, b, q);
    }
  }

  lemma RawErase(t: Tables, pending: set<nat>, v: nat, g: Geometry)
    requires v < |t.blocks| && v < |t.owners| && Abandoned(t, pending, v) && RawState(t, pending, g)
    ensures RawState(WithErased(t, v, g.pagesPerBlock), pending, g)
  {
    var t' := WithErased(t, v, g.pagesPerBlock);
    forall i | 0 <= i < |t'.table| && Live(t', pending, i)
      ensures PageIsValid(t', t'.table[i].blockIdx, t'.table[i].pageIdx)
    {
      assert Live(t, pending, i);
    }
    forall b, q | 0 <= b < g.totalBlocks && 0 <= q < g.pagesPerBlock ensures FewOwners(t', b, q) {
      assert FewOwners(t, b, q);
    }
  }

  /** A block with a stale page is not blank. */
  lemma StaleNotBlank(t: Tables, g: Geometry, b: nat)
    requires Shaped(t, g) && b < g.totalBlocks && BlankFrom(t, b, 0)
    ensures t.blocks[b].invalidPageCount == 0
  {
    assert BlockOk(t.blocks[b], g.pagesPerBlock);
    StaleCountZero(t.blocks[b], g.pagesPerBlock);
  }
}
