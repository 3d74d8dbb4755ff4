/**
 * The elementary changes to the tables, and why each keeps contents and owner lists right.
 * A write first detaches its block, then stores it somewhere and attaches it again;
 * garbage collection programs, moves and erases.
 */
module FtlSteps {
  import opened Bytes
  import opened FlashModel
  import opened Lz4Encoder
  import opened Lz4Compressor
  import opened FtlState

  // ---------------------------------------------------------------- detaching

  /** The write to `lba` starts: its page goes stale, and a staged version is dropped. */
  function Detached(t: Tables, lba: nat): (r: Tables)
    requires lba < |t.table|
  {
    var e := t.table[lba];
    var blocks :=
      if Mapped(e) && e.blockIdx < |t.blocks| && e.pageIdx < |t.blocks[e.blockIdx].pageValid|
      then t.blocks[e.blockIdx := Invalidated(t.blocks[e.blockIdx], e.pageIdx)] else t.blocks;
    t.(blocks := blocks, staged := if IsStaged(t, lba) then None else t.staged)
  }

  lemma DetachShaped(t: Tables, lba: nat, g: Geometry)
    requires Shaped(t, g) && lba < g.lbas
    ensures Shaped(Detached(t, lba), g)
  {
    var e := t.table[lba];
    assert EntryOk(e, g);
    if Mapped(e) {
      InvalidatedOk(t.blocks[e.blockIdx], e.pageIdx, g.pagesPerBlock);
    }
  }

  lemma DetachCorrect(t: Tables, pending: set<nat>, lba: nat, g: Geometry, contents: seq<seq<byte>>)
    requires Shaped(t, g) && lba < g.lbas && Correct(t, pending, contents)
    ensures Correct(Detached(t, lba), pending + {lba}, contents)
  {
    hide Encodes, PageHolds, StagedHolds, BlocksOk;
    var t' := Detached(t, lba);
    forall i | 0 <= i < |contents| ensures LbaCorrect(t', pending + {lba}, contents, i) {
      assert LbaCorrect(t, pending, contents, i);
      SamePage(t, lba, i);
    }
  }

  lemma SamePage(t: Tables, lba: nat, i: nat)
    requires lba < |t.table| && i < |t.table|
    ensures forall c :: Holds(t.table[i], t.blocks, c) ==> Holds(t.table[i], Detached(t, lba).blocks, c)
  {
    hide PageHolds;
  }

  lemma DetachOwners(t: Tables, pending: set<nat>, lba: nat, g: Geometry)
    requires Shaped(t, g) && lba < g.lbas && OwnersExact(t, pending, g)
    ensures OwnersExact(Detached(t, lba), pending + {lba}, g)
  {
    hide BlocksOk;
    var t' := Detached(t, lba);
    forall b, p | 0 <= b < g.totalBlocks && 0 <= p < g.pagesPerBlock
      ensures PageOwnersExact(t', pending + {lba}, b, p)
    {
      assert PageOwnersExact(t, pending, b, p);
      DetachedFlags(t, lba, b, p);
      if PageIsValid(t', b, p) {
        assert EntryOk(t.table[lba], g);
        DetachList(t, pending, lba, b, p, t.owners[b][p]);
      }
    }
  }

  lemma DetachedFlags(t: Tables, lba: nat, b: nat, p: nat)
    requires lba < |t.table|
    ensures PageIsProgrammed(Detached(t, lba), b, p) == PageIsProgrammed(t, b, p)
    ensures PageIsValid(Detached(t, lba), b, p) ==> PageIsValid(t, b, p)
    ensures PageIsValid(Detached(t, lba), b, p) ==> !PointsAt(t.table[lba], b, p)
  {
  }

  lemma DetachList(t: Tables, pending: set<nat>, lba: nat, b: nat, p: nat, list: seq<PageOwner>)
    requires lba < |t.table| && !PointsAt(t.table[lba], b, p) && ListExact(t, pending, b, p, list)
    ensures ListExact(Detached(t, lba), pending + {lba}, b, p, list)
  {
    var t' := Detached(t, lba);
    forall i | 0 <= i < |t.table| && PointsAt(t.table[i], b, p)
      ensures Live(t, pending, i) == Live(t', pending + {lba}, i)
    {
    }
  }

  // ---------------------------------------------------------------- programming

  function WithPage(t: Tables, b: nat, p: nat, data: seq<byte>): (r: Tables)
    requires b < |t.blocks| && p < |t.blocks[b].pages| == |t.blocks[b].pageValid|
  {
    t.(blocks := t.blocks[b := Programmed(t.blocks[b], p, data)])
  }

  lemma ProgramShaped(t: Tables, b: nat, p: nat, data: seq<byte>, g: Geometry)
    requires Shaped(t, g) && b < g.totalBlocks && p < g.pagesPerBlock && |data| == PAGE_SIZE
    requires !PageIsProgrammed(t, b, p)
    ensures Shaped(WithPage(t, b, p, data), g)
  {
    assert BlockOk(t.blocks[b], g.pagesPerBlock);
    ProgrammedOk(t.blocks[b], p, data, g.pagesPerBlock);
  }

  /** Programming a blank page disturbs no contents. */
  lemma ProgramCorrect(t: Tables, pending: set<nat>, b: nat, p: nat, data: seq<byte>, contents: seq<seq<byte>>)
    requires b < |t.blocks| && p < |t.blocks[b].pages| == |t.blocks[b].pageValid|
    requires !PageIsProgrammed(t, b, p) && Correct(t, pending, contents)
    ensures Correct(WithPage(t, b, p, data), pending, contents)
  {
    hide Encodes, StagedHolds;
    var t' := WithPage(t, b, p, data);
    forall i | 0 <= i < |contents| ensures LbaCorrect(t', pending, contents, i) {
      assert LbaCorrect(t, pending, contents, i);
    }
  }

  /** A live block is on a programmed page. */
  lemma LiveProgrammed(t: Tables, pending: set<nat>, contents: seq<seq<byte>>, i: nat)
    requires Correct(t, pending, contents) && i < |t.table| && Live(t, pending, i)
    ensures PageIsProgrammed(t, t.table[i].blockIdx, t.table[i].pageIdx)
  {
    hide Encodes;
    assert LbaCorrect(t, pending, contents, i);
  }

  lemma ProgramOwners(t: Tables, pending: set<nat>, b: nat, p: nat, data: seq<byte>, g: Geometry,
                      contents: seq<seq<byte>>)
    requires Shaped(t, g) && b < g.totalBlocks && p < g.pagesPerBlock
    requires !PageIsProgrammed(t, b, p) && Consistent(t, pending, g, contents)
    ensures |t.blocks[b].pages| == |t.blocks[b].pageValid| == g.pagesPerBlock
    ensures OwnersExact(WithPage(t, b, p, data), pending, g)
  {
    hide Encodes, Correct, Mapped;
    assert BlockOk(t.blocks[b], g.pagesPerBlock);
    var t' := WithPage(t, b, p, data);
    forall b', p' | 0 <= b' < g.totalBlocks && 0 <= p' < g.pagesPerBlock ensures PageOwnersExact(t', pending, b', p') {
      assert PageOwnersExact(t, pending, b', p');
      if b' == b && p' == p {
        forall i | 0 <= i < |t.table| && Live(t, pending, i) ensures !PointsAt(t.table[i], b, p) {
          LiveProgrammed(t, pending, contents, i);
        }
      }
      assert PageIsValid(t', b', p') ==> PageIsValid(t, b', p') || (b' == b && p' == p);
      assert PageIsValid(t, b', p') ==> ListExact(t', pending, b', p', t.owners[b'][p']) by {
        if PageIsValid(t, b', p') {
          SameList(t, t', pending, b', p', t.owners[b'][p']);
        }
      }
    }
  }

  /** Exactness of a list is about the table only. */
  lemma SameList(t: Tables, t': Tables, pending: set<nat>, b: nat, p: nat, list: seq<PageOwner>)
    requires t'.table == t.table && t'.staged == t.staged && ListExact(t, pending, b, p, list)
    ensures ListExact(t', pending, b, p, list)
  {
    forall i | 0 <= i < |t.table| ensures Live(t, pending, i) == Live(t', pending, i) {
    }
  }

  // ---------------------------------------------------------------- attaching

  function Reattached(pending: set<nat>, i: nat): (r: set<nat>) {
    pending - {i}
  }

  /** Block `i` now lives on page `(b, p)`, which already holds its contents. */
  function Attached(t: Tables, i: nat, e: MappingEntry): (r: Tables)
    requires i < |t.table| && e.blockIdx < |t.owners| && e.pageIdx < |t.owners[e.blockIdx]|
  {
    var list := t.owners[e.blockIdx][e.pageIdx] + [PageOwner(i, e.subSlot)];
    t.(table := t.table[i := e],
       owners := t.owners[e.blockIdx := t.owners[e.blockIdx][e.pageIdx := list]],
       staged := if IsStaged(t, i) then None else t.staged)
  }

  lemma AttachShaped(t: Tables, i: nat, e: MappingEntry, g: Geometry)
    requires Shaped(t, g) && i < g.lbas && EntryOk(e, g) && Mapped(e)
    ensures Shaped(Attached(t, i, e), g)
  {
    hide BlocksOk;
  }

  lemma AttachCorrect(t: Tables, pending: set<nat>, i: nat, e: MappingEntry, c: seq<byte>, contents: seq<seq<byte>>)
    requires Correct(t, pending, contents) && i < |contents|
    requires e.blockIdx < |t.owners| && e.pageIdx < |t.owners[e.blockIdx]|
    requires IsStaged(t, i) || i in pending
    requires i in pending ==> !IsStaged(t, i)
    requires Mapped(e) && Holds(e, t.blocks, c)
    ensures Correct(Attached(t, i, e), Reattached(pending, i), contents[i := c])
  {
    hide Encodes, PageHolds, StagedHolds;
    var t', pending', contents' := Attached(t, i, e), Reattached(pending, i), contents[i := c];
    forall j | 0 <= j < |contents| ensures LbaCorrect(t', pending', contents', j) {
      assert LbaCorrect(t, pending, contents, j);
    }
  }

  lemma AttachOwners(t: Tables, pending: set<nat>, i: nat, e: MappingEntry, g: Geometry)
    requires Shaped(t, g) && i < g.lbas && EntryOk(e, g) && Mapped(e)
    requires OwnersExact(t, pending, g)
    requires IsStaged(t, i) || i in pending
    requires PageIsProgrammed(t, e.blockIdx, e.pageIdx)
    ensures OwnersExact(Attached(t, i, e), Reattached(pending, i), g)
  {
    assert EntryOk(e, g) && BlocksOk(t.blocks, g.totalBlocks, g.pagesPerBlock);
    hide BlocksOk, EntryOk, ListExact;
    var t', pending' := Attached(t, i, e), Reattached(pending, i);
    forall b, p | 0 <= b < g.totalBlocks && 0 <= p < g.pagesPerBlock ensures PageOwnersExact(t', pending', b, p) {
      assert PageOwnersExact(t, pending, b, p);
      if PageIsValid(t, b, p) {
        AttachList(t, pending, i, e, b, p, t.owners[b][p]);
      }
    }
  }

  lemma AttachList(t: Tables, pending: set<nat>, i: nat, e: MappingEntry, b: nat, p: nat, list: seq<PageOwner>)
    requires i < |t.table| && e.blockIdx < |t.owners| && e.pageIdx < |t.owners[e.blockIdx]| && Mapped(e)
    requires IsStaged(t, i) || i in pending
    requires ListExact(t, pending, b, p, list)
    ensures ListExact(Attached(t, i, e), Reattached(pending, i), b, p,
                      if PointsAt(e, b, p) then list + [PageOwner(i, e.subSlot)] else list)
  {
    var t', pending' := Attached(t, i, e), Reattached(pending, i);
    var list' := if PointsAt(e, b, p) then list + [PageOwner(i, e.subSlot)] else list;
    forall j | 0 <= j < |t.table| && Live(t', pending', j) && PointsAt(t'.table[j], b, p) ensures Owns(list', j) {
      if j == i {
        assert list'[|list|].lba == i;
      } else {
        assert Live(t, pending, j);
        var k :| 0 <= k < |list| && list[k].lba == j;
        assert list'[k].lba == j;
      }
    }
    forall k | 0 <= k < |list'|
      ensures list'[k].lba < |t'.table| && Live(t', pending', list'[k].lba) && PointsAt(t'.table[list'[k].lba], b, p)
    {
      if k < |list| {
        assert Live(t, pending, list[k].lba);
      }
    }
  }

  // ---------------------------------------------------------------- zero blocks and staging

  function Zeroed(t: Tables, lba: nat): (r: Tables)
    requires lba < |t.table|
  {
    t.(table := t.table[lba := t.table[lba].(state := SparseZeroState, compressedSize := 0)])
  }

  function Staged(t: Tables, s: StagedHalfPage): (r: Tables) {
    t.(staged := Some(s))
  }

  lemma ZeroConsistent(t: Tables, pending: set<nat>, lba: nat, g: Geometry, contents: seq<seq<byte>>)
    requires Shaped(t, g) && lba < g.lbas && lba in pending && !IsStaged(t, lba)
    requires Consistent(t, pending, g, contents)
    ensures Consistent(Zeroed(t, lba), pending - {lba}, g, contents[lba := ZeroBlock()])
  {
    hide Encodes, PageHolds, StagedHolds, BlocksOk, EntryOk;
    var t', contents' := Zeroed(t, lba), contents[lba := ZeroBlock()];
    forall j | 0 <= j < |contents| ensures LbaCorrect(t', pending - {lba}, contents', j) {
      assert LbaCorrect(t, pending, contents, j);
    }
    forall b, p | 0 <= b < g.totalBlocks && 0 <= p < g.pagesPerBlock
      ensures PageOwnersExact(t', pending - {lba}, b, p)
    {
      assert PageOwnersExact(t, pending, b, p);
      if PageIsValid(t, b, p) {
        SameLive(t, pending, t', pending - {lba}, b, p, t.owners[b][p]);
      }
    }
  }

  lemma StageConsistent(t: Tables, pending: set<nat>, s: StagedHalfPage, g: Geometry, contents: seq<seq<byte>>,
                        c: seq<byte>)
    requires Shaped(t, g) && s.lba < g.lbas && s.lba in pending && t.staged.None?
    requires Consistent(t, pending, g, contents) && StagedHolds(s, c)
    ensures Consistent(Staged(t, s), pending - {s.lba}, g, contents[s.lba := c])
  {
    hide Encodes, PageHolds, StagedHolds, BlocksOk, EntryOk;
    var t', contents' := Staged(t, s), contents[s.lba := c];
    forall j | 0 <= j < |contents| ensures LbaCorrect(t', pending - {s.lba}, contents', j) {
      assert LbaCorrect(t, pending, contents, j);
    }
    forall b, p | 0 <= b < g.totalBlocks && 0 <= p < g.pagesPerBlock
      ensures PageOwnersExact(t', pending - {s.lba}, b, p)
    {
      assert PageOwnersExact(t, pending, b, p);
      if PageIsValid(t, b, p) {
        SameLive(t, pending, t', pending - {s.lba}, b, p, t.owners[b][p]);
      }
    }
  }

  /** Exactness of a list is about which live blocks point at the page. */
  lemma SameLive(t: Tables, pending: set<nat>, t': Tables, pending': set<nat>, b: nat, p: nat, list: seq<PageOwner>)
    requires |t.table| == |t'.table|
    requires forall i :: 0 <= i < |t.table| ==>
               (Live(t, pending, i) && PointsAt(t.table[i], b, p) <==>
                   Live(t', pending', i) && PointsAt(t'.table[i], b, p))
    requires ListExact(t, pending, b, p, list)
    ensures ListExact(t', pending', b, p, list)
  {
    hide Live, PointsAt;
    forall k | 0 <= k < |list|
      ensures list[k].lba < |t'.table| && Live(t', pending', list[k].lba) && PointsAt(t'.table[list[k].lba], b, p)
    {
      assert Live(t, pending, list[k].lba);
    }
    forall i | 0 <= i < |t'.table| && Live(t', pending', i) && PointsAt(t'.table[i], b, p) ensures Owns(list, i) {
      assert Live(t, pending, i) && PointsAt(t.table[i], b, p);
    }
  }

  // ---------------------------------------------------------------- moving a page

  /** Every block named in `list` has been re-pointed to page `(b, p)`. */
  ghost predicate Repointed(table: seq<MappingEntry>, table': seq<MappingEntry>, list: seq<PageOwner>, b: nat, p: nat) {
    && |table'| == |table|
    && forall i :: 0 <= i < |table| ==>
         table'[i] == if Owns(list, i) then table[i].(blockIdx := b, pageIdx := p) else table[i]
  }

  function OwnersMoved(owners: seq<seq<seq<PageOwner>>>, v: nat, p: nat, r: nat, w: nat): (o: seq<seq<seq<PageOwner>>>)
    requires v < |owners| && p < |owners[v]| && r < |owners| && w < |owners[r]| && v != r
  {
    owners[r := owners[r][w := owners[v][p]]][v := owners[v][p := []]]
  }

  lemma MoveShaped(t: Tables, t': Tables, v: nat, p: nat, r: nat, w: nat, g: Geometry)
    requires Shaped(t, g) && v < g.totalBlocks && r < g.totalBlocks && p < g.pagesPerBlock && w < g.pagesPerBlock
    requires v != r
    requires t' == t.(table := t'.table, owners := OwnersMoved(t.owners, v, p, r, w))
    requires Repointed(t.table, t'.table, t.owners[v][p], r, w)
    ensures Shaped(t', g)
  {
    hide BlocksOk, Owns;
  }

  lemma MoveCorrect(t: Tables, t': Tables, pending: set<nat>, v: nat, p: nat, r: nat, w: nat, contents: seq<seq<byte>>)
    requires v < |t.owners| && p < |t.owners[v]|
    requires Repointed(t.table, t'.table, t.owners[v][p], r, w) && t'.blocks == t.blocks && t'.staged == t.staged
    requires ListExact(t, pending, v, p, t.owners[v][p])
    requires PageIsProgrammed(t, v, p) && PageIsProgrammed(t, r, w)
    requires t.blocks[r].pages[w].data == t.blocks[v].pages[p].data
    requires Correct(t, pending, contents)
    ensures Correct(t', pending, contents)
  {
    hide Encodes, StagedHolds;
    var list := t.owners[v][p];
    forall i | 0 <= i < |contents| ensures LbaCorrect(t', pending, contents, i) {
      assert LbaCorrect(t, pending, contents, i);
      if Owns(list, i) {
        var k :| 0 <= k < |list| && list[k].lba == i;
        assert Live(t, pending, list[k].lba) && PointsAt(t.table[list[k].lba], v, p);
      }
    }
  }

  lemma MoveOwners(t: Tables, t': Tables, pending: set<nat>, v: nat, p: nat, r: nat, w: nat, g: Geometry)
    requires Shaped(t, g) && v < g.totalBlocks && r < g.totalBlocks && p < g.pagesPerBlock && w < g.pagesPerBlock
    requires v != r
    requires t' == t.(table := t'.table, owners := OwnersMoved(t.owners, v, p, r, w))
    requires Repointed(t.table, t'.table, t.owners[v][p], r, w)
    requires PageIsValid(t, v, p) && PageIsValid(t, r, w) && t.owners[r][w] == []
    requires PageIsProgrammed(t, v, p) && PageIsProgrammed(t, r, w)
    requires OwnersExact(t, pending, g)
    ensures OwnersExact(t', pending, g)
  {
    hide BlocksOk, EntryOk, Repointed, ListExact;
    assert PageOwnersExact(t, pending, v, p) && PageOwnersExact(t, pending, r, w);
    forall b, q | 0 <= b < g.totalBlocks && 0 <= q < g.pagesPerBlock ensures PageOwnersExact(t', pending, b, q) {
      assert PageOwnersExact(t, pending, b, q);
      if PageIsValid(t, b, q) {
        MoveList(t, t', pending, v, p, r, w, b, q);
      }
    }
  }

  lemma MoveList(t: Tables, t': Tables, pending: set<nat>, v: nat, p: nat, r: nat, w: nat, b: nat, q: nat)
    requires v < |t.owners| && p < |t.owners[v]| && r < |t.owners| && w < |t.owners[r]| && v != r
    requires b < |t.owners| && q < |t.owners[b]|
    requires t' == t.(table := t'.table, owners := OwnersMoved(t.owners, v, p, r, w))
    requires Repointed(t.table, t'.table, t.owners[v][p], r, w)
    requires t.owners[r][w] == []
    requires ListExact(t, pending, v, p, t.owners[v][p]) && ListExact(t, pending, r, w, [])
    requires ListExact(t, pending, b, q, t.owners[b][q])
    ensures ListExact(t', pending, b, q, t'.owners[b][q])
  {
    var list, list' := t.owners[v][p], t'.owners[b][q];
    forall i | 0 <= i < |t.table| ensures Live(t', pending, i) == Live(t, pending, i) {
    }
    forall i | 0 <= i < |t.table| && Owns(list, i) ensures Live(t, pending, i) && PointsAt(t.table[i], v, p) {
      var k :| 0 <= k < |list| && list[k].lba == i;
    }
    forall k | 0 <= k < |list'|
      ensures list'[k].lba < |t'.table| && Live(t', pending, list'[k].lba) && PointsAt(t'.table[list'[k].lba], b, q)
    {
      if b == r && q == w {
        assert Owns(list, list'[k].lba);
      } else {
        assert t.owners[b][q] == list';
        assert !Owns(list, list'[k].lba);
      }
    }
    forall i | 0 <= i < |t'.table| && Live(t', pending, i) && PointsAt(t'.table[i], b, q) ensures Owns(list', i) {
      if !Owns(list, i) {
        assert !PointsAt(t.table[i], v, p);
      }
    }
  }

  // ---------------------------------------------------------------- erasing

  function WithErased(t: Tables, v: nat, pagesPerBlock: nat): (r: Tables)
    requires v < |t.blocks| && v < |t.owners|
  {
    t.(blocks := t.blocks[v := Erased(t.blocks[v], pagesPerBlock)],
       owners := t.owners[v := seq(pagesPerBlock, _ => [])])
  }

  /** No block but the one being written needs anything on block `v`, from page `p` on. */
  ghost predicate Abandoned(t: Tables, pending: set<nat>, v: nat) {
    forall i :: 0 <= i < |t.table| && Live(t, pending, i) ==> t.table[i].blockIdx != v
  }

  lemma EraseShaped(t: Tables, v: nat, g: Geometry)
    requires Shaped(t, g) && v < g.totalBlocks
    ensures Shaped(WithErased(t, v, g.pagesPerBlock), g)
    ensures BlankFrom(WithErased(t, v, g.pagesPerBlock), v, 0)
  {
    ErasedOk(t.blocks[v], g.pagesPerBlock);
  }

  lemma EraseConsistent(t: Tables, pending: set<nat>, v: nat, g: Geometry, contents: seq<seq<byte>>)
    requires Shaped(t, g) && v < g.totalBlocks == |t.blocks| && Abandoned(t, pending, v)
    requires Consistent(t, pending, g, contents)
    ensures Consistent(WithErased(t, v, g.pagesPerBlock), pending, g, contents)
  {
    hide Encodes, PageHolds, StagedHolds, BlocksOk, EntryOk;
    var t' := WithErased(t, v, g.pagesPerBlock);
    forall i | 0 <= i < |contents| ensures LbaCorrect(t', pending, contents, i) {
      assert LbaCorrect(t, pending, contents, i);
    }
    forall b, p | 0 <= b < g.totalBlocks && 0 <= p < g.pagesPerBlock ensures PageOwnersExact(t', pending, b, p) {
      assert PageOwnersExact(t, pending, b, p);
      if b != v && PageIsValid(t, b, p) {
        SameList(t, t', pending, b, p, t.owners[b][p]);
      }
    }
  }
}
