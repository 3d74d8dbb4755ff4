/**
 * The NAND array: pages that can be programmed once between erases, a validity flag per
 * page, and a count of stale pages per block that garbage collection relies on.
 */
module FlashModel {
  import opened Bytes

  const PAGE_SIZE := 4096

  datatype PhysicalPage = PhysicalPage(isProgrammed: bool, data: seq<byte>)

  datatype FlashBlock = FlashBlock(eraseCount: nat, invalidPageCount: nat,
                                   pages: seq<PhysicalPage>, pageValid: seq<bool>)

  /** Programmed pages that are no longer valid, among the first `n`. */
  function StaleCount(blk: FlashBlock, n: nat): (c: nat)
    requires n <= |blk.pages| == |blk.pageValid|
    ensures c <= n
  {
    if n == 0 then 0
    else StaleCount(blk, n - 1) + if blk.pages[n - 1].isProgrammed && !blk.pageValid[n - 1] then 1 else 0
  }

  ghost predicate BlockOk(blk: FlashBlock, pagesPerBlock: nat) {
    && |blk.pages| == |blk.pageValid| == pagesPerBlock
    && (forall p :: 0 <= p < pagesPerBlock ==> |blk.pages[p].data| == PAGE_SIZE)
    && (forall p :: 0 <= p < pagesPerBlock && blk.pageValid[p] ==> blk.pages[p].isProgrammed)
    && blk.invalidPageCount == StaleCount(blk, pagesPerBlock)
  }

  ghost predicate BlocksOk(blocks: seq<FlashBlock>, totalBlocks: nat, pagesPerBlock: nat) {
    && |blocks| == totalBlocks
    && forall b :: 0 <= b < totalBlocks ==> BlockOk(blocks[b], pagesPerBlock)
  }

  /** The counts depend on the flags only, page by page. */
  lemma {:induction false} StaleCountSame(a: FlashBlock, b: FlashBlock, n: nat)
    requires n <= |a.pages| == |a.pageValid| && n <= |b.pages| == |b.pageValid|
    requires forall p :: 0 <= p < n ==>
               (a.pages[p].isProgrammed && !a.pageValid[p]) == (b.pages[p].isProgrammed && !b.pageValid[p])
    ensures StaleCount(a, n) == StaleCount(b, n)
  {
    if n > 0 {
      StaleCountSame(a, b, n - 1);
    }
  }

  /** One page more is stale. */
  lemma {:induction false} StaleCountMore(a: FlashBlock, b: FlashBlock, n: nat, q: nat)
    requires q < n <= |a.pages| == |a.pageValid| && n <= |b.pages| == |b.pageValid|
    requires forall p :: 0 <= p < n && p != q ==>
               (a.pages[p].isProgrammed && !a.pageValid[p]) == (b.pages[p].isProgrammed && !b.pageValid[p])
    requires !(a.pages[q].isProgrammed && !a.pageValid[q]) && b.pages[q].isProgrammed && !b.pageValid[q]
    ensures StaleCount(b, n) == StaleCount(a, n) + 1
    decreases n
  {
    if q == n - 1 {
      StaleCountSame(a, b, n - 1);
    } else {
      StaleCountMore(a, b, n - 1, q);
    }
  }

  lemma {:induction false} StaleCountZero(blk: FlashBlock, n: nat)
    requires n <= |blk.pages| == |blk.pageValid|
    ensures StaleCount(blk, n) == 0 <==> forall p :: 0 <= p < n ==> !(blk.pages[p].isProgrammed && !blk.pageValid[p])
  {
    if n > 0 {
      StaleCountZero(blk, n - 1);
    }
  }

  // ---------------------------------------------------------------- the operations on one block

  /** A block before its first use. */
  function BlankBlock(pagesPerBlock: nat): (blk: FlashBlock) {
    FlashBlock(0, 0, seq(pagesPerBlock, _ => PhysicalPage(false, Fill(0, PAGE_SIZE))), seq(pagesPerBlock, _ => false))
  }

  function Programmed(blk: FlashBlock, p: nat, src: seq<byte>): (r: FlashBlock)
    requires p < |blk.pages| == |blk.pageValid|
  {
    blk.(pages := blk.pages[p := PhysicalPage(true, src)], pageValid := blk.pageValid[p := true])
  }

  function Invalidated(blk: FlashBlock, p: nat): (r: FlashBlock)
    requires p < |blk.pageValid|
  {
    if blk.pageValid[p] then
      blk.(pageValid := blk.pageValid[p := false], invalidPageCount := blk.invalidPageCount + 1)
    else blk
  }

  function Erased(blk: FlashBlock, pagesPerBlock: nat): (r: FlashBlock) {
    FlashBlock(blk.eraseCount + 1, 0,
               seq(pagesPerBlock, _ => PhysicalPage(false, Fill(0xFF, PAGE_SIZE))), seq(pagesPerBlock, _ => false))
  }

  lemma ProgrammedOk(blk: FlashBlock, p: nat, src: seq<byte>, pagesPerBlock: nat)
    requires BlockOk(blk, pagesPerBlock) && p < pagesPerBlock && |src| == PAGE_SIZE
    requires !blk.pages[p].isProgrammed
    ensures BlockOk(Programmed(blk, p, src), pagesPerBlock)
  {
    StaleCountSame(blk, Programmed(blk, p, src), pagesPerBlock);
  }

  lemma InvalidatedOk(blk: FlashBlock, p: nat, pagesPerBlock: nat)
    requires BlockOk(blk, pagesPerBlock) && p < pagesPerBlock
    ensures BlockOk(Invalidated(blk, p), pagesPerBlock)
  {
    if blk.pageValid[p] {
      StaleCountMore(blk, Invalidated(blk, p), pagesPerBlock, p);
    }
  }

  lemma ErasedOk(blk: FlashBlock, pagesPerBlock: nat)
    ensures BlockOk(Erased(blk, pagesPerBlock), pagesPerBlock)
  {
    StaleCountZero(Erased(blk, pagesPerBlock), pagesPerBlock);
  }

  // ---------------------------------------------------------------- the array

  class Flash {
    const totalBlocks: nat
    const pagesPerBlock: nat
    var blocks: seq<FlashBlock>
    var totalPagesProgrammed: nat
    var totalPagesRead: nat
    var totalBlocksErased: nat

    ghost predicate Valid()
      reads `blocks
    {
      BlocksOk(blocks, totalBlocks, pagesPerBlock)
    }

    constructor (totalBlocks: nat, pagesPerBlock: nat)
      ensures this.totalBlocks == totalBlocks && this.pagesPerBlock == pagesPerBlock
      ensures Valid() && totalPagesProgrammed == totalPagesRead == totalBlocksErased == 0
      ensures blocks == seq(totalBlocks, _ => BlankBlock(pagesPerBlock))
    {
      var blank := BlankBlock(pagesPerBlock);
      StaleCountZero(blank, pagesPerBlock);
      this.totalBlocks, this.pagesPerBlock := totalBlocks, pagesPerBlock;
      blocks := seq(totalBlocks, _ => blank);
      totalPagesProgrammed, totalPagesRead, totalBlocksErased := 0, 0, 0;
    }

    /** A programmed page cannot be programmed again without an erase. */
    method ProgramPage(b: nat, p: nat, src: seq<byte>) returns (ok: bool)
      requires Valid() && |src| == PAGE_SIZE
      modifies `blocks, `totalPagesProgrammed
      ensures Valid()
      ensures ok <==> b < totalBlocks && p < pagesPerBlock && !old(blocks[b].pages[p].isProgrammed)
      ensures blocks == if ok then old(blocks)[b := Programmed(old(blocks[b]), p, src)] else old(blocks)
      ensures totalPagesProgrammed == old(totalPagesProgrammed) + if ok then 1 else 0
    {
      if b >= |blocks| || p >= pagesPerBlock || blocks[b].pages[p].isProgrammed {
        return false;
      }
      ProgrammedOk(blocks[b], p, src, pagesPerBlock);
      blocks := blocks[b := Programmed(blocks[b], p, src)];
      totalPagesProgrammed := totalPagesProgrammed + 1;
      ok := true;
    }

    /** An unprogrammed page reads as 0xFF. */
    method ReadPage(b: nat, p: nat) returns (ok: bool, dest: seq<byte>)
      requires Valid()
      modifies `totalPagesRead
      ensures ok <==> b < totalBlocks && p < pagesPerBlock
      ensures ok ==> dest == if blocks[b].pages[p].isProgrammed then blocks[b].pages[p].data else Fill(0xFF, PAGE_SIZE)
      ensures ok ==> |dest| == PAGE_SIZE
      ensures totalPagesRead == old(totalPagesRead) + if ok then 1 else 0
    {
      if b >= |blocks| || p >= pagesPerBlock {
        return false, [];
      }
      dest := if blocks[b].pages[p].isProgrammed then blocks[b].pages[p].data else Fill(0xFF, PAGE_SIZE);
      totalPagesRead := totalPagesRead + 1;
      ok := true;
    }

    method EraseBlock(b: nat) returns (ok: bool)
      requires Valid()
      modifies `blocks, `totalBlocksErased
      ensures Valid() && (ok <==> b < totalBlocks)
      ensures blocks == if ok then old(blocks)[b := Erased(old(blocks[b]), pagesPerBlock)] else old(blocks)
      ensures totalBlocksErased == old(totalBlocksErased) + if ok then 1 else 0
    {
      if b >= |blocks| {
        return false;
      }
      ErasedOk(blocks[b], pagesPerBlock);
      blocks := blocks[b := Erased(blocks[b], pagesPerBlock)];
      totalBlocksErased := totalBlocksErased + 1;
      ok := true;
    }

    /** Invalidating a page twice counts once. */
    method InvalidatePage(b: nat, p: nat)
      requires Valid()
      modifies `blocks
      ensures Valid()
      ensures blocks == if b < totalBlocks && p < pagesPerBlock then old(blocks)[b := Invalidated(old(blocks[b]), p)]
                        else old(blocks)
    {
      if b >= |blocks| || p >= pagesPerBlock {
        return;
      }
      InvalidatedOk(blocks[b], p, pagesPerBlock);
      blocks := blocks[b := Invalidated(blocks[b], p)];
    }
  }
}
