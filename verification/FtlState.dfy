/**
 * What it means for the translation layer's tables to be right: where the contents of
 * each logical block is, who owns each valid page, and when garbage collection may run.
 */
module FtlState {
  import opened Bytes
  import opened FlashModel
  import opened Lz4Encoder
  import opened Lz4Compressor

  const HALF_PAGE := 2048

  datatype MappingState = Unmapped | SparseZeroState | CompressedHalfPage | RawFullPage

  datatype MappingEntry = MappingEntry(state: MappingState, blockIdx: nat, pageIdx: nat, subSlot: nat,
                                       compressedSize: nat)

  datatype PageOwner = PageOwner(lba: nat, subSlot: nat)

  /** A compressed half page waiting for a partner. */
  datatype StagedHalfPage = StagedHalfPage(lba: nat, compSize: nat, data: seq<byte>)

  datatype Geometry = Geometry(lbas: nat, totalBlocks: nat, pagesPerBlock: nat)

  /** The tables of the controller and the array under it. */
  datatype Tables = Tables(table: seq<MappingEntry>, blocks: seq<FlashBlock>,
                           owners: seq<seq<seq<PageOwner>>>, staged: Option<StagedHalfPage>)

  // ---------------------------------------------------------------- shape

  predicate Mapped(e: MappingEntry) {
    e.state == CompressedHalfPage || e.state == RawFullPage
  }

  predicate EntryOk(e: MappingEntry, g: Geometry) {
    && (Mapped(e) ==> e.blockIdx < g.totalBlocks && e.pageIdx < g.pagesPerBlock)
    && (e.state == CompressedHalfPage ==> e.subSlot <= 1 && e.compressedSize <= HALF_PAGE)
  }

  predicate StagedOk(s: StagedHalfPage, g: Geometry) {
    s.lba < g.lbas && s.compSize <= HALF_PAGE == |s.data|
  }

  ghost predicate OwnersShaped(owners: seq<seq<seq<PageOwner>>>, g: Geometry) {
    |owners| == g.totalBlocks && forall b :: 0 <= b < g.totalBlocks ==> |owners[b]| == g.pagesPerBlock
  }

  /** Holds in every state, whatever has gone wrong before. */
  ghost predicate Shaped(t: Tables, g: Geometry) {
    && g.totalBlocks >= 2 && g.pagesPerBlock >= 1
    && |t.table| == g.lbas
    && (forall i :: 0 <= i < g.lbas ==> EntryOk(t.table[i], g))
    && BlocksOk(t.blocks, g.totalBlocks, g.pagesPerBlock)
    && OwnersShaped(t.owners, g)
    && (t.staged.Some? ==> StagedOk(t.staged.value, g))
  }

  // ---------------------------------------------------------------- contents

  predicate PointsAt(e: MappingEntry, b: nat, p: nat) {
    Mapped(e) && e.blockIdx == b && e.pageIdx == p
  }

  function HalfOf(data: seq<byte>, subSlot: nat, size: nat): (r: seq<byte>)
    requires |data| == PAGE_SIZE && size <= HALF_PAGE
    ensures |r| == size
  {
    var offset := if subSlot == 0 then 0 else HALF_PAGE;
    data[offset..offset + size]
  }

  /** A page of the array holds the contents `c` that the entry describes. */
  ghost predicate PageHolds(e: MappingEntry, page: PhysicalPage, c: seq<byte>) {
    && page.isProgrammed && |page.data| == PAGE_SIZE
    && if e.state == RawFullPage then page.data == c
       else && e.compressedSize <= HALF_PAGE && |c| == PAGE_SIZE
            && Encodes(HalfOf(page.data, e.subSlot, e.compressedSize), c)
  }

  /** The entry leads to the contents `c`. */
  ghost predicate Holds(e: MappingEntry, blocks: seq<FlashBlock>, c: seq<byte>) {
    if Mapped(e) then
      e.blockIdx < |blocks| && e.pageIdx < |blocks[e.blockIdx].pages|
      && PageHolds(e, blocks[e.blockIdx].pages[e.pageIdx], c)
    else c == ZeroBlock()
  }

  ghost predicate StagedHolds(s: StagedHalfPage, c: seq<byte>) {
    s.compSize <= |s.data| && |c| == PAGE_SIZE && Encodes(s.data[..s.compSize], c)
  }

  predicate IsStaged(t: Tables, i: nat) {
    t.staged.Some? && t.staged.value.lba == i
  }

  /** `pending` is the block being overwritten by the write in progress, if any. */
  predicate Live(t: Tables, pending: set<nat>, i: nat)
    requires i < |t.table|
  {
    Mapped(t.table[i]) && !IsStaged(t, i) && i !in pending
  }

  ghost predicate LbaCorrect(t: Tables, pending: set<nat>, contents: seq<seq<byte>>, i: nat)
    requires i < |t.table| && i < |contents|
  {
    if i in pending then true
    else if IsStaged(t, i) then StagedHolds(t.staged.value, contents[i])
    else Holds(t.table[i], t.blocks, contents[i])
  }

  ghost predicate Correct(t: Tables, pending: set<nat>, contents: seq<seq<byte>>) {
    |t.table| == |contents| && forall i :: 0 <= i < |contents| ==> LbaCorrect(t, pending, contents, i)
  }

  // ---------------------------------------------------------------- owners

  ghost predicate Owns(list: seq<PageOwner>, i: nat) {
    exists k :: 0 <= k < |list| && list[k].lba == i
  }

  /** The owner list of a page names exactly the live blocks mapped to it. */
  ghost predicate ListExact(t: Tables, pending: set<nat>, b: nat, p: nat, list: seq<PageOwner>) {
    && (forall k :: 0 <= k < |list| ==>
          && list[k].lba < |t.table|
          && Live(t, pending, list[k].lba) && PointsAt(t.table[list[k].lba], b, p))
    && (forall i :: 0 <= i < |t.table| && Live(t, pending, i) && PointsAt(t.table[i], b, p) ==> Owns(list, i))
  }

  ghost predicate PageIsValid(t: Tables, b: nat, p: nat) {
    b < |t.blocks| && p < |t.blocks[b].pageValid| && t.blocks[b].pageValid[p]
  }

  ghost predicate PageIsProgrammed(t: Tables, b: nat, p: nat) {
    b < |t.blocks| && p < |t.blocks[b].pages| && t.blocks[b].pages[p].isProgrammed
  }

  ghost predicate PageOwnersExact(t: Tables, pending: set<nat>, b: nat, p: nat) {
    && b < |t.owners| && p < |t.owners[b]|
    && (PageIsValid(t, b, p) ==> ListExact(t, pending, b, p, t.owners[b][p]))
    && (!PageIsProgrammed(t, b, p) ==> t.owners[b][p] == [])
  }

  ghost predicate OwnersExact(t: Tables, pending: set<nat>, g: Geometry) {
    forall b, p :: 0 <= b < g.totalBlocks && 0 <= p < g.pagesPerBlock ==> PageOwnersExact(t, pending, b, p)
  }

  ghost predicate BlankFrom(t: Tables, b: nat, p: nat) {
    b < |t.blocks| && forall q :: p <= q < |t.blocks[b].pages| ==> !t.blocks[b].pages[q].isProgrammed
  }

  /** Everything garbage collection and the write path rely on. */
  ghost predicate Consistent(t: Tables, pending: set<nat>, g: Geometry, contents: seq<seq<byte>>) {
    Correct(t, pending, contents) && OwnersExact(t, pending, g)
  }

  // ---------------------------------------------------------------- writing

  /** What a write leaves to be read back: sizes between half a page and 3072 are stored still compressed. */
  function Stored(c: CompressedBlock, src: seq<byte>): (r: seq<byte>) {
    if c.isZeroBlock || c.compressedSize <= HALF_PAGE then src else c.data
  }

  predicate MidSize(c: CompressedBlock) {
    c.isCompressed && c.compressedSize > HALF_PAGE
  }
}
