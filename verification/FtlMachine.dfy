/**
 * The translation layer as a machine: its tables and positions, and what each operation
 * makes of them. The machine also remembers the state in which each garbage collection
 * started, so that conditions on a run can be conditions on its collections.
 */
module FtlMachine {
  import opened Bytes
  import opened FlashModel
  import opened Lz4Compressor
  import opened FtlState
  import opened FtlSteps

  /** A garbage collection: the tables, the reserve block and the lost blocks when it started. */
  datatype Collection = Collection(t: Tables, reserve: nat, lost: set<nat>)

  /** `lost` are the blocks that are not stored; during a write, also the block being written. */
  datatype Machine = Machine(t: Tables, active: nat, page: nat, reserve: nat, lost: set<nat>,
                             collections: seq<Collection>)

  // ---------------------------------------------------------------- garbage collection

  /** The first block with the most stale pages among the first `n`, the reserve aside, and their number. */
  function ScanVictim(blocks: seq<FlashBlock>, reserve: nat, n: nat): (r: (nat, nat))
    requires n <= |blocks|
  {
    if n == 0 then (0, 0)
    else
      var r := ScanVictim(blocks, reserve, n - 1);
      if n - 1 != reserve && blocks[n - 1].invalidPageCount > r.1 then (n - 1, blocks[n - 1].invalidPageCount) else r
  }

  function Victim(c: Collection): (r: (nat, nat)) {
    ScanVictim(c.t.blocks, c.reserve, |c.t.blocks|)
  }

  lemma {:induction false} VictimFound(blocks: seq<FlashBlock>, reserve: nat, n: nat)
    requires n <= |blocks|
    ensures var r := ScanVictim(blocks, reserve, n);
            r.1 > 0 ==> r.0 < n && r.0 != reserve && blocks[r.0].invalidPageCount == r.1
  {
    if n > 0 {
      VictimFound(blocks, reserve, n - 1);
    }
  }

  lemma {:induction false} NothingStale(blocks: seq<FlashBlock>, reserve: nat, n: nat)
    requires n <= |blocks| && forall b :: 0 <= b < n && b != reserve ==> blocks[b].invalidPageCount == 0
    ensures ScanVictim(blocks, reserve, n) == (0, 0)
  {
    if n > 0 {
      NothingStale(blocks, reserve, n - 1);
    }
  }

  lemma {:induction false} BlockZeroFirst(blocks: seq<FlashBlock>, reserve: nat, n: nat)
    requires 1 <= n <= |blocks| && reserve > 0 && blocks[0].invalidPageCount > 0
    requires forall b :: 1 <= b < n ==> blocks[b].invalidPageCount <= blocks[0].invalidPageCount
    ensures ScanVictim(blocks, reserve, n) == (0, blocks[0].invalidPageCount)
  {
    if n > 1 {
      BlockZeroFirst(blocks, reserve, n - 1);
    } else {
      assert ScanVictim(blocks, reserve, 0) == (0, 0);
    }
  }

  /** The reserve pointer goes round the blocks. */
  function NextIndex(r: nat, n: nat): (q: nat)
    ensures r < n && n >= 2 ==> q < n && q != r
    ensures r + 1 < n ==> q == r + 1
    ensures r + 1 == n ==> q == 0
  {
    if n == 0 then 0 else (r + 1) % n
  }

  /** The reserve block after a collection of block `v`. */
  function NextReserve(r: nat, v: nat, n: nat): (q: nat)
    ensures r < n && n >= 2 ==> q < n && q != v
    ensures r + 1 < n && r + 1 != v ==> q == r + 1
  {
    var next := NextIndex(r, n);
    if next == v then NextIndex(next, n) else next
  }

  /** The block `k` places after block `r`, going round. */
  function Round(r: nat, k: nat, n: nat): (b: int) {
    if r + k < n then r + k else r + k - n
  }

  /** The blocks strictly between `r` and `q`, going round, are only `v`; and `q` is neither. */
  predicate MovedPast(r: nat, q: nat, v: nat, n: nat) {
    && q < n && q != r && q != v
    && forall k: nat :: 0 < k < (if q > r then q - r else q + n - r) ==> Round(r, k, n) == v
  }

  /** With three blocks or more, the reserve pointer never stays, and skips nothing but the victim. */
  lemma NextReserveMoves(r: nat, v: nat, n: nat)
    requires n >= 3 && r < n && v < n && v != r
    ensures MovedPast(r, NextReserve(r, v, n), v, n)
  {
  }

  /** With two there is nowhere else to go. */
  lemma NextReserveStays(r: nat, v: nat, n: nat)
    requires n >= 2 && r < n && v < n && v != r
    ensures NextReserve(r, v, n) == r <==> n == 2
  {
  }

  predicate HasPage(t: Tables, b: nat, p: nat) {
    && b < |t.blocks| && p < |t.blocks[b].pages| == |t.blocks[b].pageValid|
    && b < |t.owners| && p < |t.owners[b]|
  }

  /** A page that is programmed already stays as it is. */
  function WithPageIfBlank(t: Tables, b: nat, p: nat, data: seq<byte>): (r: Tables) {
    if HasPage(t, b, p) && !t.blocks[b].pages[p].isProgrammed then WithPage(t, b, p, data) else t
  }

  /** Every block named in `list` is re-pointed. */
  function Repoint(table: seq<MappingEntry>, list: seq<PageOwner>, b: nat, p: nat): (r: seq<MappingEntry>)
    ensures |r| == |table|
  {
    if list == [] then table
    else
      var before := Repoint(table, list[..|list| - 1], b, p);
      var lba := list[|list| - 1].lba;
      if lba < |before| then before[lba := before[lba].(blockIdx := b, pageIdx := p)] else before
  }

  lemma {:induction false} RepointIsRepointed(table: seq<MappingEntry>, list: seq<PageOwner>, b: nat, p: nat)
    ensures Repointed(table, Repoint(table, list, b, p), list, b, p)
  {
    if list != [] {
      var n := |list| - 1;
      RepointIsRepointed(table, list[..n], b, p);
      forall i | 0 <= i < |table| ensures Owns(list, i) <==> Owns(list[..n], i) || list[n].lba == i {
        if Owns(list[..n], i) {
          var j :| 0 <= j < n && list[..n][j].lba == i;
          assert list[j].lba == i;
        }
      }
    }
  }

  /** The valid page `(v, p)` is copied to page `w` of the reserve block, with its owners. */
  function PageMoved(t: Tables, v: nat, p: nat, r: nat, w: nat): (t': Tables) {
    if HasPage(t, v, p) && HasPage(t, r, w) && v != r then
      var t1 := WithPageIfBlank(t, r, w, t.blocks[v].pages[p].data);
      t1.(table := Repoint(t1.table, t.owners[v][p], r, w), owners := OwnersMoved(t.owners, v, p, r, w))
    else t
  }

  function OwnersCleared(t: Tables, v: nat, p: nat): (t': Tables) {
    if v < |t.owners| && p < |t.owners[v]| then t.(owners := t.owners[v := t.owners[v][p := []]]) else t
  }

  /** The pages of `v` from `p` on, of `n`, are moved to the reserve block from page `w` on. */
  function Migrated(t: Tables, v: nat, p: nat, n: nat, r: nat, w: nat): (t': Tables)
    decreases n - p
  {
    if p >= n then t
    else if v < |t.blocks| && p < |t.blocks[v].pageValid| && t.blocks[v].pageValid[p] then
      Migrated(PageMoved(t, v, p, r, w), v, p + 1, n, r, w + 1)
    else Migrated(OwnersCleared(t, v, p), v, p + 1, n, r, w)
  }

  function Wiped(t: Tables, v: nat, n: nat): (t': Tables) {
    if v < |t.blocks| && v < |t.owners| then WithErased(t, v, n) else t
  }

  /** Garbage collection, if the active block is full. */
  ghost function Collected(s: Machine, g: Geometry): (r: Machine) {
    if s.page < g.pagesPerBlock then s
    else
      var c := Collection(s.t, s.reserve, s.lost);
      if Victim(c).1 == 0 then
        s.(active := s.reserve, page := 0, reserve := NextIndex(s.reserve, g.totalBlocks),
           collections := s.collections + [c])
      else
        var v := Victim(c).0;
        Machine(Wiped(Migrated(s.t, v, 0, g.pagesPerBlock, s.reserve, 0), v, g.pagesPerBlock), v, 0,
                NextReserve(s.reserve, v, g.totalBlocks), s.lost + StaleLive(s.t, s.lost, v), s.collections + [c])
  }

  /** The collection found its reserve block blank. */
  ghost predicate FoundBlank(c: Collection) {
    BlankFrom(c.t, c.reserve, 0)
  }

  /** The live blocks on stale pages of block `v`: they will not be migrated. */
  ghost function StaleLive(t: Tables, pending: set<nat>, v: nat): (r: set<nat>) {
    set i | 0 <= i < |t.table| && Live(t, pending, i) && t.table[i].blockIdx == v
      && !PageIsValid(t, v, t.table[i].pageIdx)
  }

  /** The collection left no live block behind on a stale page. */
  ghost predicate LostNothing(c: Collection) {
    Victim(c).1 == 0 || StaleLive(c.t, c.lost, Victim(c).0) == {}
  }

  /** Every collection found its reserve block blank. */
  ghost predicate AllFoundBlank(s: Machine) {
    forall k :: 0 <= k < |s.collections| ==> FoundBlank(s.collections[k])
  }

  /** No collection left a live block behind. */
  ghost predicate AllLostNothing(s: Machine) {
    forall k :: 0 <= k < |s.collections| ==> LostNothing(s.collections[k])
  }

  /** What a collection about to start gives up. */
  ghost function GivenUp(s: Machine): (r: set<nat>) {
    var v := Victim(Collection(s.t, s.reserve, s.lost));
    if v.1 == 0 then {} else StaleLive(s.t, s.lost, v.0)
  }

  // ---------------------------------------------------------------- the reserve pointer over a run

  /** After collection `c` the reserve is `q`: another block, and nothing but the victim was skipped. */
  ghost predicate ReserveMoved(c: Collection, q: nat, n: nat) {
    var v := Victim(c);
    if v.1 == 0 then q == NextIndex(c.reserve, n) && q != c.reserve else v.0 < n && MovedPast(c.reserve, q, v.0, n)
  }

  /** The reserve block of collection `k + 1`, or the one at present. */
  function ReserveAfter(s: Machine, k: nat): (q: nat)
    requires k < |s.collections|
  {
    if k + 1 < |s.collections| then s.collections[k + 1].reserve else s.reserve
  }

  /** No two collections in a row had the same reserve block. */
  ghost predicate ReserveRotates(s: Machine, n: nat) {
    && |s.t.blocks| == n && s.reserve < n
    && forall k :: 0 <= k < |s.collections| ==> ReserveMoved(s.collections[k], ReserveAfter(s, k), n)
  }

  lemma {:induction false} MigratedBlocks(t: Tables, v: nat, p: nat, n: nat, r: nat, w: nat)
    ensures |Migrated(t, v, p, n, r, w).blocks| == |t.blocks|
    decreases n - p
  {
    if p < n {
      MigratedBlocks(PageMoved(t, v, p, r, w), v, p + 1, n, r, w + 1);
      MigratedBlocks(OwnersCleared(t, v, p), v, p + 1, n, r, w);
    }
  }

  lemma CollectedRotates(s: Machine, g: Geometry)
    requires g.totalBlocks >= 3 && ReserveRotates(s, g.totalBlocks)
    ensures ReserveRotates(Collected(s, g), g.totalBlocks)
  {
    hide ScanVictim, NextIndex, NextReserve, MovedPast, ReserveMoved;
    if s.page >= g.pagesPerBlock {
      var n, r := g.totalBlocks, Collected(s, g);
      var c := Collection(s.t, s.reserve, s.lost);
      assert ReserveMoved(c, r.reserve, n) && r.reserve < n by { OneMoves(s, g, c); }
      MigratedBlocks(s.t, Victim(c).0, 0, g.pagesPerBlock, s.reserve, 0);
      forall k | 0 <= k < |r.collections| ensures ReserveMoved(r.collections[k], ReserveAfter(r, k), n) {
        if k < |s.collections| {
          assert ReserveMoved(s.collections[k], ReserveAfter(s, k), n);
        }
      }
    }
  }

  lemma OneMoves(s: Machine, g: Geometry, c: Collection)
    requires g.totalBlocks >= 3 && |s.t.blocks| == g.totalBlocks && s.reserve < g.totalBlocks
    requires s.page >= g.pagesPerBlock && c == Collection(s.t, s.reserve, s.lost)
    ensures var q := Collected(s, g).reserve; q < g.totalBlocks && ReserveMoved(c, q, g.totalBlocks)
  {
    hide ScanVictim, Migrated, Wiped, StaleLive, NextReserve, MovedPast;
    VictimFound(s.t.blocks, s.reserve, |s.t.blocks|);
    if Victim(c).1 > 0 {
      NextReserveMoves(s.reserve, Victim(c).0, g.totalBlocks);
      assert MovedPast(s.reserve, NextReserve(s.reserve, Victim(c).0, g.totalBlocks), Victim(c).0, g.totalBlocks);
    }
  }

  /** Whatever else changes, the pointer and the collections decide. */
  lemma SameRotation(s: Machine, r: Machine, n: nat)
    requires ReserveRotates(s, n) && |r.t.blocks| == n && r.reserve == s.reserve && r.collections == s.collections
    ensures ReserveRotates(r, n)
  {
    hide ReserveMoved;
    forall k | 0 <= k < |r.collections| ensures ReserveMoved(r.collections[k], ReserveAfter(r, k), n) {
      assert ReserveMoved(s.collections[k], ReserveAfter(s, k), n);
    }
  }

  lemma ProgrammedRotates(s: Machine, g: Geometry, data: seq<byte>)
    requires g.totalBlocks >= 3 && ReserveRotates(s, g.totalBlocks)
    ensures ReserveRotates(ProgrammedNext(s, g, data), g.totalBlocks)
  {
    hide Collected, ReserveRotates;
    CollectedRotates(s, g);
    assert |Collected(s, g).t.blocks| == g.totalBlocks by { RotatesSize(Collected(s, g), g.totalBlocks); }
    SameRotation(Collected(s, g), ProgrammedNext(s, g, data), g.totalBlocks);
  }

  lemma RotatesSize(s: Machine, n: nat)
    requires ReserveRotates(s, n)
    ensures |s.t.blocks| == n
  {
  }

  lemma FlushedRotates(s: Machine, g: Geometry)
    requires g.totalBlocks >= 3 && ReserveRotates(s, g.totalBlocks)
    ensures ReserveRotates(Flushed(s, g), g.totalBlocks)
  {
    hide ProgrammedStaged;
    if s.t.staged.Some? {
      StagedRotates(s, g, s.t.staged.value.data + Fill(0, HALF_PAGE));
    }
  }

  lemma StagedRotates(s: Machine, g: Geometry, data: seq<byte>)
    requires g.totalBlocks >= 3 && ReserveRotates(s, g.totalBlocks)
    ensures ReserveRotates(ProgrammedStaged(s, g, data), g.totalBlocks)
    ensures ReserveRotates(Advanced(ProgrammedStaged(s, g, data)), g.totalBlocks)
  {
    hide ProgrammedNext, ReserveRotates;
    RotatesSize(s, g.totalBlocks);
    var p := ProgrammedNext(s, g, data);
    ProgrammedRotates(s, g, data);
    RotatesSize(p, g.totalBlocks);
    var r := ProgrammedStaged(s, g, data);
    if s.t.staged.Some? {
      SameRotation(p, r, g.totalBlocks);
    }
    RotatesSize(r, g.totalBlocks);
    SameRotation(r, Advanced(r), g.totalBlocks);
  }

  lemma WrittenRotates(s: Machine, g: Geometry, lba: nat, c: CompressedBlock)
    requires Handed(c) && g.totalBlocks >= 3 && ReserveRotates(s, g.totalBlocks)
    ensures ReserveRotates(Written(s, g, lba, c), g.totalBlocks)
  {
    hide Flushed, ProgrammedStaged, ProgrammedNext, HalfPage, ReserveRotates;
    if lba < |s.t.table| {
      var n, d, r := g.totalBlocks, Begun(s, lba), Written(s, g, lba, c);
      RotatesSize(s, n);
      SameRotation(s, d, n);
      if c.isZeroBlock || (c.compressedSize <= HALF_PAGE && d.t.staged.None?) {
        SameRotation(d, r, n);
      } else if c.compressedSize <= HALF_PAGE {
        var p := ProgrammedStaged(d, g, d.t.staged.value.data + HalfPage(c));
        StagedRotates(d, g, d.t.staged.value.data + HalfPage(c));
        RotatesSize(p, n);
        SameRotation(p, r, n);
      } else {
        FlushedRotates(d, g);
        ProgrammedRotates(Flushed(d, g), g, c.data);
        RotatesSize(ProgrammedNext(Flushed(d, g), g, c.data), n);
        SameRotation(ProgrammedNext(Flushed(d, g), g, c.data), r, n);
      }
    }
  }

  // ---------------------------------------------------------------- the operations

  /** The next page of the active block is programmed; the position is still on it. */
  ghost function ProgrammedNext(s: Machine, g: Geometry, data: seq<byte>): (r: Machine) {
    var c := Collected(s, g);
    c.(t := WithPageIfBlank(c.t, c.active, c.page, data))
  }

  /** Block `i` is mapped to the current page. */
  function Mapping(s: Machine, i: nat, state: MappingState, subSlot: nat, size: nat): (r: Machine) {
    if i < |s.t.table| && HasPage(s.t, s.active, s.page) then
      s.(t := Attached(s.t, i, MappingEntry(state, s.active, s.page, subSlot, size)), lost := s.lost - {i})
    else s
  }

  function Unstaged(s: Machine): (r: Machine) {
    s.(t := s.t.(staged := None))
  }

  function Advanced(s: Machine): (r: Machine) {
    s.(page := s.page + 1)
  }

  /** A page that starts with the staged half is programmed and mapped. */
  ghost function ProgrammedStaged(s: Machine, g: Geometry, data: seq<byte>): (r: Machine) {
    if s.t.staged.None? then s
    else
      var h := s.t.staged.value;
      Unstaged(Mapping(ProgrammedNext(s, g, data), h.lba, CompressedHalfPage, 0, h.compSize))
  }

  ghost function Flushed(s: Machine, g: Geometry): (r: Machine) {
    if s.t.staged.None? then s
    else Advanced(ProgrammedStaged(s, g, s.t.staged.value.data + Fill(0, HALF_PAGE)))
  }

  /** The compressed bytes, filled up to half a page. */
  function HalfPage(c: CompressedBlock): (d: seq<byte>)
    requires c.compressedSize <= HALF_PAGE && c.compressedSize <= |c.data|
    ensures |d| == HALF_PAGE
  {
    c.data[..c.compressedSize] + Fill(0, HALF_PAGE - c.compressedSize)
  }

  /** What the compressor hands over. */
  predicate Handed(c: CompressedBlock) {
    |c.data| == PAGE_SIZE && c.compressedSize <= PAGE_SIZE
  }

  /** The detached block `lba` is stored, according to its compressed form. */
  ghost function Placed(s: Machine, g: Geometry, lba: nat, c: CompressedBlock): (r: Machine)
    requires Handed(c) && lba < |s.t.table|
  {
    if c.isZeroBlock then s.(t := Zeroed(s.t, lba), lost := s.lost - {lba})
    else if c.compressedSize <= HALF_PAGE then
      if s.t.staged.Some? then
        Advanced(Mapping(ProgrammedStaged(s, g, s.t.staged.value.data + HalfPage(c)),
                         lba, CompressedHalfPage, 1, c.compressedSize))
      else s.(t := Staged(s.t, StagedHalfPage(lba, c.compressedSize, HalfPage(c))), lost := s.lost - {lba})
    else
      Advanced(Mapping(ProgrammedNext(Flushed(s, g), g, c.data), lba, RawFullPage, 0, c.compressedSize))
  }

  /** The write of block `lba` starts. */
  function Begun(s: Machine, lba: nat): (r: Machine)
    requires lba < |s.t.table|
  {
    s.(t := Detached(s.t, lba), lost := s.lost + {lba})
  }

  ghost function Written(s: Machine, g: Geometry, lba: nat, c: CompressedBlock): (r: Machine)
    requires Handed(c)
  {
    if lba < |s.t.table| then Placed(Begun(s, lba), g, lba, c) else s
  }

  /** A machine before the first write. */
  function Fresh(g: Geometry): (s: Machine) {
    Machine(Tables(seq(g.lbas, _ => MappingEntry(Unmapped, 0, 0, 0, 0)),
                   seq(g.totalBlocks, _ => BlankBlock(g.pagesPerBlock)),
                   seq(g.totalBlocks, _ => seq(g.pagesPerBlock, _ => [])), None),
            0, 0, 1, {}, [])
  }

  // ---------------------------------------------------------------- counters

  /** Host writes, by what became of them; `dropped` are staged halves overwritten before they reached flash. */
  datatype Tally = Tally(writes: nat, zeros: nat, packs: nat, raws: nat, dropped: nat)

  function One(b: bool): (n: nat) {
    if b then 1 else 0
  }

  predicate FitsHalf(c: CompressedBlock) {
    !c.isZeroBlock && c.compressedSize <= HALF_PAGE
  }

  /** The counters after a block has been detached and stored; `waiting` says that a half was staged. */
  function Sorted(k: Tally, waiting: bool, c: CompressedBlock): (r: Tally) {
    k.(zeros := k.zeros + One(c.isZeroBlock), packs := k.packs + One(FitsHalf(c) && waiting),
       raws := k.raws + One(!c.isZeroBlock && !FitsHalf(c)))
  }

  /** The counters after a write. */
  function Tallied(k: Tally, s: Machine, lba: nat, c: CompressedBlock): (r: Tally) {
    if lba < |s.t.table| then
      Sorted(k.(writes := k.writes + 1, dropped := k.dropped + One(IsStaged(s.t, lba))),
             Begun(s, lba).t.staged.Some?, c)
    else k
  }

  // ---------------------------------------------------------------- counting collections

  /** Valid pages among the first `n`. */
  function ValidBefore(valid: seq<bool>, n: nat): (k: nat)
    requires n <= |valid|
    ensures k <= n
  {
    if n == 0 then 0 else ValidBefore(valid, n - 1) + One(valid[n - 1])
  }

  lemma ValidOneMore(valid: seq<bool>, p: nat)
    requires p < |valid|
    ensures ValidBefore(valid, p + 1) == ValidBefore(valid, p) + One(valid[p])
  {
  }

  lemma ValidNone(valid: seq<bool>)
    ensures ValidBefore(valid, 0) == 0
  {
  }

  function ValidOn(blocks: seq<FlashBlock>, v: nat): (k: nat) {
    if v < |blocks| then ValidBefore(blocks[v].pageValid, |blocks[v].pageValid|) else 0
  }

  /** The pages that a collection moves: the valid ones of its victim. */
  function Moves(c: Collection): (k: nat) {
    if Victim(c).1 > 0 then ValidOn(c.t.blocks, Victim(c).0) else 0
  }

  /** The collections that had a victim. */
  function Reclaims(cs: seq<Collection>): (k: nat) {
    if cs == [] then 0 else Reclaims(cs[..|cs| - 1]) + One(Victim(cs[|cs| - 1]).1 > 0)
  }

  function AllMoves(cs: seq<Collection>): (k: nat) {
    if cs == [] then 0 else AllMoves(cs[..|cs| - 1]) + Moves(cs[|cs| - 1])
  }

  lemma OneMoreReclaim(cs: seq<Collection>, c: Collection, v: nat, m: nat)
    requires (v, m) == Victim(c)
    ensures Reclaims(cs + [c]) == Reclaims(cs) + One(m > 0)
    ensures AllMoves(cs + [c]) == AllMoves(cs) + if m > 0 then ValidOn(c.t.blocks, v) else 0
  {
    hide ScanVictim, ValidOn;
    assert (cs + [c])[..|cs|] == cs;
  }

  // ---------------------------------------------------------------- how many collections

  /** Pages that have been filled, or will be by the half that is staged. */
  function Used(s: Machine, g: Geometry): (n: nat) {
    |s.collections| * g.pagesPerBlock + s.page + if s.t.staged.Some? then 1 else 0
  }

  /** Positions stay in the block, and a collection is followed by a write. */
  predicate InStep(s: Machine, g: Geometry) {
    g.pagesPerBlock >= 1 && s.page <= g.pagesPerBlock && (|s.collections| > 0 ==> s.page > 0)
  }

  lemma CollectedUsed(s: Machine, g: Geometry)
    requires g.pagesPerBlock >= 1 && s.page <= g.pagesPerBlock
    ensures var r := Collected(s, g);
            Used(r, g) == Used(s, g) && r.page < g.pagesPerBlock && r.t.staged == s.t.staged
  {
    hide ScanVictim, NextIndex;
    if s.page == g.pagesPerBlock {
      var c := Collection(s.t, s.reserve, s.lost);
      MigratedStaged(s.t, Victim(c).0, 0, g.pagesPerBlock, s.reserve, 0);
      assert (|s.collections| + 1) * g.pagesPerBlock == |s.collections| * g.pagesPerBlock + g.pagesPerBlock;
    }
  }

  lemma {:induction false} MigratedStaged(t: Tables, v: nat, p: nat, n: nat, r: nat, w: nat)
    ensures Migrated(t, v, p, n, r, w).staged == t.staged
    decreases n - p
  {
    if p < n {
      MigratedStaged(PageMoved(t, v, p, r, w), v, p + 1, n, r, w + 1);
      MigratedStaged(OwnersCleared(t, v, p), v, p + 1, n, r, w);
    }
  }

  lemma ProgrammedUsed(s: Machine, g: Geometry, data: seq<byte>)
    requires g.pagesPerBlock >= 1 && s.page <= g.pagesPerBlock
    ensures var r := ProgrammedNext(s, g, data);
            Used(r, g) == Used(s, g) && r.page < g.pagesPerBlock && r.t.staged == s.t.staged
  {
    hide Collected;
    CollectedUsed(s, g);
  }

  lemma StagedUsed(s: Machine, g: Geometry, data: seq<byte>)
    requires InStep(s, g) && s.t.staged.Some?
    ensures var r := Advanced(ProgrammedStaged(s, g, data));
            InStep(r, g) && Used(r, g) == Used(s, g) && r.t.staged.None?
  {
    hide ProgrammedNext;
    ProgrammedUsed(s, g, data);
  }

  /** Flushing fills the page that the staged half was going to fill. */
  lemma FlushedUsed(s: Machine, g: Geometry)
    requires InStep(s, g)
    ensures var r := Flushed(s, g); InStep(r, g) && Used(r, g) == Used(s, g) && r.t.staged.None?
  {
    hide ProgrammedStaged;
    if s.t.staged.Some? {
      StagedUsed(s, g, s.t.staged.value.data + Fill(0, HALF_PAGE));
    }
  }

  /** A write fills at most one page more, and a zero block none. */
  lemma WrittenUsed(s: Machine, g: Geometry, lba: nat, c: CompressedBlock)
    requires Handed(c) && InStep(s, g)
    ensures var r := Written(s, g, lba, c);
            InStep(r, g) && Used(r, g) <= Used(s, g) + if c.isZeroBlock then 0 else 1
  {
    hide Flushed, ProgrammedStaged, ProgrammedNext, HalfPage;
    if lba < |s.t.table| {
      var d := Begun(s, lba);
      assert Used(d, g) <= Used(s, g) && InStep(d, g);
      if !c.isZeroBlock && c.compressedSize <= HALF_PAGE && d.t.staged.Some? {
        StagedUsed(d, g, d.t.staged.value.data + HalfPage(c));
      } else if !c.isZeroBlock && c.compressedSize > HALF_PAGE {
        FlushedUsed(d, g);
        ProgrammedUsed(Flushed(d, g), g, c.data);
      }
    }
  }

  lemma {:induction false} MigratedSize(t: Tables, v: nat, p: nat, n: nat, r: nat, w: nat)
    ensures |Migrated(t, v, p, n, r, w).table| == |t.table|
    decreases n - p
  {
    if p < n {
      MigratedSize(PageMoved(t, v, p, r, w), v, p + 1, n, r, w + 1);
      MigratedSize(OwnersCleared(t, v, p), v, p + 1, n, r, w);
    }
  }

  lemma CollectedSize(s: Machine, g: Geometry)
    ensures |Collected(s, g).t.table| == |s.t.table|
  {
    hide ScanVictim, NextIndex;
    var c := Collection(s.t, s.reserve, s.lost);
    MigratedSize(s.t, Victim(c).0, 0, g.pagesPerBlock, s.reserve, 0);
  }

  lemma FlushedSize(s: Machine, g: Geometry)
    ensures |Flushed(s, g).t.table| == |s.t.table|
  {
    hide Collected;
    CollectedSize(s, g);
  }

  /** The table keeps its size. */
  lemma WrittenSize(s: Machine, g: Geometry, lba: nat, c: CompressedBlock)
    requires Handed(c)
    ensures |Written(s, g, lba, c).t.table| == |s.t.table|
  {
    hide Collected, Flushed, HalfPage;
    if lba < |s.t.table| {
      var d := Begun(s, lba);
      CollectedSize(d, g);
      FlushedSize(d, g);
      CollectedSize(Flushed(d, g), g);
    }
  }
}
