/**
 * The flash translation layer: host writes and reads of 4 KB blocks, packing of two
 * compressed halves into a page, and greedy garbage collection with one reserve block.
 */
module FtlController {
  import opened Bytes
  import opened FlashModel
  import opened Lz4Encoder
  import opened Lz4Compressor
  import Lz4Format
  import opened FtlState
  import opened FtlSteps
  import opened FtlRaw
  import opened FtlMachine

  /** Every live block on block `v` is on a page that garbage collection will migrate. */
  ghost predicate NoLiveOnStale(t: Tables, pending: set<nat>, v: nat) {
    forall i :: 0 <= i < |t.table| && Live(t, pending, i) && t.table[i].blockIdx == v ==>
        PageIsValid(t, v, t.table[i].pageIdx)
  }

  /** The entry leads to a page that has been erased. */
  ghost predicate Gone(t: Tables, i: nat) {
    i < |t.table| && Mapped(t.table[i]) && !PageIsProgrammed(t, t.table[i].blockIdx, t.table[i].pageIdx)
  }

  /** The entries of the blocks in `kept` are the same in both tables. */
  ghost predicate Unmoved(a: seq<MappingEntry>, b: seq<MappingEntry>, kept: set<nat>) {
    |a| == |b| && forall i :: i in kept && i < |a| ==> a[i] == b[i]
  }

  /** The greedy choice: the first block, the reserve aside, with the most stale pages. */
  ghost predicate IsVictim(blocks: seq<FlashBlock>, reserve: nat, victim: nat, maxInvalid: nat) {
    && (forall b :: 0 <= b < |blocks| && b != reserve ==> blocks[b].invalidPageCount <= maxInvalid)
    && (maxInvalid > 0 ==> victim < |blocks| && victim != reserve && blocks[victim].invalidPageCount == maxInvalid)
    && (maxInvalid > 0 ==> forall b :: 0 <= b < victim && b != reserve ==> blocks[b].invalidPageCount < maxInvalid)
  }

  /** What remains to be moved: live blocks on the victim are on valid pages from `p` on. */
  ghost predicate ToMigrate(t: Tables, pending: set<nat>, v: nat, p: nat) {
    forall i :: 0 <= i < |t.table| && Live(t, pending, i) && t.table[i].blockIdx == v ==>
      p <= t.table[i].pageIdx && PageIsValid(t, v, t.table[i].pageIdx)
  }

  ghost predicate SameExcept(a: seq<FlashBlock>, b: seq<FlashBlock>, r: nat) {
    |a| == |b| && forall i :: 0 <= i < |a| && i != r ==> a[i] == b[i]
  }

  class FTLController {
    const lbas: nat
    const flash: Flash
    var lbaTable: seq<MappingEntry>
    var activeBlockIdx: nat
    var activePageIdx: nat
    var reserveBlockIdx: nat
    var staged: Option<StagedHalfPage>
    var owners: seq<seq<seq<PageOwner>>>

    var hostWrites: nat
    var hostReads: nat
    var zeroBlocks: nat
    var halfPagePacks: nat
    var rawFullPages: nat
    var gcCount: nat
    var gcMigratedPages: nat

    /** What each logical block stores. */
    ghost var contents: seq<seq<byte>>
    /** Every garbage collection so far has found the reserve block blank. */
    ghost var safe: bool
    /**
     * The blocks that are not stored: their only copy was erased by garbage collection, and
     * they have not been written since. During a write, also the block being written.
     */
    ghost var lost: set<nat>
    /** Garbage collection has never lost a block. */
    ghost var intact: bool
    /** No block has been compressed to half a page or less. */
    ghost var rawOnly: bool
    /** How many staged halves were overwritten before they reached flash. */
    ghost var dropped: nat
    /** The garbage collections so far. */
    ghost var collections: seq<Collection>

    ghost function Snap(): Tables
      reads `lbaTable, `owners, `staged, flash`blocks
    {
      Tables(lbaTable, flash.blocks, owners, staged)
    }

    /** The controller as a machine. */
    ghost function State(): Machine
      reads `lbaTable, `owners, `staged, `activeBlockIdx, `activePageIdx, `reserveBlockIdx, `lost, `collections,
            flash`blocks
    {
      Machine(Snap(), activeBlockIdx, activePageIdx, reserveBlockIdx, lost, collections)
    }

    ghost function Geo(): Geometry
    {
      Geometry(lbas, flash.totalBlocks, flash.pagesPerBlock)
    }

    ghost function Counts(): Tally
      reads `hostWrites, `zeroBlocks, `halfPagePacks, `rawFullPages, `dropped
    {
      Tally(hostWrites, zeroBlocks, halfPagePacks, rawFullPages, dropped)
    }

    /** Host writes and migrations not yet accounted for by programmed pages, zero blocks and packs. */
    function Slack(): int
      reads this, flash
    {
      hostWrites + gcMigratedPages - flash.totalPagesProgrammed - zeroBlocks - halfPagePacks
    }

    /** Each staged half has still to be programmed, and each dropped one never will be. */
    ghost predicate Balanced(extra: nat)
      reads this, flash
    {
      var due := extra + dropped + if staged.Some? then 1 else 0;
      Slack() >= due && (safe ==> Slack() == due)
    }

    /** Up to `n` pages of the account were spent; exactly `n`, if the pages could be programmed. */
    ghost predicate Spent(before: int, n: nat)
      reads this, flash
    {
      Slack() >= before - n && (safe ==> Slack() == before - n)
    }

    /** The counters of garbage collection are those of the collections so far. */
    ghost predicate Counted()
      reads `gcCount, `gcMigratedPages, `collections
    {
      gcCount == Reclaims(collections) && gcMigratedPages == AllMoves(collections)
    }

    ghost predicate Structure()
      reads `lbaTable, `owners, `staged, `activeBlockIdx, `activePageIdx, `reserveBlockIdx, `contents, flash`blocks
    {
      && flash.Valid() && Shaped(Snap(), Geo())
      && activeBlockIdx < flash.totalBlocks && activePageIdx <= flash.pagesPerBlock
      && reserveBlockIdx < flash.totalBlocks
      && |contents| == lbas == |lbaTable|
    }

    /** `safe` and `intact` say what the collections were like. */
    ghost predicate Traced()
      reads `safe, `intact, `collections
    {
      TracedAs(collections, safe, intact)
    }

    static ghost predicate TracedAs(trace: seq<Collection>, safe: bool, intact: bool) {
      && (safe <==> forall k :: 0 <= k < |trace| ==> FoundBlank(trace[k]))
      && (intact <==> forall k :: 0 <= k < |trace| ==> LostNothing(trace[k]))
    }

    /** `writing` holds the block being written, if any. */
    ghost predicate Ledger(writing: set<nat>)
      reads `staged, `lost, `safe, `intact, `collections
    {
      && Traced()
      && writing <= lost && (intact ==> lost == writing)
      && (staged.Some? ==> staged.value.lba !in lost)
    }

    ghost predicate Good(writing: set<nat>)
      reads `lbaTable, `owners, `staged, `activeBlockIdx, `activePageIdx, `reserveBlockIdx, `contents, `lost, `safe,
            `intact, `collections, flash`blocks
    {
      && Ledger(writing)
      && (safe ==>
            && Consistent(Snap(), lost, Geo(), contents)
            && BlankFrom(Snap(), activeBlockIdx, activePageIdx)
            && reserveBlockIdx != activeBlockIdx)
    }

    /**
     * Through the first rounds of garbage collection the reserve block is blank whatever is
     * written. With raw and zero blocks only, nothing is lost as long as it is.
     */
    ghost predicate Early()
      reads `lbaTable, `owners, `staged, `activeBlockIdx, `reserveBlockIdx, `lost, `safe, `intact, `rawOnly,
            `collections, flash`blocks
    {
      EarlyAt(|collections|)
    }

    /** The reserve block, and those after it, are as after `n` collections. */
    ghost predicate EarlyAt(n: nat)
      reads `lbaTable, `owners, `staged, `activeBlockIdx, `reserveBlockIdx, `lost, `safe, `intact, `rawOnly,
            `collections, flash`blocks
    {
      && (|collections| < flash.totalBlocks ==>
            safe && ReserveFresh(Snap(), Geo(), activeBlockIdx, reserveBlockIdx, n))
      && (safe && rawOnly ==> intact && RawState(Snap(), lost, Geo()))
    }

    ghost predicate Valid()
      reads this, flash
    {
      && Structure() && Good({}) && Early()
      && Balanced(0) && Counted()
    }

    /** What the ghost state says about the collections so far. */
    lemma TraceMeans()
      requires Valid()
      ensures safe <==> AllFoundBlank(State())
      ensures intact <==> AllLostNothing(State())
      ensures (intact ==> lost == {}) && |contents| == lbas
      ensures (|State().collections| < flash.totalBlocks ==> safe) && (safe && rawOnly ==> intact)
    {
      hide Shaped, Consistent, BlankFrom, RawState, ReserveFresh, FoundBlank, LostNothing;
    }

    /** The account of programmed pages. */
    lemma AccountMeans()
      requires Valid()
      ensures var k, waiting := Counts(), One(staged.Some?);
              && flash.totalPagesProgrammed + k.zeros + k.packs + k.dropped + waiting <= k.writes + gcMigratedPages
              && (safe ==>
                   flash.totalPagesProgrammed + k.zeros + k.packs + k.dropped + waiting == k.writes + gcMigratedPages)
      ensures gcCount == Reclaims(State().collections) && gcMigratedPages == AllMoves(State().collections)
    {
      hide Structure, Good, Early, Reclaims, AllMoves;
    }

    constructor (logicalCapacityBytes: nat, totalBlocks: nat, pagesPerBlock: nat)
      requires totalBlocks >= 2 && pagesPerBlock >= 1
      ensures Valid() && safe && intact && rawOnly && lost == {} && State() == Fresh(Geo()) && fresh(flash)
      ensures Counts() == Tally(0, 0, 0, 0, 0)
      ensures lbas == (logicalCapacityBytes + PAGE_SIZE - 1) / PAGE_SIZE
      ensures flash.totalBlocks == totalBlocks && flash.pagesPerBlock == pagesPerBlock
      ensures contents == seq(lbas, _ => ZeroBlock())
    {
      var n := (logicalCapacityBytes + PAGE_SIZE - 1) / PAGE_SIZE;
      lbas := n;
      flash := new Flash(totalBlocks, pagesPerBlock);
      lbaTable := seq(n, _ => MappingEntry(Unmapped, 0, 0, 0, 0));
      activeBlockIdx, activePageIdx, reserveBlockIdx := 0, 0, 1;
      staged := None;
      owners := seq(totalBlocks, _ => seq(pagesPerBlock, _ => []));
      hostWrites, hostReads, zeroBlocks, halfPagePacks, rawFullPages, gcCount, gcMigratedPages := 0, 0, 0, 0, 0, 0, 0;
      contents := seq(n, _ => ZeroBlock());
      safe, intact, rawOnly, collections, lost, dropped := true, true, true, [], {}, 0;
      new;
      FreshConsistent(Snap(), Geo(), contents);
    }

    /** Before the first write: nothing mapped, nothing programmed, nobody owns a page. */
    static lemma FreshConsistent(t: Tables, g: Geometry, contents: seq<seq<byte>>)
      requires BlocksOk(t.blocks, g.totalBlocks, g.pagesPerBlock)
      requires t.blocks == seq(g.totalBlocks, _ => BlankBlock(g.pagesPerBlock))
      requires t.table == seq(g.lbas, _ => MappingEntry(Unmapped, 0, 0, 0, 0)) && t.staged.None?
      requires t.owners == seq(g.totalBlocks, _ => seq(g.pagesPerBlock, _ => []))
      requires contents == seq(g.lbas, _ => ZeroBlock())
      ensures Consistent(t, {}, g, contents)
    {
      forall i | 0 <= i < |contents| ensures LbaCorrect(t, {}, contents, i) {
      }
      forall b, p | 0 <= b < g.totalBlocks && 0 <= p < g.pagesPerBlock ensures PageOwnersExact(t, {}, b, p) {
      }
    }

    // -------------------------------------------------------------- garbage collection

    /** Scan for the victim. */
    method SelectVictim() returns (victim: nat, maxInvalid: nat)
      requires Structure()
      ensures IsVictim(flash.blocks, reserveBlockIdx, victim, maxInvalid)
      ensures (victim, maxInvalid) == ScanVictim(flash.blocks, reserveBlockIdx, |flash.blocks|)
    {
      victim, maxInvalid := 0, 0;
      for b := 0 to flash.totalBlocks
        invariant (victim, maxInvalid) == ScanVictim(flash.blocks, reserveBlockIdx, b)
        invariant maxInvalid > 0 ==>
                  victim < b && victim != reserveBlockIdx && flash.blocks[victim].invalidPageCount == maxInvalid
        invariant forall c :: 0 <= c < b && c != reserveBlockIdx ==> flash.blocks[c].invalidPageCount <= maxInvalid
        invariant maxInvalid > 0 ==>
                    forall c :: 0 <= c < victim && c != reserveBlockIdx ==>
                        flash.blocks[c].invalidPageCount < maxInvalid
      {
        if b != reserveBlockIdx {
          var inv := flash.blocks[b].invalidPageCount;
          if inv > maxInvalid {
            maxInvalid, victim := inv, b;
          }
        }
      }
    }

    /** Re-points every block named in `list`. */
    method RepointOwners(list: seq<PageOwner>, b: nat, p: nat)
      modifies `lbaTable
      ensures lbaTable == Repoint(old(lbaTable), list, b, p)
    {
      var k := 0;
      while k < |list|
        invariant k <= |list|
        invariant lbaTable == Repoint(old(lbaTable), list[..k], b, p)
      {
        assert list[..k + 1][..k] == list[..k];
        var lba := list[k].lba;
        if lba < |lbaTable| {
          lbaTable := lbaTable[lba := lbaTable[lba].(blockIdx := b, pageIdx := p)];
        }
        k := k + 1;
      }
      assert list[..k] == list;
    }

    /** Moves the valid page `(victim, p)` to page `w` of the reserve block. */
    method MigratePage(victim: nat, p: nat, w: nat)
      requires Structure() && victim < flash.totalBlocks && victim != reserveBlockIdx
      requires w <= p < flash.pagesPerBlock && PageIsValid(Snap(), victim, p)
      requires safe ==> Consistent(Snap(), lost, Geo(), contents) && BlankFrom(Snap(), reserveBlockIdx, w)
      requires safe ==> ToMigrate(Snap(), lost, victim, p)
      modifies `lbaTable, `owners, `gcMigratedPages, flash`blocks, flash`totalPagesRead, flash`totalPagesProgrammed
      ensures Structure() && Spent(old(Slack()), 0)
      ensures Snap() == PageMoved(old(Snap()), victim, p, reserveBlockIdx, w)
      ensures gcMigratedPages == old(gcMigratedPages) + 1
      ensures SameExcept(old(flash.blocks), flash.blocks, reserveBlockIdx)
      ensures safe && old(RawState(Snap(), lost, Geo())) ==> RawState(Snap(), lost, Geo())
      ensures safe ==> Consistent(Snap(), lost, Geo(), contents) && BlankFrom(Snap(), reserveBlockIdx, w + 1)
      ensures safe ==> ToMigrate(Snap(), lost, victim, p + 1) && Unmoved(old(lbaTable), lbaTable, lost)
    {
      hide Encodes, Consistent, BlocksOk, Repointed, ToMigrate, RawState, Traced, BlankFrom, Unmoved, PageMoved,
        Repoint, SameExcept, OwnersMoved;
      ghost var t0, g := Snap(), Geo();
      var r := reserveBlockIdx;
      var _, tmp := flash.ReadPage(victim, p);
      ValidProgrammed(t0, g, victim, p);
      PageSizes(t0, g, r);
      PageSizes(t0, g, victim);
      if safe {
        BlankAt(t0, r, w);
      }
      var ok := flash.ProgramPage(r, w, tmp);
      gcMigratedPages := gcMigratedPages + 1;
      ghost var t1 := Snap();
      var list := owners[victim][p];
      RepointIsRepointed(lbaTable, list, r, w);
      RepointOwners(list, r, w);
      HandOver(victim, p, r, w);
      ghost var t2 := Snap();
      MoveShaped(t1, t2, victim, p, r, w, g);
      PageMovedIs(t0, t1, t2, victim, p, r, w, tmp);
      if safe {
        MigrateSafe(t0, t1, t2, lost, victim, p, r, w, tmp, g, contents);
      }
    }

    /** The owner list of a page goes to its new place. */
    method HandOver(victim: nat, p: nat, r: nat, w: nat)
      requires victim < |owners| && p < |owners[victim]| && r < |owners| && w < |owners[r]| && victim != r
      modifies `owners
      ensures owners == OwnersMoved(old(owners), victim, p, r, w)
    {
      OwnersMovedTwice(owners, victim, p, r, w);
      owners := owners[r := owners[r][w := owners[victim][p]]];
      owners := owners[victim := owners[victim][p := []]];
    }

    static lemma PageMovedIs(t0: Tables, t1: Tables, t2: Tables, v: nat, p: nat, r: nat, w: nat, data: seq<byte>)
      requires HasPage(t0, v, p) && HasPage(t0, r, w) && v != r && data == t0.blocks[v].pages[p].data
      requires t1 == WithPageIfBlank(t0, r, w, data)
      requires t2
              == t1.(table := Repoint(t1.table, t0.owners[v][p], r, w), owners := OwnersMoved(t0.owners, v, p, r, w))
      ensures t2 == PageMoved(t0, v, p, r, w) && SameExcept(t0.blocks, t2.blocks, r)
    {
      hide Repoint;
    }

    static lemma BlankAt(t: Tables, b: nat, p: nat)
      requires BlankFrom(t, b, p) && p < |t.blocks[b].pages|
      ensures !t.blocks[b].pages[p].isProgrammed
    {
    }

    /** What moving a page to a blank one keeps. */
    static lemma MigrateSafe(t0: Tables, t1: Tables, t2: Tables, pending: set<nat>, v: nat, p: nat, r: nat, w: nat,
                             data: seq<byte>, g: Geometry, contents: seq<seq<byte>>)
      requires Shaped(t0, g) && v < g.totalBlocks && r < g.totalBlocks && v != r && w < g.pagesPerBlock
      requires p < g.pagesPerBlock
      requires PageIsValid(t0, v, p) && PageIsProgrammed(t0, v, p) && BlankFrom(t0, r, w)
      requires data == t0.blocks[v].pages[p].data && |data| == PAGE_SIZE
      requires |t0.blocks[r].pages| == |t0.blocks[r].pageValid| == g.pagesPerBlock
      requires |t0.owners| == g.totalBlocks && |t0.owners[v]| == |t0.owners[r]| == g.pagesPerBlock
      requires t1 == WithPage(t0, r, w, data) && Shaped(t1, g)
      requires t2 == t1.(table := t2.table, owners := OwnersMoved(t1.owners, v, p, r, w))
      requires Repointed(t1.table, t2.table, t1.owners[v][p], r, w)
      requires Consistent(t0, pending, g, contents) && ToMigrate(t0, pending, v, p)
      ensures Consistent(t2, pending, g, contents) && BlankFrom(t2, r, w + 1) && ToMigrate(t2, pending, v, p + 1)
      ensures Unmoved(t0.table, t2.table, pending) && (RawState(t0, pending, g) ==> RawState(t2, pending, g))
    {
      hide Encodes, Correct, BlocksOk, OwnersExact, Repointed, ListExact, ToMigrate, RawState;
      assert t0.owners[r][w] == [] by { BlankUnowned(t0, pending, g, r, w); }
      MigrateConsistent(t0, t1, t2, pending, v, p, r, w, data, g, contents);
      NotOwned(t0, pending, g, v, p, t2.table, r, w);
      if RawState(t0, pending, g) {
        RawProgram(t0, pending, r, w, data, g);
        RawMove(t1, t2, pending, v, p, r, w, g);
      }
    }

    static lemma OwnersMovedTwice(o: seq<seq<seq<PageOwner>>>, v: nat, p: nat, r: nat, w: nat)
      requires v < |o| && p < |o[v]| && r < |o| && w < |o[r]| && v != r
      ensures var o1 := o[r := o[r][w := o[v][p]]]; o1[v := o1[v][p := []]] == OwnersMoved(o, v, p, r, w)
    {
    }

    /** Blocks that are not stored are in no owner list, and are not re-pointed. */
    static lemma NotOwned(t: Tables, pending: set<nat>, g: Geometry, v: nat, p: nat, table': seq<MappingEntry>,
                          r: nat, w: nat)
      requires OwnersExact(t, pending, g) && v < g.totalBlocks && p < g.pagesPerBlock && PageIsValid(t, v, p)
      requires v < |t.owners| && p < |t.owners[v]|
      requires Repointed(t.table, table', t.owners[v][p], r, w)
      ensures Unmoved(t.table, table', pending)
    {
      assert PageOwnersExact(t, pending, v, p);
      forall i | i in pending && i < |t.table| ensures t.table[i] == table'[i] {
        assert !Owns(t.owners[v][p], i);
      }
    }

    static lemma BlankUnowned(t: Tables, pending: set<nat>, g: Geometry, b: nat, p: nat)
      requires OwnersExact(t, pending, g) && b < g.totalBlocks && p < g.pagesPerBlock && !PageIsProgrammed(t, b, p)
      ensures b < |t.owners| && p < |t.owners[b]| && t.owners[b][p] == []
    {
      assert PageOwnersExact(t, pending, b, p);
    }

    static lemma ValidProgrammed(t: Tables, g: Geometry, b: nat, p: nat)
      requires Shaped(t, g) && b < g.totalBlocks && PageIsValid(t, b, p)
      ensures PageIsProgrammed(t, b, p)
    {
      assert BlockOk(t.blocks[b], g.pagesPerBlock);
    }

    static lemma PageSizes(t: Tables, g: Geometry, b: nat)
      requires Shaped(t, g) && b < g.totalBlocks
      ensures |t.blocks| == |t.owners| == g.totalBlocks && |t.owners[b]| == g.pagesPerBlock
      ensures |t.blocks[b].pages| == |t.blocks[b].pageValid| == g.pagesPerBlock
    {
      assert BlockOk(t.blocks[b], g.pagesPerBlock);
    }

    /** Programming the copy and moving the owners, together. */
    static lemma MigrateConsistent(t0: Tables, t1: Tables, t2: Tables, pending: set<nat>, v: nat, p: nat, r: nat,
                                   w: nat, data: seq<byte>, g: Geometry, contents: seq<seq<byte>>)
      requires Shaped(t0, g) && v < g.totalBlocks && r < g.totalBlocks && v != r && w < g.pagesPerBlock
      requires p < g.pagesPerBlock
      requires PageIsValid(t0, v, p) && PageIsProgrammed(t0, v, p) && BlankFrom(t0, r, w)
      requires data == t0.blocks[v].pages[p].data && |data| == PAGE_SIZE
      requires |t0.blocks[r].pages| == |t0.blocks[r].pageValid| == g.pagesPerBlock
      requires t1 == WithPage(t0, r, w, data) && Shaped(t1, g)
      requires t2 == t1.(table := t2.table, owners := OwnersMoved(t1.owners, v, p, r, w))
      requires Repointed(t1.table, t2.table, t1.owners[v][p], r, w)
      requires Consistent(t0, pending, g, contents) && ToMigrate(t0, pending, v, p)
      ensures Consistent(t2, pending, g, contents) && BlankFrom(t2, r, w + 1) && ToMigrate(t2, pending, v, p + 1)
    {
      hide Encodes, Correct, BlocksOk, Repointed, ListExact, ToMigrate, EntryOk;
      ProgramCorrect(t0, pending, r, w, data, contents);
      ProgramOwners(t0, pending, r, w, data, g, contents);
      assert PageOwnersExact(t1, pending, v, p) && PageOwnersExact(t0, pending, r, w);
      MoveCorrect(t1, t2, pending, v, p, r, w, contents);
      MoveOwners(t1, t2, pending, v, p, r, w, g);
      ToMigrateNext(t0, t1, t2, pending, v, p, r, w);
    }

    static lemma ToMigrateNext(t0: Tables, t1: Tables, t2: Tables, pending: set<nat>, v: nat, p: nat, r: nat, w: nat)
      requires t1.table == t0.table && t2.staged == t1.staged == t0.staged && v < |t0.blocks| && v < |t2.blocks|
      requires t2.blocks[v] == t0.blocks[v] && v != r
      requires v < |t1.owners| && p < |t1.owners[v]|
      requires ListExact(t1, pending, v, p, t1.owners[v][p])
      requires Repointed(t1.table, t2.table, t1.owners[v][p], r, w)
      requires ToMigrate(t0, pending, v, p)
      ensures ToMigrate(t2, pending, v, p + 1)
    {
      forall i | 0 <= i < |t2.table| && Live(t2, pending, i) && t2.table[i].blockIdx == v
        ensures p + 1 <= t2.table[i].pageIdx && PageIsValid(t2, v, t2.table[i].pageIdx)
      {
        assert !Owns(t1.owners[v][p], i);
        assert Live(t1, pending, i) && Live(t0, pending, i);
        assert !PointsAt(t1.table[i], v, p);
      }
    }

    /** Moves every valid page of the victim into the reserve block, in order. */
    method MigrateAll(victim: nat)
      requires Structure() && victim < flash.totalBlocks && victim != reserveBlockIdx
      requires safe ==> Consistent(Snap(), lost, Geo(), contents) && BlankFrom(Snap(), reserveBlockIdx, 0)
      requires safe ==> NoLiveOnStale(Snap(), lost, victim)
      modifies `lbaTable, `owners, `gcMigratedPages, flash`blocks, flash`totalPagesRead, flash`totalPagesProgrammed
      ensures Structure() && Spent(old(Slack()), 0)
      ensures Snap() == Migrated(old(Snap()), victim, 0, flash.pagesPerBlock, reserveBlockIdx, 0)
      ensures safe ==> Consistent(Snap(), lost, Geo(), contents) && Abandoned(Snap(), lost, victim)
      ensures safe ==> Unmoved(old(lbaTable), lbaTable, lost)
      ensures SameExcept(old(flash.blocks), flash.blocks, reserveBlockIdx)
      ensures safe && old(RawState(Snap(), lost, Geo())) ==> RawState(Snap(), lost, Geo())
      ensures gcMigratedPages == old(gcMigratedPages) + old(ValidOn(flash.blocks, victim))
    {
      hide Encodes, Consistent, BlocksOk, BlankFrom, ToMigrate, RawState, PageMoved, Traced, ValidBefore;
      PageSizes(Snap(), Geo(), victim);
      ghost var valid := flash.blocks[victim].pageValid;
      ValidNone(valid);
      StartMigration(Snap(), lost, victim);
      ghost var goal := Migrated(Snap(), victim, 0, flash.pagesPerBlock, reserveBlockIdx, 0);
      var w, p := 0, 0;
      while p < flash.pagesPerBlock
        invariant w <= p <= flash.pagesPerBlock && Structure() && Spent(old(Slack()), 0)
        invariant goal == Migrated(Snap(), victim, p, flash.pagesPerBlock, reserveBlockIdx, w)
        invariant safe ==> Consistent(Snap(), lost, Geo(), contents) && BlankFrom(Snap(), reserveBlockIdx, w)
        invariant safe ==> ToMigrate(Snap(), lost, victim, p) && Unmoved(old(lbaTable), lbaTable, lost)
        invariant SameExcept(old(flash.blocks), flash.blocks, reserveBlockIdx)
        invariant w == ValidBefore(valid, p) && gcMigratedPages == old(gcMigratedPages) + w
        invariant safe && old(RawState(Snap(), lost, Geo())) ==> RawState(Snap(), lost, Geo())
      {
        PageSizes(Snap(), Geo(), victim);
        ValidOneMore(valid, p);
        if !flash.blocks[victim].pageValid[p] {
          ghost var t := Snap();
          owners := owners[victim := owners[victim][p := []]];
          if safe {
            ClearStale(t, lost, victim, p, Geo(), contents);
            if RawState(t, lost, Geo()) {
              RawClear(t, lost, victim, p, Geo());
            }
          }
        } else {
          MigratePage(victim, p, w);
          w := w + 1;
        }
        p := p + 1;
      }
      if safe {
        EndMigration(Snap(), lost, victim, Geo());
      }
    }

    static lemma StartMigration(t: Tables, pending: set<nat>, v: nat)
      ensures NoLiveOnStale(t, pending, v) ==> ToMigrate(t, pending, v, 0)
    {
    }

    /** Clearing the owners of a page that is not valid. */
    static lemma ClearStale(t: Tables, pending: set<nat>, v: nat, p: nat, g: Geometry, contents: seq<seq<byte>>)
      requires Shaped(t, g) && v < g.totalBlocks && p < g.pagesPerBlock && !PageIsValid(t, v, p)
      requires Consistent(t, pending, g, contents) && ToMigrate(t, pending, v, p)
      ensures var t' := t.(owners := t.owners[v := t.owners[v][p := []]]);
              Consistent(t', pending, g, contents) && ToMigrate(t', pending, v, p + 1)
      ensures var t' := t.(owners := t.owners[v := t.owners[v][p := []]]);
              forall b, q :: BlankFrom(t, b, q) ==> BlankFrom(t', b, q)
    {
      hide Encodes, Holds, StagedHolds, BlocksOk, EntryOk;
      var t' := t.(owners := t.owners[v := t.owners[v][p := []]]);
      forall i | 0 <= i < |contents| ensures LbaCorrect(t', pending, contents, i) {
        assert LbaCorrect(t, pending, contents, i);
      }
      forall b, q | 0 <= b < g.totalBlocks && 0 <= q < g.pagesPerBlock ensures PageOwnersExact(t', pending, b, q) {
        assert PageOwnersExact(t, pending, b, q);
        if PageIsValid(t, b, q) {
          SameList(t, t', pending, b, q, t.owners[b][q]);
        }
      }
      forall i | 0 <= i < |t'.table| && Live(t', pending, i) && t'.table[i].blockIdx == v
        ensures p + 1 <= t'.table[i].pageIdx && PageIsValid(t', v, t'.table[i].pageIdx)
      {
        assert Live(t, pending, i);
      }
    }

    static lemma EndMigration(t: Tables, pending: set<nat>, v: nat, g: Geometry)
      requires Shaped(t, g) && v < g.totalBlocks && ToMigrate(t, pending, v, g.pagesPerBlock)
      ensures Abandoned(t, pending, v)
    {
      hide BlocksOk;
      forall i | 0 <= i < |t.table| && Live(t, pending, i) ensures t.table[i].blockIdx != v {
        assert EntryOk(t.table[i], g);
      }
    }

    /**
     * Runs when the active block is full. From a blank reserve block, it leaves the contents
     * of every block as they were, except those in `gone`: these are the live blocks on stale
     * pages of the victim, and their entries are left pointing at erased pages.
     */
    method RunGarbageCollectionIfNeeded(ghost writing: set<nat>) returns (ghost gone: set<nat>)
      requires Structure() && Good(writing) && Early() && Counted()
      modifies `lbaTable, `owners, `gcMigratedPages, `gcCount, `activeBlockIdx, `activePageIdx, `reserveBlockIdx,
               `safe, `lost, `intact, `collections, flash
      ensures Structure() && Good(writing) && Early() && Spent(old(Slack()), 0) && Counted()
      ensures State() == Collected(old(State()), Geo())
      ensures activePageIdx < flash.pagesPerBlock && (safe ==> old(safe))
      ensures lost == old(lost) + gone && intact == (old(intact) && gone == {})
      ensures gone != {} ==> old(activePageIdx) == flash.pagesPerBlock && activeBlockIdx != old(reserveBlockIdx)
                             && gone == StaleLive(old(Snap()), old(lost), activeBlockIdx)
      ensures safe ==> forall i :: i in gone ==> Gone(Snap(), i)
      ensures safe ==> Unmoved(old(lbaTable), lbaTable, gone)
    {
      hide Encodes, Consistent, Shaped, BlocksOk, Good, EarlyAt, StaleLive, Collected, Gone;
      gone := {};
      assert lost + {} == lost;
      if activePageIdx < flash.pagesPerBlock {
        NotFull(State(), Geo());
        return;
      }
      gone := CollectFull(writing);
    }

    static lemma NotFull(s: Machine, g: Geometry)
      requires s.page < g.pagesPerBlock
      ensures Collected(s, g) == s
    {
    }

    /** The active block is full: scan, and migrate or take the reserve. */
    method CollectFull(ghost writing: set<nat>) returns (ghost gone: set<nat>)
      requires Structure() && Good(writing) && Early() && activePageIdx == flash.pagesPerBlock && Counted()
      modifies `lbaTable, `owners, `gcMigratedPages, `gcCount, `activeBlockIdx, `activePageIdx, `reserveBlockIdx,
               `safe, `lost, `intact, `collections, flash
      ensures Structure() && Good(writing) && Early() && Spent(old(Slack()), 0) && Counted()
      ensures State() == Collected(old(State()), Geo()) && activePageIdx < flash.pagesPerBlock && (safe ==> old(safe))
      ensures lost == old(lost) + gone && intact == (old(intact) && gone == {})
      ensures gone != {} ==>
                activeBlockIdx != old(reserveBlockIdx) && gone == StaleLive(old(Snap()), old(lost), activeBlockIdx)
      ensures safe ==> (forall i :: i in gone ==> Gone(Snap(), i)) && Unmoved(old(lbaTable), lbaTable, gone)
    {
      hide Encodes, Consistent, Shaped, BlocksOk, BlankFrom, RawState, ReserveFresh, StaleLive, ScanVictim, Migrated,
        Wiped, FoundBlank, LostNothing, Traced, Gone, NextIndex, NextReserve, NoLiveOnStale, IsVictim, Collected,
        Unmoved, EarlyAt, Ledger, Reclaims, AllMoves, ValidOn;
      BlockCount(Snap(), Geo());
      var victim, maxInvalid := SelectVictim();
      CollectedMeans(State(), Geo(), victim, maxInvalid);
      gone := if maxInvalid == 0 then {} else StaleLive(Snap(), lost, victim);
      OneMoreReclaim(collections, Collection(Snap(), reserveBlockIdx, lost), victim, maxInvalid);
      RecordCollection(gone, victim, maxInvalid, writing);
      if maxInvalid == 0 {
        Rotate(writing);
        assert Unmoved(lbaTable, lbaTable, {}) by { NobodyMoved(lbaTable); }
        return;
      }
      ghost var t := Snap();
      gcCount := gcCount + 1;
      Reclaim(victim, maxInvalid, writing);
      if safe {
        StaleGone(t, old(lost), Snap(), lost, victim);
      }
    }

    static lemma NobodyMoved(t: seq<MappingEntry>)
      ensures Unmoved(t, t, {})
    {
    }

    /** What a collection makes of the machine, by cases. */
    static lemma CollectedMeans(s: Machine, g: Geometry, v: nat, m: nat)
      requires s.page >= g.pagesPerBlock && (v, m) == ScanVictim(s.t.blocks, s.reserve, |s.t.blocks|)
      ensures var trace := s.collections + [Collection(s.t, s.reserve, s.lost)];
              var t := Wiped(Migrated(s.t, v, 0, g.pagesPerBlock, s.reserve, 0), v, g.pagesPerBlock);
              && (m == 0 ==>
                    Collected(s, g) == Machine(s.t, s.reserve, 0, NextIndex(s.reserve, g.totalBlocks), s.lost, trace))
              && (m > 0 ==>
                    Collected(s, g) == Machine(t, v, 0, NextReserve(s.reserve, v, g.totalBlocks),
                                               s.lost + StaleLive(s.t, s.lost, v), trace))
    {
      hide ScanVictim, StaleLive, Migrated, Wiped, NextIndex, NextReserve;
    }

    /** Takes down the collection about to start, and gives up the blocks on stale pages of the victim. */
    ghost method RecordCollection(gone: set<nat>, victim: nat, maxInvalid: nat, writing: set<nat>)
      requires Structure() && Good(writing) && Early()
      requires (victim, maxInvalid) == ScanVictim(flash.blocks, reserveBlockIdx, |flash.blocks|)
      requires gone == if maxInvalid == 0 then {} else StaleLive(Snap(), lost, victim)
      modifies `safe, `lost, `intact, `collections
      ensures Structure() && Ledger(writing) && |collections| > 0 && EarlyAt(|collections| - 1)
      ensures collections == old(collections) + [Collection(Snap(), reserveBlockIdx, old(lost))]
      ensures lost == old(lost) + gone && intact == (old(intact) && gone == {})
      ensures safe == (old(safe) && BlankFrom(Snap(), reserveBlockIdx, 0))
      ensures safe ==>
                Consistent(Snap(), lost, Geo(), contents) && (maxInvalid > 0 ==> NoLiveOnStale(Snap(), lost, victim))
    {
      hide Encodes, Consistent, Shaped, BlocksOk, BlankFrom, StaleLive, ScanVictim, NoLiveOnStale, RawState,
        ReserveFresh, TracedAs, FoundBlank, LostNothing;
      if safe {
        EarlyGcSafe(Snap(), lost, Geo(), activeBlockIdx, reserveBlockIdx, |collections|, victim);
      }
      LoseStale(Snap(), lost, victim, Geo(), contents);
      assert gone == {} ==> lost + gone == lost;
      ghost var c, before := Collection(Snap(), reserveBlockIdx, lost), collections;
      CollectionIs(c, victim, maxInvalid);
      TraceGrows(before, c, safe, intact);
      safe := safe && BlankFrom(Snap(), reserveBlockIdx, 0);
      lost, intact, collections := lost + gone, intact && gone == {}, collections + [c];
    }

    /** The blocks on stale pages are given up; no owner list names them. */
    static lemma LoseStale(t: Tables, pending: set<nat>, v: nat, g: Geometry, contents: seq<seq<byte>>)
      ensures var lost := pending + StaleLive(t, pending, v);
              && NoLiveOnStale(t, lost, v)
              && (t.staged.Some? && t.staged.value.lba !in pending ==> t.staged.value.lba !in lost)
              && (Consistent(t, pending, g, contents) ==> Consistent(t, lost, g, contents))
    {
      hide Encodes, Holds, StagedHolds;
      var lost := pending + StaleLive(t, pending, v);
      if Consistent(t, pending, g, contents) {
        forall i | 0 <= i < |contents| ensures LbaCorrect(t, lost, contents, i) {
          assert LbaCorrect(t, pending, contents, i);
        }
        forall b, p | 0 <= b < g.totalBlocks && 0 <= p < g.pagesPerBlock ensures PageOwnersExact(t, lost, b, p) {
          assert PageOwnersExact(t, pending, b, p);
          if PageIsValid(t, b, p) {
            SameLive(t, pending, t, lost, b, p, t.owners[b][p]);
          }
        }
      }
    }

    /** What was given up points into the erased block. */
    static lemma StaleGone(t: Tables, pending: set<nat>, t': Tables, lost: set<nat>, v: nat)
      requires lost == pending + StaleLive(t, pending, v) && Unmoved(t.table, t'.table, lost) && BlankFrom(t', v, 0)
      ensures forall i :: i in StaleLive(t, pending, v) ==> Gone(t', i)
      ensures Unmoved(t.table, t'.table, StaleLive(t, pending, v))
    {
    }

    static lemma CollectionIs(c: Collection, v: nat, m: nat)
      requires (v, m) == ScanVictim(c.t.blocks, c.reserve, |c.t.blocks|)
      ensures FoundBlank(c) == BlankFrom(c.t, c.reserve, 0)
      ensures LostNothing(c) == (m == 0 || StaleLive(c.t, c.lost, v) == {})
    {
      hide ScanVictim, StaleLive;
    }

    static lemma TraceGrows(a: seq<Collection>, c: Collection, safe: bool, intact: bool)
      requires TracedAs(a, safe, intact)
      ensures TracedAs(a + [c], safe && FoundBlank(c), intact && LostNothing(c))
    {
      hide FoundBlank, LostNothing;
      var b := a + [c];
      assert b[|a|] == c && forall k :: 0 <= k < |a| ==> b[k] == a[k];
    }

    /** No block has stale pages: the reserve becomes the active block. */
    method Rotate(ghost writing: set<nat>)
      requires Structure() && 1 <= |collections|
      requires Ledger(writing)
      requires safe ==> Consistent(Snap(), lost, Geo(), contents) && BlankFrom(Snap(), reserveBlockIdx, 0)
      requires EarlyAt(|collections| - 1)
      modifies `activeBlockIdx, `activePageIdx, `reserveBlockIdx
      ensures Structure() && Good(writing) && Early()
      ensures activePageIdx == 0 && activeBlockIdx == old(reserveBlockIdx)
      ensures reserveBlockIdx == NextIndex(old(reserveBlockIdx), flash.totalBlocks)
    {
      hide Encodes, Consistent, Shaped, BlocksOk, BlankFrom, RawState, ReserveFresh, NextIndex, FoundBlank,
        LostNothing, Traced;
      BlockCount(Snap(), Geo());
      ghost var active := activeBlockIdx;
      activeBlockIdx := reserveBlockIdx;
      activePageIdx := 0;
      reserveBlockIdx := NextIndex(reserveBlockIdx, flash.totalBlocks);
      RotateFresh(Snap(), Geo(), active, activeBlockIdx, reserveBlockIdx, |collections|);
    }

    /** While the reserve is fresh it is blank; with raw traffic nothing live is on a stale page of any block. */
    static lemma EarlyGcSafe(t: Tables, pending: set<nat>, g: Geometry, active: nat, reserve: nat, n: nat, victim: nat)
      ensures ReserveFresh(t, g, active, reserve, n) && n + 2 <= g.totalBlocks ==> BlankFrom(t, reserve, 0)
      ensures RawState(t, pending, g) ==> StaleLive(t, pending, victim) == {}
      ensures StaleLive(t, pending, victim) == {} ==> pending + StaleLive(t, pending, victim) == pending
    {
    }

    /** Taking the reserve as active block leaves the later blocks blank. */
    static lemma RotateFresh(t: Tables, g: Geometry, active: nat, old_reserve: nat, new_reserve: nat, n: nat)
      requires 1 <= n && old_reserve < g.totalBlocks && g.totalBlocks >= 2
      requires new_reserve == NextIndex(old_reserve, g.totalBlocks)
      ensures new_reserve < g.totalBlocks && new_reserve != old_reserve
      ensures ReserveFresh(t, g, active, old_reserve, n - 1) ==> ReserveFresh(t, g, old_reserve, new_reserve, n)
    {
    }

    /** Phases 2 and 3: migrate, erase, and make the victim the active block. */
    method Reclaim(victim: nat, maxInvalid: nat, ghost writing: set<nat>)
      requires Structure() && maxInvalid > 0 && IsVictim(flash.blocks, reserveBlockIdx, victim, maxInvalid)
      requires safe ==> Consistent(Snap(), lost, Geo(), contents) && BlankFrom(Snap(), reserveBlockIdx, 0)
      requires safe ==> NoLiveOnStale(Snap(), lost, victim)
      requires Ledger(writing)
      requires 1 <= |collections| && EarlyAt(|collections| - 1)
      modifies `lbaTable, `owners, `gcMigratedPages, `activeBlockIdx, `activePageIdx, `reserveBlockIdx, flash
      ensures Structure() && Good(writing) && Early() && Spent(old(Slack()), 0)
      ensures activePageIdx == 0 && activeBlockIdx == victim && BlankFrom(Snap(), victim, 0)
      ensures gcMigratedPages == old(gcMigratedPages) + old(ValidOn(flash.blocks, victim))
      ensures Snap()
              == Wiped(Migrated(old(Snap()), victim, 0, flash.pagesPerBlock, old(reserveBlockIdx), 0),
                       victim, flash.pagesPerBlock)
      ensures reserveBlockIdx == NextReserve(old(reserveBlockIdx), victim, flash.totalBlocks)
      ensures safe ==> Unmoved(old(lbaTable), lbaTable, lost)
    {
      hide Encodes, Consistent, Shaped, BlocksOk, RawState, ReserveFresh, NoLiveOnStale, BlankFrom, NextReserve,
        Migrated, Wiped, FoundBlank, LostNothing, Traced, ValidOn;
      BlockCount(Snap(), Geo());
      Evacuate(victim);
      activeBlockIdx, activePageIdx := victim, 0;
      AdvanceReserve();
    }

    /** The reserve pointer moves on, past the active block. */
    method AdvanceReserve()
      requires flash.totalBlocks >= 2 && reserveBlockIdx < flash.totalBlocks
      modifies `reserveBlockIdx
      ensures reserveBlockIdx == NextReserve(old(reserveBlockIdx), activeBlockIdx, flash.totalBlocks)
    {
      reserveBlockIdx := NextIndex(reserveBlockIdx, flash.totalBlocks);
      if reserveBlockIdx == activeBlockIdx {
        reserveBlockIdx := NextIndex(reserveBlockIdx, flash.totalBlocks);
      }
    }

    /** The victim's live pages move to the reserve block; then it is erased. */
    method Evacuate(victim: nat)
      requires Structure() && victim < |flash.blocks| && victim != reserveBlockIdx
      requires flash.blocks[victim].invalidPageCount > 0
      requires safe ==> Consistent(Snap(), lost, Geo(), contents) && BlankFrom(Snap(), reserveBlockIdx, 0)
      requires safe ==> NoLiveOnStale(Snap(), lost, victim)
      requires 1 <= |collections|
      modifies `lbaTable, `owners, `gcMigratedPages, flash
      ensures Structure() && Spent(old(Slack()), 0) && BlankFrom(Snap(), victim, 0)
      ensures gcMigratedPages == old(gcMigratedPages) + old(ValidOn(flash.blocks, victim))
      ensures Snap()
              == Wiped(Migrated(old(Snap()), victim, 0, flash.pagesPerBlock, reserveBlockIdx, 0),
                       victim, flash.pagesPerBlock)
      ensures safe ==> Consistent(Snap(), lost, Geo(), contents) && Unmoved(old(lbaTable), lbaTable, lost)
      ensures safe && old(RawState(Snap(), lost, Geo())) ==> RawState(Snap(), lost, Geo())
      ensures old(ReserveFresh(Snap(), Geo(), activeBlockIdx, reserveBlockIdx, |collections| - 1)) ==>
                ReserveFresh(Snap(), Geo(), victim, NextReserve(reserveBlockIdx, victim, flash.totalBlocks),
                             |collections|)
    {
      hide Encodes, Consistent, Shaped, BlocksOk, RawState, ReserveFresh, NoLiveOnStale, Abandoned, BlankFrom,
        WithErased, Migrated, Traced, ValidOn;
      ghost var t0, g := Snap(), Geo();
      BlockCount(t0, g);
      MigrateAll(victim);
      ghost var t1 := Snap();
      BlockCount(t1, g);
      EraseVictim(victim);
      if ReserveFresh(t0, g, activeBlockIdx, reserveBlockIdx, |collections| - 1) {
        var next := NextReserve(reserveBlockIdx, victim, flash.totalBlocks);
        ReclaimFresh(t0, t1, g, activeBlockIdx, reserveBlockIdx, victim, next, |collections|);
      }
    }

    /** Erases the victim, on which nothing live is left. */
    method EraseVictim(victim: nat)
      requires Structure() && victim < flash.totalBlocks
      requires safe ==> Consistent(Snap(), lost, Geo(), contents) && Abandoned(Snap(), lost, victim)
      modifies `owners, flash`blocks, flash`totalBlocksErased
      ensures Structure() && Slack() == old(Slack())
      ensures victim < |old(Snap()).blocks| && victim < |old(Snap()).owners|
      ensures Snap() == WithErased(old(Snap()), victim, flash.pagesPerBlock) && BlankFrom(Snap(), victim, 0)
      ensures safe ==> Consistent(Snap(), lost, Geo(), contents)
      ensures safe && old(RawState(Snap(), lost, Geo())) ==> RawState(Snap(), lost, Geo())
    {
      hide Encodes, Consistent, BlocksOk, RawState, Abandoned, BlankFrom, Traced;
      ghost var t1, g := Snap(), Geo();
      BlockCount(t1, g);
      EraseShaped(t1, victim, g);
      if safe {
        EraseConsistent(t1, lost, victim, g, contents);
        if RawState(t1, lost, g) {
          RawErase(t1, lost, victim, g);
        }
      }
      var _ := flash.EraseBlock(victim);
      owners := owners[victim := seq(flash.pagesPerBlock, _ => [])];
    }

    static lemma BlockCount(t: Tables, g: Geometry)
      requires Shaped(t, g)
      ensures |t.blocks| == |t.owners| == g.totalBlocks && g.totalBlocks >= 2 && g.pagesPerBlock >= 1
      ensures |t.table| == g.lbas
    {
    }

    /** Reclaiming a used block leaves the blocks from the next reserve on blank. */
    static lemma ReclaimFresh(t0: Tables, t1: Tables, g: Geometry, active: nat, r: nat, victim: nat, r': nat, n: nat)
      requires Shaped(t0, g) && 1 <= n && r < g.totalBlocks && victim < |t0.blocks| && victim != r
      requires t0.blocks[victim].invalidPageCount > 0
      requires SameExcept(t0.blocks, t1.blocks, r) && |t1.owners| == |t1.blocks| == g.totalBlocks
      requires r + 1 < g.totalBlocks && r + 1 != victim ==> r' == r + 1
      requires ReserveFresh(t0, g, active, r, n - 1)
      ensures ReserveFresh(WithErased(t1, victim, g.pagesPerBlock), g, victim, r', n)
    {
      hide BlocksOk;
      var t2 := WithErased(t1, victim, g.pagesPerBlock);
      if n + 2 <= g.totalBlocks {
        if victim >= r {
          StaleNotBlank(t0, g, victim);
        }
        forall b | r' <= b < g.totalBlocks ensures BlankFrom(t2, b, 0) {
          assert BlankFrom(t0, b, 0);
        }
      }
    }

    // -------------------------------------------------------------- writing

    /** A page has just been programmed for the write in progress; nobody owns it yet. */
    ghost predicate NextProgrammed(data: seq<byte>)
      reads this, flash
    {
      && activePageIdx < flash.pagesPerBlock
      && PageIsProgrammed(Snap(), activeBlockIdx, activePageIdx) && PageIsValid(Snap(), activeBlockIdx, activePageIdx)
      && flash.blocks[activeBlockIdx].pages[activePageIdx].data == data
      && activeBlockIdx < |owners| && activePageIdx < |owners[activeBlockIdx]|
      && owners[activeBlockIdx][activePageIdx] == []
      && BlankFrom(Snap(), activeBlockIdx, activePageIdx + 1)
    }

    /** Makes room if needed, and programs the next page of the active block. */
    method ProgramActive(data: seq<byte>, ghost writing: set<nat>)
      requires Structure() && Good(writing) && Early() && Counted() && |data| == PAGE_SIZE
      modifies `lbaTable, `owners, `gcMigratedPages, `gcCount, `activeBlockIdx, `activePageIdx, `reserveBlockIdx,
               `safe, `lost, `intact, `collections, flash
      ensures Counted()
      ensures Structure() && Spent(old(Slack()), 1) && activePageIdx < flash.pagesPerBlock
      ensures (safe ==> old(safe)) && (intact ==> old(intact)) && old(lost) <= lost && Ledger(writing)
      ensures safe ==>
                Consistent(Snap(), lost, Geo(), contents) && NextProgrammed(data) && reserveBlockIdx != activeBlockIdx
      ensures Early()
      ensures State() == ProgrammedNext(old(State()), Geo(), data)
    {
      hide Encodes, Consistent, Shaped, BlocksOk, RawState, ReserveFresh, BlankFrom, Collected, FoundBlank,
        LostNothing, Traced;
      ghost var _ := RunGarbageCollectionIfNeeded(writing);
      ghost var t0, g := Snap(), Geo();
      PageSizes(t0, g, activeBlockIdx);
      if !PageIsProgrammed(t0, activeBlockIdx, activePageIdx) {
        ProgramShaped(t0, activeBlockIdx, activePageIdx, data, g);
      }
      if safe {
        ProgramSafe(t0, lost, activeBlockIdx, activePageIdx, data, g, contents);
        if RawState(t0, lost, g) {
          RawProgram(t0, lost, activeBlockIdx, activePageIdx, data, g);
        }
        ProgramFresh(t0, g, activeBlockIdx, activePageIdx, data, reserveBlockIdx, |collections|);
      }
      var ok := flash.ProgramPage(activeBlockIdx, activePageIdx, data);
      assert safe ==> Snap() == WithPage(t0, activeBlockIdx, activePageIdx, data);
    }

    static lemma ProgramSafe(t: Tables, pending: set<nat>, b: nat, p: nat, data: seq<byte>, g: Geometry,
                             contents: seq<seq<byte>>)
      requires Shaped(t, g) && b < g.totalBlocks && p < g.pagesPerBlock && |data| == PAGE_SIZE
      requires |t.blocks| == g.totalBlocks && |t.blocks[b].pages| == |t.blocks[b].pageValid| == g.pagesPerBlock
      requires Consistent(t, pending, g, contents) && BlankFrom(t, b, p)
      ensures !PageIsProgrammed(t, b, p)
      ensures var t' := WithPage(t, b, p, data);
              && Consistent(t', pending, g, contents) && BlankFrom(t', b, p + 1)
              && PageIsProgrammed(t', b, p) && PageIsValid(t', b, p) && t'.blocks[b].pages[p].data == data
      ensures b < |t.owners| && p < |t.owners[b]| && t.owners[b][p] == []
    {
      hide Encodes, Correct, BlocksOk;
      ProgramCorrect(t, pending, b, p, data, contents);
      ProgramOwners(t, pending, b, p, data, g, contents);
      assert PageOwnersExact(t, pending, b, p);
    }

    static lemma ProgramFresh(t: Tables, g: Geometry, b: nat, p: nat, data: seq<byte>, reserve: nat, n: nat)
      requires b < |t.blocks| && p < |t.blocks[b].pages| == |t.blocks[b].pageValid|
      requires b < g.totalBlocks
      ensures ReserveFresh(t, g, b, reserve, n) ==> ReserveFresh(WithPage(t, b, p, data), g, b, reserve, n)
    {
      if ReserveFresh(t, g, b, reserve, n) && n + 2 <= g.totalBlocks {
        var t' := WithPage(t, b, p, data);
        forall c | reserve <= c < g.totalBlocks ensures BlankFrom(t', c, 0) {
          assert BlankFrom(t, c, 0);
        }
      }
    }

    /** Maps block `i` to the half or whole of the page just programmed, in table and owner list. */
    method Map(i: nat, e: MappingEntry)
      requires i < |lbaTable| && e.blockIdx < |owners| && e.pageIdx < |owners[e.blockIdx]|
      modifies `lbaTable, `owners
      ensures Snap().(staged := None) == Attached(old(Snap()), i, e).(staged := None)
    {
      lbaTable := lbaTable[i := e];
      var list := owners[e.blockIdx][e.pageIdx] + [PageOwner(i, e.subSlot)];
      owners := owners[e.blockIdx := owners[e.blockIdx][e.pageIdx := list]];
    }

    static lemma RawNothingStaged(t: Tables, pending: set<nat>, g: Geometry)
      ensures RawState(t, pending, g) ==> t.staged.None?
    {
    }

    static lemma StagedBounds(t: Tables, g: Geometry)
      requires Shaped(t, g) && t.staged.Some?
      ensures |t.table| == g.lbas && StagedOk(t.staged.value, g)
    {
    }

    /** A page whose first half is the staged data holds the staged block. */
    static lemma StagedOnPage(t: Tables, pending: set<nat>, e: MappingEntry, data: seq<byte>, g: Geometry,
                              contents: seq<seq<byte>>)
      requires Consistent(t, pending, g, contents) && t.staged.Some? && t.staged.value.lba < |contents|
      requires t.staged.value.lba !in pending
      requires t.staged.value.compSize <= HALF_PAGE == |t.staged.value.data|
      requires e == MappingEntry(CompressedHalfPage, e.blockIdx, e.pageIdx, 0, t.staged.value.compSize)
      requires |data| == PAGE_SIZE && data[..HALF_PAGE] == t.staged.value.data
      requires PageIsProgrammed(t, e.blockIdx, e.pageIdx) && t.blocks[e.blockIdx].pages[e.pageIdx].data == data
      ensures Holds(e, t.blocks, contents[t.staged.value.lba])
    {
      hide Encodes;
      var s := t.staged.value;
      assert LbaCorrect(t, pending, contents, s.lba);
      assert HalfOf(data, 0, s.compSize) == s.data[..s.compSize];
    }

    static lemma AttachConsistent(t: Tables, pending: set<nat>, i: nat, e: MappingEntry, c: seq<byte>, g: Geometry,
                                  contents: seq<seq<byte>>)
      requires Shaped(t, g) && i < g.lbas == |contents| && EntryOk(e, g) && Mapped(e)
      requires Consistent(t, pending, g, contents)
      requires IsStaged(t, i) || i in pending
      requires i in pending ==> !IsStaged(t, i)
      requires PageIsProgrammed(t, e.blockIdx, e.pageIdx) && Holds(e, t.blocks, c)
      requires e.blockIdx < |t.owners| && e.pageIdx < |t.owners[e.blockIdx]|
      ensures Consistent(Attached(t, i, e), Reattached(pending, i), g, contents[i := c])
      ensures forall b, p :: BlankFrom(t, b, p) ==> BlankFrom(Attached(t, i, e), b, p)
    {
      hide Encodes, Holds, Shaped, Correct, OwnersExact;
      AttachCorrect(t, pending, i, e, c, contents);
      AttachOwners(t, pending, i, e, g);
    }

    /** The staged block is mapped to the first half of the page just programmed. */
    method AttachStaged(ghost data: seq<byte>, ghost writing: set<nat>)
      requires Structure() && staged.Some? && staged.value.lba !in lost && activePageIdx < flash.pagesPerBlock
      requires |data| == PAGE_SIZE && data[..HALF_PAGE] == staged.value.data
      requires safe ==> Consistent(Snap(), lost, Geo(), contents) && NextProgrammed(data)
      requires Early() && Ledger(writing)
      modifies `lbaTable, `owners, `staged
      ensures Structure() && staged.None? && Early() && Ledger(writing)
      ensures safe ==> Consistent(Snap(), lost, Geo(), contents)
      ensures var h := old(staged.value);
              State() == Unstaged(Mapping(old(State()), h.lba, CompressedHalfPage, 0, h.compSize))
    {
      hide Encodes, Consistent, Shaped, BlocksOk, RawState, ReserveFresh, BlankFrom, PageIsProgrammed, PageIsValid,
        Traced;
      var s := staged.value;
      ghost var t, g := Snap(), Geo();
      StagedBounds(t, g);
      BlockCount(t, g);
      PageSizes(t, g, activeBlockIdx);
      var e := MappingEntry(CompressedHalfPage, activeBlockIdx, activePageIdx, 0, s.compSize);
      AttachShaped(t, s.lba, e, g);
      if safe {
        StagedOnPage(t, lost, e, data, g, contents);
        AttachConsistent(t, lost, s.lba, e, contents[s.lba], g, contents);
        assert contents[s.lba := contents[s.lba]] == contents && lost - {s.lba} == lost;
      }
      RawNothingStaged(t, lost, g);
      Map(s.lba, e);
      staged := None;
      assert Snap() == Attached(t, s.lba, e);
      SameBlank(t, Snap(), g, activeBlockIdx, reserveBlockIdx, |collections|);
    }

    /** The block being written is mapped to the page just programmed, and the position advances. */
    method AttachWritten(lba: nat, e: MappingEntry, ghost stored: seq<byte>)
      requires Structure() && lba < lbas && activePageIdx < flash.pagesPerBlock && !IsStaged(Snap(), lba)
      requires Mapped(e) && EntryOk(e, Geo()) && e.blockIdx == activeBlockIdx && e.pageIdx == activePageIdx
      requires Ledger({lba})
      requires safe ==> Consistent(Snap(), lost, Geo(), contents) && reserveBlockIdx != activeBlockIdx
      requires safe ==> PageIsProgrammed(Snap(), activeBlockIdx, activePageIdx) && Holds(e, flash.blocks, stored)
      requires safe ==> BlankFrom(Snap(), activeBlockIdx, activePageIdx + 1)
      requires Early()
      requires rawOnly && safe ==> exists data :: NextProgrammed(data)
      modifies `lbaTable, `owners, `activePageIdx, `contents, `lost
      ensures Structure() && Good({}) && Early()
      ensures State() == Advanced(Mapping(old(State()), lba, e.state, e.subSlot, e.compressedSize))
      ensures contents == old(contents)[lba := stored] && lost == old(lost) - {lba}
    {
      hide Encodes, Consistent, Shaped, BlocksOk, RawState, ReserveFresh, BlankFrom, Holds, PageIsProgrammed, Traced;
      ghost var t, g := Snap(), Geo();
      BlockCount(t, g);
      PageSizes(t, g, activeBlockIdx);
      AttachShaped(t, lba, e, g);
      if safe {
        AttachConsistent(t, lost, lba, e, stored, g, contents);
      }
      if rawOnly && safe {
        ghost var data :| NextProgrammed(data);
        RawAttach(t, lba, e, g);
        assert lost - {lba} == {};
      }
      Map(lba, e);
      activePageIdx := activePageIdx + 1;
      contents := contents[lba := stored];
      lost := lost - {lba};
      assert Snap() == Attached(t, lba, e);
      SameBlank(t, Snap(), g, activeBlockIdx, reserveBlockIdx, |collections|);
    }

    /** Programs a page that starts with the staged half, and maps the staged block to it. */
    method ProgramWithStaged(data: seq<byte>, ghost writing: set<nat>)
      requires Structure() && Good(writing) && Early() && Counted()
      requires staged.Some?
      requires |data| == PAGE_SIZE && data[..HALF_PAGE] == staged.value.data
      modifies `lbaTable, `owners, `gcMigratedPages, `gcCount, `activeBlockIdx, `activePageIdx, `reserveBlockIdx,
               `safe, `lost, `intact, `collections, `staged, flash
      ensures Counted()
      ensures State() == ProgrammedStaged(old(State()), Geo(), data)
      ensures Structure() && Early() && activePageIdx < flash.pagesPerBlock
      ensures staged.None? && (safe ==> old(safe)) && (intact ==> old(intact)) && old(lost) <= lost && Ledger(writing)
      ensures Spent(old(Slack()), 1)
      ensures safe ==> Consistent(Snap(), lost, Geo(), contents) && reserveBlockIdx != activeBlockIdx
      ensures safe ==> BlankFrom(Snap(), activeBlockIdx, activePageIdx + 1)
      ensures safe ==> PageIsProgrammed(Snap(), activeBlockIdx, activePageIdx)
                       && flash.blocks[activeBlockIdx].pages[activePageIdx].data == data
    {
      hide Encodes, Consistent, Shaped, BlocksOk, RawState, ReserveFresh, BlankFrom, PageIsProgrammed, PageIsValid,
        Early, ProgrammedNext, Mapping, Traced;
      ProgramActive(data, writing);
      ghost var t := Snap();
      AttachStaged(data, writing);
      SameBlank(t, Snap(), Geo(), activeBlockIdx, reserveBlockIdx, |collections|);
      PageSizes(Snap(), Geo(), activeBlockIdx);
    }

    /** The staged half page goes to a page of its own. */
    method FlushStagedWrites(ghost writing: set<nat>)
      requires Structure() && Good(writing) && Early() && Counted()
      modifies `lbaTable, `owners, `gcMigratedPages, `gcCount, `activeBlockIdx, `activePageIdx, `reserveBlockIdx,
               `safe, `lost, `intact, `collections, `staged, flash
      ensures Counted()
      ensures State() == Flushed(old(State()), Geo())
      ensures Structure() && Good(writing) && Early()
      ensures staged.None? && (safe ==> old(safe)) && (intact ==> old(intact)) && old(lost) <= lost
      ensures Spent(old(Slack()), if old(staged).Some? then 1 else 0)
    {
      hide Encodes, Consistent, Shaped, BlocksOk, RawState, ReserveFresh, BlankFrom, PageIsProgrammed,
        ProgrammedStaged, Traced;
      if staged.None? {
        return;
      }
      StagedBounds(Snap(), Geo());
      var data := staged.value.data + Fill(0, HALF_PAGE);
      assert data[..HALF_PAGE] == staged.value.data;
      ProgramWithStaged(data, writing);
      activePageIdx := activePageIdx + 1;
    }

    /** The page a block was on goes stale, and a staged version is dropped. */
    method Detach(lba: nat)
      requires Structure() && Good({}) && Early() && lba < lbas
      modifies `staged, `lost, flash`blocks
      ensures Structure() && Good({lba}) && Early() && Slack() == old(Slack())
      ensures State() == Begun(old(State()), lba)
      ensures lost == old(lost) + {lba}
      ensures staged == if IsStaged(old(Snap()), lba) then None else old(staged)
    {
      hide Encodes, BlocksOk, RawState, ReserveFresh, Correct, OwnersExact, BlankFrom, Traced;
      ghost var t, g := Snap(), Geo();
      DetachShaped(t, lba, g);
      if safe {
        DetachCorrect(t, lost, lba, g, contents);
        DetachOwners(t, lost, lba, g);
        DetachBlank(t, lba, g, activeBlockIdx, reserveBlockIdx, |collections|);
        if RawState(t, lost, g) && lost == {} {
          assert lost + {lba} == {lba};
          RawDetach(t, lba, g);
        }
      }
      var e := lbaTable[lba];
      assert EntryOk(e, g);
      if Mapped(e) {
        flash.InvalidatePage(e.blockIdx, e.pageIdx);
      }
      if staged.Some? && staged.value.lba == lba {
        staged := None;
      }
      lost := lost + {lba};
      DetachedInBounds(t, lba, g);
      assert Snap() == Detached(t, lba);
    }

    static lemma DetachedInBounds(t: Tables, lba: nat, g: Geometry)
      requires Shaped(t, g) && lba < |t.table|
      ensures Mapped(t.table[lba]) ==>
                && t.table[lba].blockIdx < |t.blocks|
                && t.table[lba].pageIdx < |t.blocks[t.table[lba].blockIdx].pageValid|
    {
      assert EntryOk(t.table[lba], g);
    }

    static lemma DetachBlank(t: Tables, lba: nat, g: Geometry, active: nat, reserve: nat, n: nat)
      requires lba < |t.table|
      ensures forall b, p :: BlankFrom(t, b, p) ==> BlankFrom(Detached(t, lba), b, p)
      ensures ReserveFresh(t, g, active, reserve, n) ==> ReserveFresh(Detached(t, lba), g, active, reserve, n)
    {
    }

    static lemma ZeroedShaped(t: Tables, lba: nat, g: Geometry)
      requires Shaped(t, g) && lba < |t.table|
      ensures Shaped(Zeroed(t, lba), g)
    {
      hide BlocksOk;
      assert EntryOk(t.table[lba], g);
    }

    static lemma StagedShaped(t: Tables, h: StagedHalfPage, g: Geometry)
      requires Shaped(t, g) && StagedOk(h, g)
      ensures Shaped(Staged(t, h), g)
    {
      hide BlocksOk;
    }

    /** Zero blocks are only marked. */
    method StoreZero(lba: nat)
      requires Structure() && Good({lba}) && Early() && lba < lbas && !IsStaged(Snap(), lba)
      requires Balanced(1) && Counted()
      modifies `lbaTable, `zeroBlocks, `contents, `lost
      ensures State() == old(State()).(t := Zeroed(old(Snap()), lba), lost := old(lost) - {lba})
      ensures zeroBlocks == old(zeroBlocks) + 1
      ensures Valid() && contents == old(contents)[lba := ZeroBlock()] && lost == old(lost) - {lba}
    {
      hide Encodes, BlocksOk, RawState, ReserveFresh, Consistent, BlankFrom, Traced, Shaped, Counted;
      ghost var t, g := Snap(), Geo();
      if safe {
        ZeroConsistent(t, lost, lba, g, contents);
        if RawState(t, lost, g) && lost == {lba} {
          assert lost - {lba} == {};
          RawZero(t, lba, g);
        }
      }
      BlockCount(t, g);
      ZeroedShaped(t, lba, g);
      lbaTable := lbaTable[lba := lbaTable[lba].(state := SparseZeroState, compressedSize := 0)];
      zeroBlocks := zeroBlocks + 1;
      contents := contents[lba := ZeroBlock()];
      lost := lost - {lba};
      assert Snap() == Zeroed(t, lba);
      SameBlank(t, Snap(), g, activeBlockIdx, reserveBlockIdx, |collections|);
    }

    static lemma SameBlank(t: Tables, t': Tables, g: Geometry, active: nat, reserve: nat, n: nat)
      requires t.blocks == t'.blocks
      ensures forall b, p :: BlankFrom(t, b, p) == BlankFrom(t', b, p)
      ensures forall b, p :: PageIsProgrammed(t, b, p) == PageIsProgrammed(t', b, p)
      ensures ReserveFresh(t, g, active, reserve, n) ==> ReserveFresh(t', g, active, reserve, n)
    {
    }

    /** A compressed half waits for a partner. */
    method StageHalf(lba: nat, c: CompressedBlock, ghost src: seq<byte>)
      requires Structure() && Good({lba}) && Early() && lba < lbas && staged.None?
      requires Balanced(1) && Counted()
      requires c.compressedSize <= HALF_PAGE && HALF_PAGE <= |c.data| && |src| == PAGE_SIZE
      requires Encodes(c.data[..c.compressedSize], src)
      modifies `staged, `contents, `rawOnly, `lost
      ensures State() == old(State()).(t := Staged(old(Snap()), StagedHalfPage(lba, c.compressedSize, HalfPage(c))),
                                     lost := old(lost) - {lba})
      ensures Valid() && contents == old(contents)[lba := src] && lost == old(lost) - {lba} && !rawOnly
    {
      hide Encodes, BlocksOk, RawState, ReserveFresh, Consistent, BlankFrom, Traced, Shaped, Counted;
      ghost var t, g := Snap(), Geo();
      rawOnly := false;
      var s := StagedHalfPage(lba, c.compressedSize, HalfPage(c));
      assert s.data[..s.compSize] == c.data[..c.compressedSize];
      StagedShaped(t, s, g);
      if safe {
        StageConsistent(t, lost, s, g, contents, src);
      }
      staged := Some(s);
      contents := contents[lba := src];
      lost := lost - {lba};
      assert Snap() == Staged(t, s);
      SameBlank(t, Snap(), g, activeBlockIdx, reserveBlockIdx, |collections|);
    }

    /** The second half of a packed page. */
    static lemma SecondHalf(s: StagedHalfPage, c: CompressedBlock, data: seq<byte>)
      requires |s.data| == HALF_PAGE && c.compressedSize <= HALF_PAGE && c.compressedSize <= |c.data|
      requires data == s.data + HalfPage(c)
      ensures |data| == PAGE_SIZE && data[..HALF_PAGE] == s.data
      ensures HalfOf(data, 1, c.compressedSize) == c.data[..c.compressedSize]
    {
    }

    lemma StagedInBounds()
      requires Structure() && staged.Some?
      ensures staged.value.lba < lbas && staged.value.compSize <= HALF_PAGE == |staged.value.data|
    {
      hide BlocksOk, Traced;
    }

    /** Two compressed halves share a page. */
    method PackHalves(lba: nat, c: CompressedBlock, ghost src: seq<byte>)
      requires Structure() && Good({lba}) && Early() && Counted() && lba < lbas && staged.Some?
      requires staged.value.lba != lba
      requires Balanced(1)
      requires c.compressedSize <= HALF_PAGE && Handed(c) && !c.isZeroBlock && |src| == PAGE_SIZE
      requires Encodes(c.data[..c.compressedSize], src)
      modifies `lbaTable, `owners, `gcMigratedPages, `gcCount, `activeBlockIdx, `activePageIdx, `reserveBlockIdx,
               `safe, `lost, `intact, `collections, `staged, `halfPagePacks, `contents, `rawOnly, flash
      ensures Counted()
      ensures State() == Placed(old(State()), Geo(), lba, c)
      ensures halfPagePacks == old(halfPagePacks) + 1
      ensures Valid() && contents == old(contents)[lba := src] && (safe ==> old(safe)) && (intact ==> old(intact))
      ensures lba !in lost && !rawOnly
    {
      hide Encodes, Consistent, BlocksOk, RawState, ReserveFresh, BlankFrom, PageIsProgrammed, PageIsValid,
        Structure, Shaped, Early, ProgrammedStaged, Mapping, Traced;
      StagedInBounds();
      var data := staged.value.data + HalfPage(c);
      SecondHalf(staged.value, c, data);
      ProgramWithStaged(data, {lba});
      AttachSecondHalf(lba, c, data, src);
    }

    method AttachSecondHalf(lba: nat, c: CompressedBlock, ghost data: seq<byte>, ghost src: seq<byte>)
      requires Structure() && lba < lbas && activePageIdx < flash.pagesPerBlock && staged.None?
      requires c.compressedSize <= HALF_PAGE && HALF_PAGE <= |c.data| && |src| == PAGE_SIZE == |data|
      requires HalfOf(data, 1, c.compressedSize) == c.data[..c.compressedSize]
      requires Encodes(c.data[..c.compressedSize], src)
      requires Ledger({lba}) && Early()
      requires safe ==> Consistent(Snap(), lost, Geo(), contents) && reserveBlockIdx != activeBlockIdx
      requires safe ==> BlankFrom(Snap(), activeBlockIdx, activePageIdx + 1)
      requires safe ==> PageIsProgrammed(Snap(), activeBlockIdx, activePageIdx)
                        && flash.blocks[activeBlockIdx].pages[activePageIdx].data == data
      modifies `lbaTable, `owners, `activePageIdx, `contents, `lost, `rawOnly, `halfPagePacks
      ensures Structure() && Good({}) && Early() && !rawOnly && Slack() == old(Slack()) - 1
      ensures State() == Advanced(Mapping(old(State()), lba, CompressedHalfPage, 1, c.compressedSize))
      ensures halfPagePacks == old(halfPagePacks) + 1
      ensures contents == old(contents)[lba := src] && lost == old(lost) - {lba}
    {
      hide Encodes, Consistent, Shaped, BlocksOk, BlankFrom, RawState, ReserveFresh, Traced;
      rawOnly := false;
      var e := MappingEntry(CompressedHalfPage, activeBlockIdx, activePageIdx, 1, c.compressedSize);
      if safe {
        HalfOnPage(Snap(), e, data, src);
      }
      AttachWritten(lba, e, src);
      halfPagePacks := halfPagePacks + 1;
    }

    static lemma HalfOnPage(t: Tables, e: MappingEntry, data: seq<byte>, c: seq<byte>)
      requires e.state == CompressedHalfPage && e.compressedSize <= HALF_PAGE && |data| == PAGE_SIZE == |c|
      requires PageIsProgrammed(t, e.blockIdx, e.pageIdx) && t.blocks[e.blockIdx].pages[e.pageIdx].data == data
      requires Encodes(HalfOf(data, e.subSlot, e.compressedSize), c)
      ensures Holds(e, t.blocks, c)
    {
      hide Encodes;
    }

    /** Anything larger than half a page takes a page, with its data as they are. */
    method StoreRaw(lba: nat, data: seq<byte>, compressedSize: nat)
      requires Structure() && Good({lba}) && Early() && Counted() && lba < lbas && !IsStaged(Snap(), lba)
      requires Balanced(1) && |data| == PAGE_SIZE
      modifies `lbaTable, `owners, `gcMigratedPages, `gcCount, `activeBlockIdx, `activePageIdx, `reserveBlockIdx,
               `safe, `lost, `intact, `collections, `staged, `rawFullPages, `contents, flash
      ensures Counted()
      ensures State() == Advanced(Mapping(ProgrammedNext(Flushed(old(State()), Geo()), Geo(), data),
                                          lba, RawFullPage, 0, compressedSize))
      ensures rawFullPages == old(rawFullPages) + 1
      ensures Valid() && contents == old(contents)[lba := data]
      ensures (safe ==> old(safe)) && (intact ==> old(intact)) && lba !in lost
    {
      hide Encodes, Consistent, Shaped, BlocksOk, RawState, ReserveFresh, BlankFrom, Structure, Early,
        ProgrammedNext, Mapping, Traced;
      if staged.Some? {
        FlushStagedWrites({lba});
      }
      PlaceRaw(lba, data, compressedSize);
    }

    method PlaceRaw(lba: nat, data: seq<byte>, compressedSize: nat)
      requires Structure() && Good({lba}) && Early() && Counted() && lba < lbas && staged.None?
      requires Balanced(1) && |data| == PAGE_SIZE
      modifies `lbaTable, `owners, `gcMigratedPages, `gcCount, `activeBlockIdx, `activePageIdx, `reserveBlockIdx,
               `safe, `lost, `intact, `collections, `rawFullPages, `contents, flash
      ensures Counted()
      ensures State()
              == Advanced(Mapping(ProgrammedNext(old(State()), Geo(), data), lba, RawFullPage, 0, compressedSize))
      ensures rawFullPages == old(rawFullPages) + 1
      ensures Structure() && Good({}) && Early() && Balanced(0) && contents == old(contents)[lba := data]
      ensures (safe ==> old(safe)) && (intact ==> old(intact)) && lba !in lost
    {
      hide Encodes, Consistent, Shaped, BlocksOk, RawState, ReserveFresh, BlankFrom, ProgrammedNext, Traced, Mapping,
        NextProgrammed;
      ProgramActive(data, {lba});
      AttachRaw(lba, data, compressedSize);
    }

    method AttachRaw(lba: nat, ghost data: seq<byte>, compressedSize: nat)
      requires Structure() && lba < lbas && activePageIdx < flash.pagesPerBlock && staged.None? && |data| == PAGE_SIZE
      requires Ledger({lba}) && Early()
      requires safe ==>
                Consistent(Snap(), lost, Geo(), contents) && NextProgrammed(data) && reserveBlockIdx != activeBlockIdx
      modifies `lbaTable, `owners, `activePageIdx, `contents, `lost, `rawFullPages
      ensures Structure() && Good({}) && Early() && Slack() == old(Slack())
      ensures State() == Advanced(Mapping(old(State()), lba, RawFullPage, 0, compressedSize))
      ensures rawFullPages == old(rawFullPages) + 1
      ensures contents == old(contents)[lba := data] && lost == old(lost) - {lba}
    {
      hide Encodes, Consistent, Shaped, BlocksOk, RawState, ReserveFresh, BlankFrom, Traced, Mapping;
      BlockCount(Snap(), Geo());
      var e := MappingEntry(RawFullPage, activeBlockIdx, activePageIdx, 0, compressedSize);
      AttachWritten(lba, e, data);
      rawFullPages := rawFullPages + 1;
    }

    /**
     * A host write: the block then stores `Stored(c, src)`, and every other block what it
     * did. That is `src`, unless LZ4 brought the block to a size between half a page and
     * 3072 bytes. The written block is not among the lost ones any more. The account of
     * programmed pages stays balanced.
     */
    method WriteBlock(lba: nat, src: seq<byte>) returns (ok: bool, ghost c: CompressedBlock)
      requires Valid() && |src| == PAGE_SIZE
      modifies this, flash
      ensures Handed(c) && State() == Written(old(State()), Geo(), lba, c)
      ensures Counts() == Tallied(old(Counts()), old(State()), lba, c)
      ensures Valid() && (ok <==> lba < lbas)
      ensures ok ==> FormOf(c, src) && contents == old(contents)[lba := Stored(c, src)]
      ensures ok ==> (Stored(c, src) == src || MidSize(c))
      ensures !ok ==> rawOnly == old(rawOnly) && contents == old(contents) && lost == old(lost)
      ensures ok ==> lba !in lost && rawOnly == (old(rawOnly) && (c.isZeroBlock || c.compressedSize > HALF_PAGE))
      ensures (safe ==> old(safe)) && (intact ==> old(intact))
    {
      hide Structure, Good, Early, Balanced, FormOf, Represents, Encodes, Sorted, Begun, Placed, Shaped;
      Sizes();
      ok, c := false, CompressedBlock(true, true, 0, SparseZero, ZeroBlock());
      if lba >= |lbaTable| {
        return;
      }
      ok := true;
      StartWrite(lba);
      var comp := Lz4Compressor.Compress(src);
      c := comp;
      FormFacts(comp, src);
      Place(lba, comp, src);
    }

    lemma Sizes()
      requires Structure()
      ensures |lbaTable| == lbas
    {
    }

    /** Counts the write, and takes the old version of the block away. */
    method StartWrite(lba: nat)
      requires Valid() && lba < lbas == |lbaTable|
      modifies `hostWrites, `dropped, `staged, `lost, flash`blocks
      ensures Structure() && Good({lba}) && Early() && Balanced(1) && !IsStaged(Snap(), lba)
      ensures State() == Begun(old(State()), lba)
      ensures Counts()
              == old(Counts()).(writes := old(hostWrites) + 1,
                                dropped := old(dropped) + One(old(IsStaged(Snap(), lba))))
    {
      hide Structure, Good, Early, Begun;
      hostWrites := hostWrites + 1;
      if IsStaged(Snap(), lba) {
        dropped := dropped + 1;
      }
      Detach(lba);
    }

    static lemma FormFacts(c: CompressedBlock, src: seq<byte>)
      requires FormOf(c, src)
      ensures Handed(c) && Represents(c, src) && (c.isZeroBlock ==> c.compressedSize == 0)
      ensures c.compressedSize <= HALF_PAGE ==> c.isZeroBlock || c.isCompressed
      ensures Stored(c, src) == src || MidSize(c)
    {
      hide Represents, GreedyBlock, TooLarge;
    }

    /** Where a block goes depends on its compressed size. */
    method Place(lba: nat, comp: CompressedBlock, ghost src: seq<byte>)
      requires Structure() && Good({lba}) && Early() && Counted() && Balanced(1) && lba < lbas && !IsStaged(Snap(), lba)
      requires |src| == PAGE_SIZE && Handed(comp) && Represents(comp, src)
      requires (comp.isZeroBlock ==> comp.compressedSize == 0)
      requires comp.compressedSize <= HALF_PAGE ==> comp.isZeroBlock || comp.isCompressed
      modifies `lbaTable, `owners, `gcMigratedPages, `gcCount, `activeBlockIdx, `activePageIdx, `reserveBlockIdx,
               `safe, `lost, `intact, `collections, `staged, `zeroBlocks, `halfPagePacks, `rawFullPages, `contents,
               `rawOnly, flash
      ensures Counted()
      ensures State() == Placed(old(State()), Geo(), lba, comp)
      ensures Counts() == Sorted(old(Counts()), old(staged.Some?), comp)
      ensures Valid() && contents == old(contents)[lba := Stored(comp, src)] && lba !in lost
      ensures rawOnly == (old(rawOnly) && (comp.isZeroBlock || comp.compressedSize > HALF_PAGE))
      ensures (safe ==> old(safe)) && (intact ==> old(intact))
    {
      hide Encodes, Shaped, Consistent, BlocksOk, RawState, ReserveFresh, BlankFrom, Traced,
        Structure, Good, Early, Valid, Balanced, Flushed, ProgrammedNext, Mapping,
        ProgrammedStaged, HalfPage, Zeroed, Staged;
      if comp.isZeroBlock {
        StoreZero(lba);
      } else if comp.compressedSize <= HALF_PAGE {
        if staged.Some? {
          PackHalves(lba, comp, src);
        } else {
          StageHalf(lba, comp, src);
        }
      } else {
        StoreRaw(lba, comp.data, comp.compressedSize);
      }
    }

    // -------------------------------------------------------------- reading

    /**
     * A host read: from the staging buffer, as zeros, or from flash. While garbage
     * collection has always found a blank reserve, it returns what the block stores, for
     * every block that has not been lost.
     */
    method ReadBlock(lba: nat, dest: array<byte>) returns (ok: bool)
      requires Valid() && dest.Length == PAGE_SIZE
      modifies `hostReads, flash`totalPagesRead, dest
      ensures Valid() && State() == old(State())
      ensures lba >= lbas ==> !ok
      ensures hostReads == old(hostReads) + if lba < lbas then 1 else 0
      ensures safe && lba < lbas && lba !in lost ==> ok && dest[..] == contents[lba]
      ensures lba < lbas && !IsStaged(Snap(), lba) ==> ReadsAs(lbaTable[lba], flash.blocks, ok, dest[..])
    {
      hide Encodes, Consistent, Shaped, BlocksOk, RawState, ReserveFresh, BlankFrom, Traced;
      if lba >= |lbaTable| {
        return false;
      }
      hostReads := hostReads + 1;
      EntryBound(Snap(), Geo(), lba);
      if safe {
        ConsistentAt(Snap(), lost, Geo(), contents, lba);
      }
      if staged.Some? && staged.value.lba == lba {
        ok := ReadCompressed(staged.value.data, staged.value.compSize, dest, contents[lba]);
        return;
      }
      ok := ReadMapped(lbaTable[lba], dest, contents[lba]);
    }

    /**
     * What reading an entry gives, in any state: zeros if it is not mapped; a whole page as
     * the page is; half a page only if its bytes decode, and an erased one never.
     */
    static ghost predicate ReadsAs(e: MappingEntry, blocks: seq<FlashBlock>, ok: bool, data: seq<byte>) {
      && (!Mapped(e) ==> ok && data == ZeroBlock())
      && (Mapped(e) && e.blockIdx < |blocks| && e.pageIdx < |blocks[e.blockIdx].pages| ==>
            var page := blocks[e.blockIdx].pages[e.pageIdx];
            if e.state == RawFullPage then ok && data == if page.isProgrammed then page.data else Fill(0xFF, PAGE_SIZE)
            else if !page.isProgrammed then !ok
            else ok && |page.data| == PAGE_SIZE && e.compressedSize <= HALF_PAGE ==>
                   Lz4Format.Decode(HalfOf(page.data, e.subSlot, e.compressedSize), 0, []) == Some(data))
    }

    /** Reads the block that a table entry leads to. */
    method ReadMapped(e: MappingEntry, dest: array<byte>, ghost c: seq<byte>) returns (ok: bool)
      requires flash.Valid() && dest.Length == PAGE_SIZE && EntryOk(e, Geo())
      modifies flash`totalPagesRead, dest
      ensures Holds(e, flash.blocks, c) ==> ok && dest[..] == c
      ensures ReadsAs(e, flash.blocks, ok, dest[..])
    {
      hide Encodes, BlocksOk, Traced;
      if e.state == Unmapped || e.state == SparseZeroState {
        FillZero(dest);
        return true;
      }
      var data;
      ok, data := flash.ReadPage(e.blockIdx, e.pageIdx);
      if e.state == RawFullPage {
        CopyPage(data, dest);
      } else {
        var half := HalfOf(data, e.subSlot, e.compressedSize);
        assert half[..e.compressedSize] == half;
        assert data == Fill(0xFF, PAGE_SIZE) ==> half == Fill(0xFF, e.compressedSize);
        ErasedIsNoBlock(e.compressedSize);
        ok := ReadCompressed(half, e.compressedSize, dest, c);
      }
    }

    static lemma EntryBound(t: Tables, g: Geometry, i: nat)
      requires Shaped(t, g) && i < |t.table|
      ensures EntryOk(t.table[i], g) && |t.blocks| == g.totalBlocks
      ensures t.staged.Some? ==> StagedOk(t.staged.value, g)
    {
      hide BlocksOk;
      assert BlocksOk(t.blocks, g.totalBlocks, g.pagesPerBlock);
      BlockCount(t, g);
    }

    static lemma ConsistentAt(t: Tables, pending: set<nat>, g: Geometry, contents: seq<seq<byte>>, i: nat)
      requires Consistent(t, pending, g, contents) && i < |contents|
      ensures i < |t.table| && LbaCorrect(t, pending, contents, i)
    {
      hide Encodes, Holds, StagedHolds, OwnersExact;
    }

    /** Decompresses a payload that is the start of `data`. */
    static method ReadCompressed(data: seq<byte>, size: nat, dest: array<byte>, ghost b: seq<byte>) returns (ok: bool)
      requires size <= |data| <= PAGE_SIZE && dest.Length == PAGE_SIZE
      modifies dest
      ensures |b| == PAGE_SIZE && Encodes(data[..size], b) ==> ok && dest[..] == b
      ensures ok ==> Lz4Format.Decode(data[..size], 0, []) == Some(dest[..])
    {
      hide Encodes;
      var c := CompressedBlock(false, true, size, Full4KB, data + Fill(0, PAGE_SIZE - |data|));
      assert c.data[..size] == data[..size];
      ok := Lz4Compressor.Decompress(c, dest);
      assert |b| == PAGE_SIZE && Encodes(data[..size], b) ==> Represents(c, b);
    }

    static method FillZero(dest: array<byte>)
      requires dest.Length == PAGE_SIZE
      modifies dest
      ensures dest[..] == ZeroBlock()
    {
      forall i | 0 <= i < dest.Length {
        dest[i] := 0;
      }
    }

    static method CopyPage(data: seq<byte>, dest: array<byte>)
      requires |data| == PAGE_SIZE == dest.Length
      modifies dest
      ensures dest[..] == data
    {
      forall i | 0 <= i < dest.Length {
        dest[i] := data[i];
      }
    }
  }
}
