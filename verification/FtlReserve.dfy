/**
 * Garbage collection with a reserve block that is in use. The controller does not look
 * whether the reserve block is erased, and the array refuses to program a page twice: what
 * should have been moved there is dropped, and the table leads to what the page held before.
 */
module FtlReserve {
  import opened Bytes
  import opened FlashModel
  import opened Lz4Encoder
  import opened Lz4Compressor
  import opened FtlState
  import opened FtlSteps
  import opened FtlMachine
  import opened FtlController

  // ---------------------------------------------------------------- what migration does, exactly

  lemma {:induction false} ValidLess(valid: seq<bool>, p: nat, q: nat)
    requires p <= q <= |valid|
    ensures ValidBefore(valid, p) <= ValidBefore(valid, q) <= ValidBefore(valid, p) + (q - p)
    decreases q
  {
    if p < q {
      ValidLess(valid, p, q - 1);
    }
  }

  /** A page after an attempt to program it. */
  function Landed(page: PhysicalPage, data: seq<byte>): (r: PhysicalPage) {
    if page.isProgrammed then page else PhysicalPage(true, data)
  }

  /** The victim and the reserve, with all their pages and owner lists. */
  predicate TwoBlocks(t: Tables, v: nat, r: nat, n: nat) {
    && v != r && v < |t.blocks| == |t.owners| && r < |t.blocks|
    && |t.blocks[v].pages| == |t.blocks[v].pageValid| == |t.owners[v]| == n
    && |t.blocks[r].pages| == |t.blocks[r].pageValid| == |t.owners[r]| == n
  }

  ghost predicate ListsExact(t: Tables, pending: set<nat>, v: nat, p: nat) {
    && v < |t.blocks| && v < |t.owners| && |t.owners[v]| == |t.blocks[v].pageValid|
    && forall q :: p <= q < |t.owners[v]| && t.blocks[v].pageValid[q] ==> ListExact(t, pending, v, q, t.owners[v][q])
  }

  /** Block `i` is live, and on a valid page of `v` from page `p` on. */
  predicate Moves(t: Tables, pending: set<nat>, v: nat, p: nat, i: nat)
    requires i < |t.table|
  {
    && Live(t, pending, i) && t.table[i].blockIdx == v && v < |t.blocks|
    && p <= t.table[i].pageIdx < |t.blocks[v].pageValid| && t.blocks[v].pageValid[t.table[i].pageIdx]
  }

  /** Where page `q` goes if page `p` goes to page `w`. */
  function Target(t: Tables, v: nat, p: nat, w: nat, q: nat): (x: nat)
    requires v < |t.blocks| && p <= q <= |t.blocks[v].pageValid|
  {
    ValidLess(t.blocks[v].pageValid, p, q);
    w + ValidBefore(t.blocks[v].pageValid, q) - ValidBefore(t.blocks[v].pageValid, p)
  }

  /** What has become of the tables when all pages from `p` on have been moved. */
  ghost predicate MovedAll(t: Tables, t': Tables, pending: set<nat>, v: nat, p: nat, n: nat, r: nat, w: nat)
    requires TwoBlocks(t, v, r, n) && p <= n
  {
    && |t'.table| == |t.table| && t'.staged == t.staged && TwoBlocks(t', v, r, n) && |t'.blocks| == |t.blocks|
    && (forall b :: 0 <= b < |t.blocks| && b != r ==> t'.blocks[b] == t.blocks[b])
    && (forall i :: 0 <= i < |t.table| ==> EntryMoved(t, t', pending, v, p, r, w, i))
    && (forall q :: p <= q < n && t.blocks[v].pageValid[q] ==> PageLanded(t, t', v, p, n, r, w, q))
    && (forall x :: 0 <= x < n && (x < w || Target(t, v, p, w, n) <= x) ==>
         t'.blocks[r].pages[x] == t.blocks[r].pages[x])
  }

  ghost predicate EntryMoved(t: Tables, t': Tables, pending: set<nat>, v: nat, p: nat, r: nat, w: nat, i: nat)
    requires i < |t.table| == |t'.table|
  {
    t'.table[i] == if Moves(t, pending, v, p, i)
                   then t.table[i].(blockIdx := r, pageIdx := Target(t, v, p, w, t.table[i].pageIdx)) else t.table[i]
  }

  ghost predicate PageLanded(t: Tables, t': Tables, v: nat, p: nat, n: nat, r: nat, w: nat, q: nat)
    requires TwoBlocks(t, v, r, n) && TwoBlocks(t', v, r, n) && p <= q < n
  {
    var x := Target(t, v, p, w, q);
    x < n && t'.blocks[r].pages[x] == Landed(t.blocks[r].pages[x], t.blocks[v].pages[q].data)
  }

  /** Migration moves every live block of the victim to the page its rank says, blank or not. */
  lemma {:induction false} MigratedMoves(t: Tables, pending: set<nat>, v: nat, p: nat, n: nat, r: nat, w: nat)
    requires TwoBlocks(t, v, r, n) && w <= p <= n && ListsExact(t, pending, v, p)
    ensures MovedAll(t, Migrated(t, v, p, n, r, w), pending, v, p, n, r, w)
    decreases n - p
  {
    hide ListExact, PageMoved, OwnersCleared;
    if p < n {
      if t.blocks[v].pageValid[p] {
        var t1 := PageMoved(t, v, p, r, w);
        OneMoved(t, pending, v, p, n, r, w);
        MigratedMoves(t1, pending, v, p + 1, n, r, w + 1);
        MovedMore(t, t1, Migrated(t1, v, p + 1, n, r, w + 1), pending, v, p, n, r, w);
      } else {
        var t1 := OwnersCleared(t, v, p);
        OneCleared(t, pending, v, p, n, r);
        MigratedMoves(t1, pending, v, p + 1, n, r, w);
        ClearedMore(t, t1, Migrated(t1, v, p + 1, n, r, w), pending, v, p, n, r, w);
      }
    }
  }

  /** One page that is moved. */
  lemma OneMoved(t: Tables, pending: set<nat>, v: nat, p: nat, n: nat, r: nat, w: nat)
    requires TwoBlocks(t, v, r, n) && w <= p < n && ListsExact(t, pending, v, p) && t.blocks[v].pageValid[p]
    ensures var t1 := PageMoved(t, v, p, r, w);
            && TwoBlocks(t1, v, r, n) && ListsExact(t1, pending, v, p + 1)
            && |t1.table| == |t.table| && t1.staged == t.staged && |t1.blocks| == |t.blocks|
            && (forall b :: 0 <= b < |t.blocks| && b != r ==> t1.blocks[b] == t.blocks[b])
            && t1.blocks[r].pages == t.blocks[r].pages[w := Landed(t.blocks[r].pages[w], t.blocks[v].pages[p].data)]
            && (forall i :: 0 <= i < |t.table| ==> EntryStepped(t, t1, pending, v, p, r, w, i))
  {
    var t1, list := PageMoved(t, v, p, r, w), t.owners[v][p];
    RepointIsRepointed(t.table, list, r, w);
    forall i | 0 <= i < |t.table| ensures EntryStepped(t, t1, pending, v, p, r, w, i) {
      assert ListExact(t, pending, v, p, list);
      OwnsIs(t, pending, v, p, list, i);
    }
    forall q | p + 1 <= q < n && t1.blocks[v].pageValid[q] ensures ListExact(t1, pending, v, q, t1.owners[v][q]) {
      assert ListExact(t, pending, v, q, t.owners[v][q]);
      forall i | 0 <= i < |t.table|
        ensures Live(t, pending, i) && PointsAt(t.table[i], v, q) <==>
                  Live(t1, pending, i) && PointsAt(t1.table[i], v, q)
      {
        assert EntryStepped(t, t1, pending, v, p, r, w, i);
      }
      SameLive(t, pending, t1, pending, v, q, t.owners[v][q]);
    }
  }

  /** Entries on page `p` of the victim move, and no others. */
  ghost predicate EntryStepped(t: Tables, t1: Tables, pending: set<nat>, v: nat, p: nat, r: nat, w: nat, i: nat)
    requires i < |t.table| == |t1.table|
  {
    t1.table[i] == if Live(t, pending, i) && PointsAt(t.table[i], v, p) then t.table[i].(blockIdx := r, pageIdx := w)
                   else t.table[i]
  }

  lemma OwnsIs(t: Tables, pending: set<nat>, b: nat, p: nat, list: seq<PageOwner>, i: nat)
    requires i < |t.table| && ListExact(t, pending, b, p, list)
    ensures Owns(list, i) <==> Live(t, pending, i) && PointsAt(t.table[i], b, p)
  {
  }

  lemma OneCleared(t: Tables, pending: set<nat>, v: nat, p: nat, n: nat, r: nat)
    requires TwoBlocks(t, v, r, n) && p < n && ListsExact(t, pending, v, p)
    ensures var t1 := OwnersCleared(t, v, p);
            && TwoBlocks(t1, v, r, n) && ListsExact(t1, pending, v, p + 1)
            && t1.table == t.table && t1.blocks == t.blocks && t1.staged == t.staged
  {
    var t1 := OwnersCleared(t, v, p);
    forall q | p + 1 <= q < n && t1.blocks[v].pageValid[q] ensures ListExact(t1, pending, v, q, t1.owners[v][q]) {
      assert ListExact(t, pending, v, q, t.owners[v][q]);
      SameList(t, t1, pending, v, q, t.owners[v][q]);
    }
  }

  lemma MovedMore(t: Tables, t1: Tables, t': Tables, pending: set<nat>, v: nat, p: nat, n: nat, r: nat, w: nat)
    requires TwoBlocks(t, v, r, n) && w <= p < n && t.blocks[v].pageValid[p]
    requires TwoBlocks(t1, v, r, n) && |t1.table| == |t.table| && t1.staged == t.staged && |t1.blocks| == |t.blocks|
    requires forall b :: 0 <= b < |t.blocks| && b != r ==> t1.blocks[b] == t.blocks[b]
    requires t1.blocks[r].pages == t.blocks[r].pages[w := Landed(t.blocks[r].pages[w], t.blocks[v].pages[p].data)]
    requires forall i :: 0 <= i < |t.table| ==> EntryStepped(t, t1, pending, v, p, r, w, i)
    requires MovedAll(t1, t', pending, v, p + 1, n, r, w + 1)
    ensures MovedAll(t, t', pending, v, p, n, r, w)
  {
    forall i | 0 <= i < |t.table| ensures EntryMoved(t, t', pending, v, p, r, w, i) {
      assert EntryStepped(t, t1, pending, v, p, r, w, i) && EntryMoved(t1, t', pending, v, p + 1, r, w + 1, i);
    }
    var valid := t.blocks[v].pageValid;
    assert ValidBefore(valid, p + 1) == ValidBefore(valid, p) + 1;
    ValidLess(valid, p + 1, n);
    assert t'.blocks[r].pages[w] == t1.blocks[r].pages[w];
    forall q | p <= q < n && valid[q] ensures PageLanded(t, t', v, p, n, r, w, q) {
      if q > p {
        assert PageLanded(t1, t', v, p + 1, n, r, w + 1, q);
        ValidLess(valid, p + 1, q);
      }
    }
  }

  lemma ClearedMore(t: Tables, t1: Tables, t': Tables, pending: set<nat>, v: nat, p: nat, n: nat, r: nat, w: nat)
    requires TwoBlocks(t, v, r, n) && w <= p < n && !t.blocks[v].pageValid[p]
    requires TwoBlocks(t1, v, r, n) && t1.table == t.table && t1.blocks == t.blocks && t1.staged == t.staged
    requires MovedAll(t1, t', pending, v, p + 1, n, r, w)
    ensures MovedAll(t, t', pending, v, p, n, r, w)
  {
    forall i | 0 <= i < |t.table| ensures EntryMoved(t, t', pending, v, p, r, w, i) {
      assert EntryMoved(t1, t', pending, v, p + 1, r, w, i);
    }
    forall q | p <= q < n && t.blocks[v].pageValid[q] ensures PageLanded(t, t', v, p, n, r, w, q) {
      assert PageLanded(t1, t', v, p + 1, n, r, w, q);
    }
  }

  /** Pages of the reserve that are programmed stay as they are. */
  lemma {:induction false} ProgrammedStays(t: Tables, v: nat, p: nat, n: nat, r: nat, w: nat, x: nat)
    requires r < |t.blocks| && x < |t.blocks[r].pages| && t.blocks[r].pages[x].isProgrammed
    ensures var t' := Migrated(t, v, p, n, r, w);
            r < |t'.blocks| && x < |t'.blocks[r].pages| && t'.blocks[r].pages[x] == t.blocks[r].pages[x]
    decreases n - p
  {
    if p < n {
      ProgrammedStays(PageMoved(t, v, p, r, w), v, p + 1, n, r, w + 1, x);
      ProgrammedStays(OwnersCleared(t, v, p), v, p + 1, n, r, w, x);
    }
  }

  // ---------------------------------------------------------------- when a collection keeps everything

  /**
   * Block `i`, live on the victim `v`, finds its page of the reserve block `r` blank, or with
   * its contents there already: its bytes, for a whole page.
   */
  ghost predicate FindsRoom(t: Tables, v: nat, r: nat, contents: seq<seq<byte>>, i: nat) {
    && i < |t.table| && i < |contents| && v < |t.blocks| && r < |t.blocks|
    && t.table[i].pageIdx <= |t.blocks[v].pageValid|
    && var k := ValidBefore(t.blocks[v].pageValid, t.table[i].pageIdx);
       k < |t.blocks[r].pages|
       && (!t.blocks[r].pages[k].isProgrammed || PageHolds(t.table[i], t.blocks[r].pages[k], contents[i]))
  }

  /** The blocks that a collection of `v` has to move. */
  predicate OnVictim(t: Tables, lost: set<nat>, v: nat, i: nat) {
    i < |t.table| && Live(t, lost, i) && t.table[i].blockIdx == v
  }

  /** A collection about to start: the tables are right, and nothing live is on a stale page of the victim. */
  ghost predicate AboutToCollect(s: Machine, g: Geometry, contents: seq<seq<byte>>, v: nat) {
    && Shaped(s.t, g) && Consistent(s.t, s.lost, g, contents) && s.page == g.pagesPerBlock && s.reserve < g.totalBlocks
    && Victim(Collection(s.t, s.reserve, s.lost)) == (v, Victim(Collection(s.t, s.reserve, s.lost)).1)
    && Victim(Collection(s.t, s.reserve, s.lost)).1 > 0 && GivenUp(s) == {}
  }

  /** The tables before and after. */
  lemma CollectedTables(s: Machine, g: Geometry, contents: seq<seq<byte>>, v: nat) returns (m: Tables)
    requires AboutToCollect(s, g, contents, v)
    ensures TwoBlocks(s.t, v, s.reserve, g.pagesPerBlock) && |s.t.table| == |contents|
    ensures m == Migrated(s.t, v, 0, g.pagesPerBlock, s.reserve, 0)
    ensures MovedAll(s.t, m, s.lost, v, 0, g.pagesPerBlock, s.reserve, 0)
    ensures v < |m.blocks| == |m.owners| && Collected(s, g).t == WithErased(m, v, g.pagesPerBlock)
    ensures Collected(s, g).lost == s.lost
  {
    hide Correct, Migrated, ScanVictim, NextReserve, BlocksOk, StaleLive, MovedAll;
    VictimFound(s.t.blocks, s.reserve, |s.t.blocks|);
    FTLController.BlockCount(s.t, g);
    FTLController.PageSizes(s.t, g, v);
    FTLController.PageSizes(s.t, g, s.reserve);
    AllListsExact(s.t, s.lost, g, contents, v);
    m := Migrated(s.t, v, 0, g.pagesPerBlock, s.reserve, 0);
    MigratedMoves(s.t, s.lost, v, 0, g.pagesPerBlock, s.reserve, 0);
    MovedShape(s.t, m, s.lost, v, 0, g.pagesPerBlock, s.reserve, 0);
    assert s.lost + {} == s.lost && |s.t.table| == |contents| by { SameNumber(s.t, s.lost, g, contents); }
    FTLController.CollectedMeans(s, g, v, Victim(Collection(s.t, s.reserve, s.lost)).1);
  }

  lemma MovedShape(t: Tables, m: Tables, pending: set<nat>, v: nat, p: nat, n: nat, r: nat, w: nat)
    requires TwoBlocks(t, v, r, n) && p <= n && MovedAll(t, m, pending, v, p, n, r, w)
    ensures TwoBlocks(m, v, r, n)
  {
  }

  lemma SameNumber(t: Tables, lost: set<nat>, g: Geometry, contents: seq<seq<byte>>)
    requires Consistent(t, lost, g, contents)
    ensures |t.table| == |contents|
  {
  }

  lemma AllListsExact(t: Tables, lost: set<nat>, g: Geometry, contents: seq<seq<byte>>, v: nat)
    requires Consistent(t, lost, g, contents) && v < g.totalBlocks && v < |t.blocks| && v < |t.owners|
    requires |t.owners[v]| == |t.blocks[v].pageValid| == g.pagesPerBlock
    ensures ListsExact(t, lost, v, 0)
  {
    hide Correct, ListExact;
    forall q | 0 <= q < |t.owners[v]| && t.blocks[v].pageValid[q] ensures ListExact(t, lost, v, q, t.owners[v][q]) {
      assert PageOwnersExact(t, lost, v, q);
    }
  }

  /** A whole or half page holds something or not by its bytes and whether it is programmed. */
  lemma HoldsByBytes(e: MappingEntry, e': MappingEntry, page: PhysicalPage, page': PhysicalPage, c: seq<byte>)
    requires e' == e.(blockIdx := e'.blockIdx, pageIdx := e'.pageIdx)
    requires page'.isProgrammed == page.isProgrammed && page'.data == page.data
    ensures PageHolds(e', page', c) == PageHolds(e, page, c)
  {
    hide Encodes;
  }

  /** What becomes of a block that has to be moved. */
  lemma VictimKept(s: Machine, g: Geometry, contents: seq<seq<byte>>, v: nat, m: Tables, i: nat)
    requires AboutToCollect(s, g, contents, v) && OnVictim(s.t, s.lost, v, i)
    requires TwoBlocks(s.t, v, s.reserve, g.pagesPerBlock) && |s.t.table| == |contents|
    requires MovedAll(s.t, m, s.lost, v, 0, g.pagesPerBlock, s.reserve, 0)
    ensures LbaCorrect(WithErased(m, v, g.pagesPerBlock), s.lost, contents, i)
         <==> FindsRoom(s.t, v, s.reserve, contents, i)
  {
    hide Encodes, PageHolds, ScanVictim, BlocksOk, OwnersExact, Shaped, StagedHolds;
    var t, e, r := s.t, s.t.table[i], s.reserve;
    assert LbaCorrect(t, s.lost, contents, i);
    assert PageIsValid(t, v, e.pageIdx) by { NotGivenUp(s, v, i); }
    assert Moves(t, s.lost, v, 0, i) && EntryMoved(t, m, s.lost, v, 0, r, 0, i);
    assert PageLanded(t, m, v, 0, g.pagesPerBlock, r, 0, e.pageIdx);
    var k := ValidBefore(t.blocks[v].pageValid, e.pageIdx);
    var page := t.blocks[r].pages[k];
    var source := t.blocks[v].pages[e.pageIdx];
    var e' := e.(blockIdx := r, pageIdx := k);
    assert m.table[i] == e' && m.blocks[r].pages[k] == Landed(page, source.data);
    assert PageHolds(e, source, contents[i]);
    assert source.isProgrammed by { PageHoldsProgrammed(e, source, contents[i]); }
    HoldsByBytes(e, e', source, PhysicalPage(true, source.data), contents[i]);
    HoldsByBytes(e, e', page, page, contents[i]);
  }

  lemma PageHoldsProgrammed(e: MappingEntry, page: PhysicalPage, c: seq<byte>)
    requires PageHolds(e, page, c)
    ensures page.isProgrammed
  {
  }

  lemma NotGivenUp(s: Machine, v: nat, i: nat)
    requires GivenUp(s) == {} && Victim(Collection(s.t, s.reserve, s.lost)).0 == v
    requires Victim(Collection(s.t, s.reserve, s.lost)).1 > 0 && OnVictim(s.t, s.lost, v, i)
    ensures PageIsValid(s.t, v, s.t.table[i].pageIdx)
  {
    hide ScanVictim;
    assert i !in GivenUp(s);
  }

  /** A block that does not have to be moved is kept. */
  lemma OtherKept(s: Machine, g: Geometry, contents: seq<seq<byte>>, v: nat, m: Tables, i: nat)
    requires AboutToCollect(s, g, contents, v) && i < |contents| && !OnVictim(s.t, s.lost, v, i)
    requires TwoBlocks(s.t, v, s.reserve, g.pagesPerBlock) && |s.t.table| == |contents|
    requires m == Migrated(s.t, v, 0, g.pagesPerBlock, s.reserve, 0)
    requires MovedAll(s.t, m, s.lost, v, 0, g.pagesPerBlock, s.reserve, 0)
    ensures LbaCorrect(WithErased(m, v, g.pagesPerBlock), s.lost, contents, i)
  {
    hide Encodes, PageHolds, ScanVictim, BlocksOk, OwnersExact, Shaped, StagedHolds, Migrated;
    var t, e, r := s.t, s.t.table[i], s.reserve;
    assert LbaCorrect(t, s.lost, contents, i) && EntryMoved(t, m, s.lost, v, 0, r, 0, i);
    if Live(t, s.lost, i) && e.blockIdx == r {
      PageHoldsProgrammed(e, t.blocks[r].pages[e.pageIdx], contents[i]);
      ProgrammedStays(t, v, 0, g.pagesPerBlock, r, 0, e.pageIdx);
    }
  }

  /**
   * The exact condition for one collection, whatever the reserve block holds: all stored
   * blocks are kept if and only if each block on the victim finds room.
   */
  lemma CollectionKeeps(s: Machine, g: Geometry, contents: seq<seq<byte>>, v: nat)
    requires AboutToCollect(s, g, contents, v)
    ensures Collected(s, g).lost == s.lost
    ensures Correct(Collected(s, g).t, s.lost, contents) <==>
              forall i: nat :: OnVictim(s.t, s.lost, v, i) ==> FindsRoom(s.t, v, s.reserve, contents, i)
  {
    hide Encodes, LbaCorrect, FindsRoom, OnVictim, Migrated, AboutToCollect, Collected, EntryMoved, PageLanded, Target;
    var m := CollectedTables(s, g, contents, v);
    var t' := WithErased(m, v, g.pagesPerBlock);
    forall i | 0 <= i < |contents|
      ensures LbaCorrect(t', s.lost, contents, i)
         <==> (OnVictim(s.t, s.lost, v, i) ==> FindsRoom(s.t, v, s.reserve, contents, i))
    {
      if OnVictim(s.t, s.lost, v, i) {
        VictimKept(s, g, contents, v, m, i);
      } else {
        OtherKept(s, g, contents, v, m, i);
      }
    }
    assert forall i: nat :: OnVictim(s.t, s.lost, v, i) ==> i < |contents| by { OnlyInTable(s.t, s.lost, v); }
  }

  lemma OnlyInTable(t: Tables, lost: set<nat>, v: nat)
    ensures forall i: nat :: OnVictim(t, lost, v, i) ==> i < |t.table|
  {
  }

  /** For a whole page, room is a blank page or the same bytes. */
  lemma WholePageRoom(t: Tables, v: nat, r: nat, contents: seq<seq<byte>>, i: nat)
    requires i < |t.table| && i < |contents| && v < |t.blocks| && r < |t.blocks| && |contents[i]| == PAGE_SIZE
    requires t.table[i].state == RawFullPage && t.table[i].pageIdx <= |t.blocks[v].pageValid|
    requires ValidBefore(t.blocks[v].pageValid, t.table[i].pageIdx) < |t.blocks[r].pages|
    ensures var page := t.blocks[r].pages[ValidBefore(t.blocks[v].pageValid, t.table[i].pageIdx)];
            FindsRoom(t, v, r, contents, i) <==> !page.isProgrammed || page.data == contents[i]
  {
  }

  /** The page programmed after a rotation lands if and only if it is blank, or has those bytes already. */
  lemma RotationLands(s: Machine, g: Geometry, data: seq<byte>)
    requires Shaped(s.t, g) && s.page == g.pagesPerBlock && s.reserve < g.totalBlocks
    requires Victim(Collection(s.t, s.reserve, s.lost)).1 == 0
    ensures var r := ProgrammedNext(s, g, data);
            && r.active == s.reserve && r.page == 0 && s.reserve < |s.t.blocks| && s.reserve < |r.t.blocks|
            && |s.t.blocks[s.reserve].pages| > 0 && |r.t.blocks[s.reserve].pages| > 0
            && var page := s.t.blocks[s.reserve].pages[0];
               && r.t.blocks[s.reserve].pages[0] == Landed(page, data)
               && (r.t.blocks[s.reserve].pages[0].data == data <==> !page.isProgrammed || page.data == data)
  {
    hide ScanVictim, NextIndex, BlocksOk;
    FTLController.BlockCount(s.t, g);
    FTLController.PageSizes(s.t, g, s.reserve);
  }

  // ---------------------------------------------------------------- through the operations

  lemma AboutTo(ftl: FTLController, v: nat)
    requires ftl.Valid() && ftl.activePageIdx == ftl.flash.pagesPerBlock && AllFoundBlank(ftl.State())
    requires GivenUp(ftl.State()) == {}
    requires Victim(Collection(ftl.Snap(), ftl.reserveBlockIdx, ftl.lost)).0 == v
    requires Victim(Collection(ftl.Snap(), ftl.reserveBlockIdx, ftl.lost)).1 > 0
    ensures AboutToCollect(ftl.State(), ftl.Geo(), ftl.contents, v)
  {
    hide Consistent, Shaped, ScanVictim, StaleLive, FTLController.Early;
    ftl.TraceMeans();
  }

  /** The page that a moved whole block is then read from. */
  lemma VictimRead(s: Machine, g: Geometry, contents: seq<seq<byte>>, v: nat, i: nat)
    requires AboutToCollect(s, g, contents, v) && OnVictim(s.t, s.lost, v, i) && s.t.table[i].state == RawFullPage
    ensures i < |Collected(s, g).t.table| && i < |contents|
    ensures var t, e := Collected(s, g).t, Collected(s, g).t.table[i];
            && e.state == RawFullPage && t.staged == s.t.staged
            && e.blockIdx < |t.blocks| && e.pageIdx < |t.blocks[e.blockIdx].pages|
            && t.blocks[e.blockIdx].pages[e.pageIdx].isProgrammed
            && (t.blocks[e.blockIdx].pages[e.pageIdx].data == contents[i] <==>
                 FindsRoom(s.t, v, s.reserve, contents, i))
  {
    hide Encodes, Shaped, BlocksOk, OwnersExact, Collected, ScanVictim, FindsRoom, StaleLive, Migrated;
    var m := CollectedTables(s, g, contents, v);
    VictimKept(s, g, contents, v, m, i);
    var t, e := s.t, s.t.table[i];
    assert LbaCorrect(t, s.lost, contents, i) && PageHolds(e, t.blocks[v].pages[e.pageIdx], contents[i]);
    assert PageIsValid(t, v, e.pageIdx) by { NotGivenUp(s, v, i); }
    assert EntryMoved(t, m, s.lost, v, 0, s.reserve, 0, i)
      && PageLanded(t, m, v, 0, g.pagesPerBlock, s.reserve, 0, e.pageIdx);
  }

  /**
   * A collection with a victim, whatever its reserve block holds, and then a read of a whole
   * block that had to be moved. The read never fails; it is right if and only if the page of
   * the reserve that the block's rank leads to was blank, or held the same bytes.
   */
  method CollectThenReadWhole(ftl: FTLController, v: nat, i: nat) returns (ok: bool, read: seq<byte>)
    requires ftl.Valid() && ftl.activePageIdx == ftl.flash.pagesPerBlock && AllFoundBlank(ftl.State())
    requires Victim(Collection(ftl.Snap(), ftl.reserveBlockIdx, ftl.lost)).0 == v && GivenUp(ftl.State()) == {}
    requires Victim(Collection(ftl.Snap(), ftl.reserveBlockIdx, ftl.lost)).1 > 0
    requires i < |ftl.lbaTable| == ftl.lbas == |ftl.contents| && OnVictim(ftl.Snap(), ftl.lost, v, i)
    requires ftl.lbaTable[i].state == RawFullPage
    modifies ftl, ftl.flash
    ensures ftl.Valid() && ftl.contents == old(ftl.contents)
    ensures ok && (read == ftl.contents[i] <==> old(FindsRoom(ftl.Snap(), v, ftl.reserveBlockIdx, ftl.contents, i)))
  {
    hide FTLController.Early, FTLController.Good, GivenUp, Shaped, Collected, FindsRoom, ScanVictim;
    AboutTo(ftl, v);
    VictimRead(ftl.State(), ftl.Geo(), ftl.contents, v, i);
    ghost var gone := ftl.RunGarbageCollectionIfNeeded({});
    var dest := new byte[PAGE_SIZE](_ => 0);
    ok := ftl.ReadBlock(i, dest);
    read := dest[..];
  }
}
