/** Whole runs of host traffic against a plain map from logical block to contents. */
module FtlHost {
  import opened Bytes
  import opened FlashModel
  import opened Lz4Compressor
  import opened FtlState
  import opened FtlMachine
  import opened FtlController

  datatype HostOp = Write(lba: nat, block: seq<byte>) | Flush | Read(lba: nat)

  datatype Reply = Accepted(ok: bool) | Done | Contents(block: Option<seq<byte>>)

  // ---------------------------------------------------------------- the plain map

  function StoreAfter(store: seq<seq<byte>>, op: HostOp): (r: seq<seq<byte>>)
    ensures |r| == |store|
  {
    if op.Write? && op.lba < |store| then store[op.lba := op.block] else store
  }

  function ReplyTo(store: seq<seq<byte>>, op: HostOp): (r: Reply) {
    match op
    case Write(lba, _) => Accepted(lba < |store|)
    case Flush => Done
    case Read(lba) => Contents(if lba < |store| then Some(store[lba]) else None)
  }

  /** The store after a run, and the replies along it. */
  function StoreAfterAll(store: seq<seq<byte>>, ops: seq<HostOp>): (r: seq<seq<byte>>)
    ensures |r| == |store|
  {
    if ops == [] then store else StoreAfter(StoreAfterAll(store, ops[..|ops| - 1]), ops[|ops| - 1])
  }

  function Replies(store: seq<seq<byte>>, ops: seq<HostOp>): (r: seq<Reply>)
    ensures |r| == |ops|
  {
    if ops == [] then []
    else Replies(store, ops[..|ops| - 1]) + [ReplyTo(StoreAfterAll(store, ops[..|ops| - 1]), ops[|ops| - 1])]
  }

  /** A block reads back as the last one written to it. */
  lemma {:induction false} LastWrite(store: seq<seq<byte>>, ops: seq<HostOp>, lba: nat, k: nat)
    requires k < |ops| && ops[k].Write? && ops[k].lba == lba < |store|
    requires forall j :: k < j < |ops| ==> !(ops[j].Write? && ops[j].lba == lba)
    ensures StoreAfterAll(store, ops)[lba] == ops[k].block
    decreases |ops|
  {
    if k < |ops| - 1 {
      LastWrite(store, ops[..|ops| - 1], lba, k);
    }
  }

  lemma {:induction false} NeverWritten(store: seq<seq<byte>>, ops: seq<HostOp>, lba: nat)
    requires lba < |store|
    requires forall j :: 0 <= j < |ops| ==> !(ops[j].Write? && ops[j].lba == lba)
    ensures StoreAfterAll(store, ops)[lba] == store[lba]
    decreases |ops|
  {
    if ops != [] {
      NeverWritten(store, ops[..|ops| - 1], lba);
    }
  }

  predicate WellSized(ops: seq<HostOp>) {
    forall k :: 0 <= k < |ops| && ops[k].Write? ==> |ops[k].block| == PAGE_SIZE
  }

  // ---------------------------------------------------------------- the machine over a run

  /** `form` is the compressed form of the block, if the operation is a write. */
  ghost function Step(s: Machine, g: Geometry, op: HostOp, form: CompressedBlock): (r: Machine)
    requires Handed(form)
  {
    match op
    case Write(lba, _) => Written(s, g, lba, form)
    case Flush => Flushed(s, g)
    case Read(_) => s
  }

  predicate AllHanded(forms: seq<CompressedBlock>) {
    forall k :: 0 <= k < |forms| ==> Handed(forms[k])
  }

  ghost function After(s: Machine, g: Geometry, ops: seq<HostOp>, forms: seq<CompressedBlock>): (r: Machine)
    requires |ops| == |forms| && AllHanded(forms)
  {
    if ops == [] then s
    else
      var n := |ops| - 1;
      Step(After(s, g, ops[..n], forms[..n]), g, ops[n], forms[n])
  }

  /** The counters over a run. */
  ghost function TallyAfter(g: Geometry, ops: seq<HostOp>, forms: seq<CompressedBlock>): (k: Tally)
    requires |ops| == |forms| && AllHanded(forms)
  {
    if ops == [] then Tally(0, 0, 0, 0, 0)
    else
      var n := |ops| - 1;
      var before := TallyAfter(g, ops[..n], forms[..n]);
      if ops[n].Write? then Tallied(before, After(Fresh(g), g, ops[..n], forms[..n]), ops[n].lba, forms[n]) else before
  }

  /** The forms are those of the blocks written. */
  ghost predicate FormsOf(ops: seq<HostOp>, forms: seq<CompressedBlock>, lbas: nat) {
    && |forms| == |ops| && AllHanded(forms)
    && forall k :: 0 <= k < |ops| && ops[k].Write? && ops[k].lba < lbas ==> FormOf(forms[k], ops[k].block)
  }

  predicate NoMidSize(ops: seq<HostOp>, forms: seq<CompressedBlock>, lbas: nat)
    requires |ops| == |forms|
  {
    forall k :: 0 <= k < |ops| && ops[k].Write? && ops[k].lba < lbas ==> !MidSize(forms[k])
  }

  /** Every block is zero, or does not fit half a page. */
  predicate NoHalves(ops: seq<HostOp>, forms: seq<CompressedBlock>, lbas: nat)
    requires |ops| == |forms|
  {
    forall k :: 0 <= k < |ops| && ops[k].Write? && ops[k].lba < lbas ==>
      !FitsHalf(forms[k])
  }

  /** Writes of blocks that are not all zeros. */
  function NonZeroWrites(ops: seq<HostOp>): (n: nat) {
    if ops == [] then 0
    else
      var op := ops[|ops| - 1];
      NonZeroWrites(ops[..|ops| - 1]) + if op.Write? && op.block != ZeroBlock() then 1 else 0
  }

  /** Each write that is not of zeros fills at most one page. */
  lemma {:induction false} AfterUsed(g: Geometry, ops: seq<HostOp>, forms: seq<CompressedBlock>)
    requires g.pagesPerBlock >= 1 && FormsOf(ops, forms, g.lbas)
    ensures var s := After(Fresh(g), g, ops, forms);
            InStep(s, g) && Used(s, g) <= NonZeroWrites(ops) && |s.t.table| == g.lbas
  {
    hide Written, Flushed, FormOf;
    if ops != [] {
      var n := |ops| - 1;
      AfterUsed(g, ops[..n], forms[..n]);
      var s := After(Fresh(g), g, ops[..n], forms[..n]);
      StepUsed(s, g, ops[n], forms[n]);
    }
  }

  lemma StepUsed(s: Machine, g: Geometry, op: HostOp, form: CompressedBlock)
    requires Handed(form) && InStep(s, g) && |s.t.table| == g.lbas
    requires op.Write? && op.lba < g.lbas ==> FormOf(form, op.block)
    ensures var r := Step(s, g, op, form);
            && InStep(r, g) && |r.t.table| == g.lbas
            && Used(r, g) <= Used(s, g) + if op.Write? && op.block != ZeroBlock() then 1 else 0
  {
    hide Flushed, Represents;
    match op
    case Write(lba, _) =>
      WrittenUsed(s, g, lba, form);
      WrittenSize(s, g, lba, form);
    case Flush =>
      FlushedUsed(s, g);
      FlushedSize(s, g);
    case Read(_) =>
  }

  /** As long as not more blocks were written than there are pages, there were fewer collections than blocks. */
  lemma FewCollections(g: Geometry, ops: seq<HostOp>, forms: seq<CompressedBlock>)
    requires g.pagesPerBlock >= 1 && FormsOf(ops, forms, g.lbas)
    requires NonZeroWrites(ops) <= g.totalBlocks * g.pagesPerBlock
    ensures var n := |After(Fresh(g), g, ops, forms).collections|; n < g.totalBlocks || n == 0
  {
    hide FormOf, After;
    AfterUsed(g, ops, forms);
    FewBlocks(After(Fresh(g), g, ops, forms), g, NonZeroWrites(ops));
  }

  lemma FewBlocks(s: Machine, g: Geometry, n: nat)
    requires InStep(s, g) && Used(s, g) <= n <= g.totalBlocks * g.pagesPerBlock
    ensures |s.collections| < g.totalBlocks || |s.collections| == 0
  {
    var c := |s.collections|;
    if c >= g.totalBlocks {
      More(c, g.totalBlocks, g.pagesPerBlock);
    }
  }

  lemma More(a: nat, b: nat, m: nat)
    requires a >= b
    ensures a * m >= b * m
  {
  }

  /** The reserve pointer moves at every collection of a run. */
  lemma {:induction false} AfterRotates(g: Geometry, ops: seq<HostOp>, forms: seq<CompressedBlock>)
    requires g.totalBlocks >= 3 && |ops| == |forms| && AllHanded(forms)
    ensures ReserveRotates(After(Fresh(g), g, ops, forms), g.totalBlocks)
  {
    hide Written, Flushed, ReserveMoved;
    if ops != [] {
      var n := |ops| - 1;
      AfterRotates(g, ops[..n], forms[..n]);
      var s := After(Fresh(g), g, ops[..n], forms[..n]);
      match ops[n]
      case Write(lba, _) => WrittenRotates(s, g, lba, forms[n]);
      case Flush => FlushedRotates(s, g);
      case Read(_) =>
    }
  }

  // ---------------------------------------------------------------- runs

  /** The device is flushed. */
  method FlushAll(ftl: FTLController)
    requires ftl.Valid()
    modifies ftl, ftl.flash
    ensures ftl.Valid() && ftl.State() == Flushed(old(ftl.State()), ftl.Geo()) && ftl.contents == old(ftl.contents)
    ensures ftl.Counts() == old(ftl.Counts()) && ftl.rawOnly == old(ftl.rawOnly)
    ensures (ftl.safe ==> old(ftl.safe)) && (ftl.intact ==> old(ftl.intact))
  {
    hide FTLController.Structure, FTLController.Good, FTLController.Early, Flushed;
    ftl.FlushStagedWrites({});
  }

  /** One host operation. */
  method Perform(ftl: FTLController, op: HostOp) returns (reply: Reply, ghost form: CompressedBlock)
    requires ftl.Valid() && (op.Write? ==> |op.block| == PAGE_SIZE)
    modifies ftl, ftl.flash
    ensures ftl.Valid() && Handed(form)
    ensures ftl.State() == Step(old(ftl.State()), ftl.Geo(), op, form)
    ensures ftl.Counts() == if op.Write? then Tallied(old(ftl.Counts()), old(ftl.State()), op.lba, form)
            else old(ftl.Counts())
    ensures op.Write? && op.lba < ftl.lbas ==> FormOf(form, op.block)
    ensures (op.Write? && op.lba < ftl.lbas ==> !MidSize(form)) ==> ftl.contents == StoreAfter(old(ftl.contents), op)
    ensures (ftl.safe ==> old(ftl.safe)) && (ftl.intact ==> old(ftl.intact))
    ensures ftl.safe && (op.Read? ==> op.lba !in old(ftl.lost)) ==> reply == ReplyTo(old(ftl.contents), op)
    ensures old(ftl.rawOnly) && (op.Write? && op.lba < ftl.lbas ==> !FitsHalf(form)) ==> ftl.rawOnly
  {
    hide FormOf, Represents, Written, Flushed, Tallied, FTLController.Structure, FTLController.Good,
      FTLController.Balanced, FTLController.Counted, FTLController.Early, FTLController.ReadsAs, Stored;
    ftl.TraceMeans();
    form := CompressedBlock(true, true, 0, SparseZero, ZeroBlock());
    match op
    case Write(lba, block) =>
      var ok;
      ok, form := ftl.WriteBlock(lba, block);
      reply := Accepted(ok);
    case Flush =>
      FlushAll(ftl);
      reply := Done;
    case Read(lba) =>
      var dest := new byte[PAGE_SIZE](_ => 0);
      var ok := ftl.ReadBlock(lba, dest);
      reply := Contents(if ok then Some(dest[..]) else None);
  }

  /** Operation `k` does not read a block that is lost at that point. */
  ghost predicate InReach(g: Geometry, ops: seq<HostOp>, forms: seq<CompressedBlock>, k: nat)
    requires k < |ops| == |forms| && AllHanded(forms)
  {
    ops[k].Read? ==> ops[k].lba !in After(Fresh(g), g, ops[..k], forms[..k]).lost
  }

  /** Where a run has got to: `safe` and `intact` say what its collections were like. */
  datatype Progress = Progress(s: Machine, counts: Tally, contents: seq<seq<byte>>, replies: seq<Reply>,
                               safe: bool, intact: bool, raw: bool)

  ghost predicate Underway(g: Geometry, ops: seq<HostOp>, forms: seq<CompressedBlock>, x: Progress) {
    var zeros := seq(g.lbas, _ => ZeroBlock());
    && FormsOf(ops, forms, g.lbas) && x.s == After(Fresh(g), g, ops, forms) && x.counts == TallyAfter(g, ops, forms)
    && |x.contents| == g.lbas && |x.replies| == |ops|
    && (NoMidSize(ops, forms, g.lbas) ==> x.contents == StoreAfterAll(zeros, ops))
    && (NoMidSize(ops, forms, g.lbas) && x.safe && x.intact ==> x.replies == Replies(zeros, ops))
    && (NoMidSize(ops, forms, g.lbas) && x.safe ==>
          forall k :: 0 <= k < |ops| && InReach(g, ops, forms, k) ==> x.replies[k] == Replies(zeros, ops)[k])
    && (NoHalves(ops, forms, g.lbas) ==> x.raw)
  }

  /** What one operation does to a run. */
  ghost predicate Advances(g: Geometry, x: Progress, op: HostOp, form: CompressedBlock, reply: Reply, y: Progress) {
    var written := op.Write? && op.lba < g.lbas;
    && Handed(form) && (y.safe ==> x.safe) && (y.intact ==> x.intact && x.s.lost == {})
    && y.s == Step(x.s, g, op, form) && |y.contents| == g.lbas && y.replies == x.replies + [reply]
    && y.counts == (if op.Write? then Tallied(x.counts, x.s, op.lba, form) else x.counts)
    && (written ==> FormOf(form, op.block))
    && ((written ==> !MidSize(form)) ==> y.contents == StoreAfter(x.contents, op))
    && (y.safe && (op.Read? ==> op.lba !in x.s.lost) ==> reply == ReplyTo(x.contents, op))
    && (x.raw && (written ==> !FitsHalf(form)) ==> y.raw)
  }

  lemma UnderwayMore(g: Geometry, ops: seq<HostOp>, forms: seq<CompressedBlock>, x: Progress,
                     op: HostOp, form: CompressedBlock, reply: Reply, y: Progress)
    requires Underway(g, ops, forms, x) && Advances(g, x, op, form, reply, y)
    ensures Underway(g, ops + [op], forms + [form], y)
  {
    hide FormOf, Step, Fresh, MidSize, StoreAfter, ReplyTo, Tallied;
    assert FormsOf(ops, forms, g.lbas) && |forms| == |ops| && AllHanded(forms);
    var n, ops', forms' := |ops|, ops + [op], forms + [form];
    assert ops'[..n] == ops && forms'[..n] == forms && ops'[n] == op && forms'[n] == form;
    forall k | 0 <= k < n ensures ops'[k] == ops[k] && forms'[k] == forms[k] {
    }
    assert NoMidSize(ops', forms', g.lbas) ==> NoMidSize(ops, forms, g.lbas);
    forall k | 0 <= k < n ensures InReach(g, ops', forms', k) == InReach(g, ops, forms, k) {
      assert ops'[..k] == ops[..k] && forms'[..k] == forms[..k];
    }
    assert InReach(g, ops', forms', n) == (op.Read? ==> op.lba !in x.s.lost);
    assert NoHalves(ops', forms', g.lbas) ==> NoHalves(ops, forms, g.lbas);
  }

  ghost function ProgressOf(ftl: FTLController, replies: seq<Reply>): (x: Progress)
    reads ftl, ftl.flash
  {
    Progress(ftl.State(), ftl.Counts(), ftl.contents, replies, ftl.safe, ftl.intact, ftl.rawOnly)
  }

  /**
   * Refinement over whole runs, from a fresh controller of any geometry. What happens in
   * the run is a function of the operations and the compressed forms of the blocks. If
   * no form is of a mid size, and every garbage collection found a blank reserve block
   * and left no live block behind, then every reply is the one of a plain map that starts
   * with zero blocks. If live blocks were left behind, all other blocks still read right.
   * Up to as many writes as there are pages, the reserve is always blank; and if no block
   * fits half a page, nothing is ever left behind while it is. With three flash blocks or
   * more, no two collections in a row have the same reserve. The counters are those of
   * the run, and account for the pages programmed.
   */
  method Run(capacity: nat, totalBlocks: nat, pagesPerBlock: nat, ops: seq<HostOp>)
    returns (replies: seq<Reply>, ftl: FTLController, ghost forms: seq<CompressedBlock>)
    requires totalBlocks >= 2 && pagesPerBlock >= 1 && WellSized(ops)
    ensures fresh(ftl) && fresh(ftl.flash) && ftl.Valid() && |replies| == |ops|
    ensures ftl.Geo() == Geometry((capacity + PAGE_SIZE - 1) / PAGE_SIZE, totalBlocks, pagesPerBlock)
    ensures FormsOf(ops, forms, ftl.lbas) && ftl.State() == After(Fresh(ftl.Geo()), ftl.Geo(), ops, forms)
    ensures NoMidSize(ops, forms, ftl.lbas) && AllFoundBlank(ftl.State()) && AllLostNothing(ftl.State()) ==>
              replies == Replies(seq(ftl.lbas, _ => ZeroBlock()), ops)
    ensures NoMidSize(ops, forms, ftl.lbas) && AllFoundBlank(ftl.State()) ==>
              forall k :: 0 <= k < |ops| && InReach(ftl.Geo(), ops, forms, k) ==>
                replies[k] == Replies(seq(ftl.lbas, _ => ZeroBlock()), ops)[k]
    ensures NonZeroWrites(ops) <= totalBlocks * pagesPerBlock ==> AllFoundBlank(ftl.State())
    ensures AllFoundBlank(ftl.State()) && NoHalves(ops, forms, ftl.lbas) ==> AllLostNothing(ftl.State())
    ensures totalBlocks >= 3 ==> ReserveRotates(ftl.State(), totalBlocks)
    ensures ftl.Counts() == TallyAfter(ftl.Geo(), ops, forms)
    ensures var k, waiting := TallyAfter(ftl.Geo(), ops, forms), One(ftl.State().t.staged.Some?);
            var spent := ftl.flash.totalPagesProgrammed + k.zeros + k.packs + k.dropped + waiting;
            var paid := k.writes + ftl.gcMigratedPages;
            spent <= paid && (AllFoundBlank(ftl.State()) ==> spent == paid)
    ensures var cs := ftl.State().collections; ftl.gcCount == Reclaims(cs) && ftl.gcMigratedPages == AllMoves(cs)
  {
    hide FTLController.Structure, FTLController.Good, FTLController.Early, FTLController.Balanced, FormOf, Step, Fresh,
      Underway, After, TallyAfter, Tallied, Reclaims, AllMoves;
    ftl := new FTLController(capacity, totalBlocks, pagesPerBlock);
    ghost var g := ftl.Geo();
    replies, forms := [], [];
    UnderwayAtFirst(g, ops[..0], ProgressOf(ftl, []));
    for k := 0 to |ops|
      invariant ftl.Valid() && |replies| == k && fresh(ftl) && fresh(ftl.flash) && ftl.Geo() == g
      invariant Underway(g, ops[..k], forms, ProgressOf(ftl, replies))
    {
      ghost var form, x;
      var reply;
      x := ProgressOf(ftl, replies);
      ftl.TraceMeans();
      reply, form := Perform(ftl, ops[k]);
      ftl.TraceMeans();
      UnderwayMore(g, ops[..k], forms, x, ops[k], form, reply, ProgressOf(ftl, replies + [reply]));
      assert ops[..k + 1] == ops[..k] + [ops[k]];
      replies, forms := replies + [reply], forms + [form];
    }
    assert ops[..|ops|] == ops;
    Finished(g, ops, forms, ProgressOf(ftl, replies));
    if totalBlocks >= 3 {
      AfterRotates(g, ops, forms);
    }
    ftl.TraceMeans();
    ftl.AccountMeans();
  }

  lemma UnderwayAtFirst(g: Geometry, ops: seq<HostOp>, x: Progress)
    requires ops == [] && x.s == Fresh(g) && x.contents == seq(g.lbas, _ => ZeroBlock()) && x.replies == []
    requires x.counts == Tally(0, 0, 0, 0, 0) && x.raw
    ensures Underway(g, ops, [], x)
  {
  }

  lemma Finished(g: Geometry, ops: seq<HostOp>, forms: seq<CompressedBlock>, x: Progress)
    requires Underway(g, ops, forms, x) && g.pagesPerBlock >= 1 && g.totalBlocks >= 1
    ensures FormsOf(ops, forms, g.lbas) && x.s == After(Fresh(g), g, ops, forms)
    ensures x.counts == TallyAfter(g, ops, forms)
    ensures NoMidSize(ops, forms, g.lbas) && x.safe && x.intact ==>
              x.replies == Replies(seq(g.lbas, _ => ZeroBlock()), ops)
    ensures NoMidSize(ops, forms, g.lbas) && x.safe ==>
              forall k :: 0 <= k < |ops| && InReach(g, ops, forms, k) ==>
                x.replies[k] == Replies(seq(g.lbas, _ => ZeroBlock()), ops)[k]
    ensures NonZeroWrites(ops) <= g.totalBlocks * g.pagesPerBlock ==> |x.s.collections| < g.totalBlocks
    ensures NoHalves(ops, forms, g.lbas) ==> x.raw
  {
    hide FormOf, After, Fresh, TallyAfter;
    if NonZeroWrites(ops) <= g.totalBlocks * g.pagesPerBlock {
      FewCollections(g, ops, forms);
    }
  }
}
