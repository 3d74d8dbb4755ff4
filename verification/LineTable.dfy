/**
 * The line table and its chunk allocator: every 64-byte line is kept in 0 to 4 chunks of
 * 16 bytes, taken from one free list per extent size or from a bump pointer.
 */
module LineTable {
  import opened Bytes
  import opened BdiEngine

  const CHUNK := 16
  const OUT_OF_MEMORY := 0xFFFF_FFFF
  const OFFSET_LIMIT := 0x100_0000  // offsets are stored in 24 bits

  datatype Entry = Entry(offset: nat, chunks: nat, pattern: Pattern, valid: bool)

  predicate Live(e: Entry) {
    e.valid && e.chunks > 0
  }

  // ---------------------------------------------------------------- tiling

  /** What an extent of chunks is for: a line, a place in a free list, or about to be given out. */
  datatype Holder = LineHolder(i: nat) | FreeHolder(n: nat, k: nat) | Loose(n: nat)

  /** The allocator's state, with the extents below the bump pointer spelled out. */
  datatype Alloc = Alloc(entries: seq<Entry>, free: seq<seq<nat>>, next: nat,
                         holder: map<nat, Holder>, tile: seq<nat>)

  function Length(a: Alloc, h: Holder): (n: nat) {
    match h
    case LineHolder(i) => if i < |a.entries| then a.entries[i].chunks else 0
    case FreeHolder(n, _) => n
    case Loose(n) => n
  }

  /** Chunk `c` is in the extent that starts at `s`. */
  predicate InExtent(a: Alloc, s: nat, c: nat) {
    s in a.holder && s <= c < s + Length(a, a.holder[s])
  }

  /** Each chunk below the bump pointer is in exactly one extent, and extents stay below it. */
  ghost predicate Tiles(a: Alloc) {
    && |a.tile| == a.next
    && (forall c :: 0 <= c < a.next ==> InExtent(a, a.tile[c], c))
    && (forall s: nat, c: nat :: InExtent(a, s, c) ==> c < a.next && a.tile[c] == s)
  }

  /** Free lists and live lines name their extents; `except` is the line being stored. */
  ghost predicate Named(a: Alloc, except: Option<nat>) {
    && |a.free| == 5
    && (forall i :: 0 <= i < |a.entries| && Live(a.entries[i]) && except != Some(i) ==> LineNamed(a, i))
    && (forall n, k :: 1 <= n <= 4 && 0 <= k < |a.free[n]| ==> FreeNamed(a, n, k))
  }

  ghost predicate LineNamed(a: Alloc, i: nat)
    requires i < |a.entries|
  {
    a.entries[i].offset in a.holder && a.holder[a.entries[i].offset] == LineHolder(i)
  }

  ghost predicate FreeNamed(a: Alloc, n: nat, k: nat)
    requires n < |a.free| && k < |a.free[n]|
  {
    a.free[n][k] in a.holder && a.holder[a.free[n][k]] == FreeHolder(n, k)
  }

  /** Every extent is what its holder says. */
  ghost predicate HolderOk(a: Alloc, except: Option<nat>, loose: Option<nat>, s: nat)
    requires s in a.holder
  {
    match a.holder[s]
    case LineHolder(i) => i < |a.entries| && Live(a.entries[i]) && a.entries[i].offset == s && except != Some(i)
    case FreeHolder(n, k) => 1 <= n <= 4 && n < |a.free| && k < |a.free[n]| && a.free[n][k] == s
    case Loose(n) => n > 0 && loose == Some(s)
  }

  ghost predicate Tiling(a: Alloc, except: Option<nat>, loose: Option<nat>) {
    && Tiles(a) && Named(a, except)
    && (forall s :: s in a.holder ==> HolderOk(a, except, loose, s))
  }

  /** Live extents of different lines have no chunk in common, and none is free. */
  lemma LinesDisjoint(a: Alloc, i: nat, j: nat, c: nat)
    requires Tiling(a, None, None) && i < |a.entries| && j < |a.entries| && i != j
    requires Live(a.entries[i]) && Live(a.entries[j])
    requires a.entries[i].offset <= c < a.entries[i].offset + a.entries[i].chunks
    ensures c < a.next && !(a.entries[j].offset <= c < a.entries[j].offset + a.entries[j].chunks)
  {
    assert LineNamed(a, i) && LineNamed(a, j);
    assert InExtent(a, a.entries[i].offset, c);
    if a.entries[j].offset <= c < a.entries[j].offset + a.entries[j].chunks {
      assert InExtent(a, a.entries[j].offset, c);
    }
  }

  lemma FreeDisjoint(a: Alloc, i: nat, n: nat, k: nat, c: nat)
    requires Tiling(a, None, None) && i < |a.entries| && Live(a.entries[i])
    requires 1 <= n <= 4 && k < |a.free[n]|
    requires a.free[n][k] <= c < a.free[n][k] + n
    ensures c < a.next && !(a.entries[i].offset <= c < a.entries[i].offset + a.entries[i].chunks)
  {
    assert LineNamed(a, i) && FreeNamed(a, n, k);
    assert InExtent(a, a.free[n][k], c);
    if a.entries[i].offset <= c < a.entries[i].offset + a.entries[i].chunks {
      assert InExtent(a, a.entries[i].offset, c);
    }
  }

  /** Different places of the free lists have no chunk in common. */
  lemma FreeListsDisjoint(a: Alloc, n: nat, k: nat, m: nat, l: nat, c: nat)
    requires Tiling(a, None, None) && 1 <= n <= 4 && 1 <= m <= 4 && k < |a.free[n]| && l < |a.free[m]|
    requires n != m || k != l
    requires a.free[n][k] <= c < a.free[n][k] + n
    ensures !(a.free[m][l] <= c < a.free[m][l] + m)
  {
    assert FreeNamed(a, n, k) && FreeNamed(a, m, l);
    assert InExtent(a, a.free[n][k], c);
    if a.free[m][l] <= c < a.free[m][l] + m {
      assert InExtent(a, a.free[m][l], c);
    }
  }

  /** Every chunk below the bump pointer belongs to a live line or to a free list. */
  lemma Covered(a: Alloc, c: nat) returns (s: nat)
    requires Tiling(a, None, None) && c < a.next
    ensures s in a.holder && s <= c
    ensures a.holder[s].LineHolder? ==>
              var i := a.holder[s].i;
              i < |a.entries| && Live(a.entries[i]) && a.entries[i].offset == s && c < s + a.entries[i].chunks
    ensures a.holder[s].FreeHolder? ==>
              var n, k := a.holder[s].n, a.holder[s].k;
              1 <= n <= 4 && k < |a.free[n]| && a.free[n][k] == s && c < s + n
    ensures !a.holder[s].Loose?
  {
    s := a.tile[c];
    assert InExtent(a, s, c) && HolderOk(a, None, None, s);
  }

  // ---------------------------------------------------------------- the allocator's moves

  /** The extent of the line being stored goes to the end of its free list. */
  function Freed(a: Alloc, s: nat, n: nat): (r: Alloc)
    requires n < |a.free|
  {
    a.(free := a.free[n := a.free[n] + [s]], holder := a.holder[s := FreeHolder(n, |a.free[n]|)])
  }

  lemma FreedTiling(a: Alloc, i: nat)
    requires Tiling(a, None, None) && i < |a.entries| && Live(a.entries[i]) && a.entries[i].chunks <= 4
    ensures |a.free| == 5 && Tiling(Freed(a, a.entries[i].offset, a.entries[i].chunks), Some(i), None)
  {
    var s, n := a.entries[i].offset, a.entries[i].chunks;
    assert LineNamed(a, i);
    var r := Freed(a, s, n);
    SameExtents(a, r);
    forall j | 0 <= j < |r.entries| && Live(r.entries[j]) && j != i ensures LineNamed(r, j) {
      assert LineNamed(a, j);
    }
    forall m, k | 1 <= m <= 4 && 0 <= k < |r.free[m]| ensures FreeNamed(r, m, k) {
      assert k < |a.free[m]| ==> FreeNamed(a, m, k);
    }
    forall u | u in r.holder ensures HolderOk(r, Some(i), None, u) {
      assert u != s ==> HolderOk(a, None, None, u);
    }
  }

  /** Changing who holds an extent, but not its length, keeps the tiles. */
  lemma SameExtents(a: Alloc, r: Alloc)
    requires Tiles(a) && r.next == a.next && r.tile == a.tile && r.holder.Keys == a.holder.Keys
    requires forall s :: s in a.holder ==> Length(r, r.holder[s]) == Length(a, a.holder[s])
    ensures Tiles(r)
  {
    forall s: nat, c: nat ensures InExtent(r, s, c) == InExtent(a, s, c) {
    }
  }

  /** The extents of lines stay what they are. */
  ghost predicate LinesKept(a: map<nat, Holder>, b: map<nat, Holder>) {
    forall s :: s in a && a[s].LineHolder? ==> s in b && b[s] == a[s]
  }

  /** The last extent of free list `n` is taken off. */
  function Popped(a: Alloc, n: nat): (r: Alloc)
    requires n < |a.free| && |a.free[n]| > 0
  {
    var k := |a.free[n]| - 1;
    a.(free := a.free[n := a.free[n][..k]], holder := a.holder[a.free[n][k] := Loose(n)])
  }

  lemma PoppedTiling(a: Alloc, except: Option<nat>, n: nat)
    requires Tiling(a, except, None) && 1 <= n <= 4 && |a.free[n]| > 0
    ensures Tiling(Popped(a, n), except, Some(a.free[n][|a.free[n]| - 1]))
    ensures LinesKept(a.holder, Popped(a, n).holder)
  {
    var k := |a.free[n]| - 1;
    var s, r := a.free[n][k], Popped(a, n);
    assert FreeNamed(a, n, k);
    SameExtents(a, r);
    forall j | 0 <= j < |r.entries| && Live(r.entries[j]) && except != Some(j) ensures LineNamed(r, j) {
      assert LineNamed(a, j);
    }
    forall m, l | 1 <= m <= 4 && 0 <= l < |r.free[m]| ensures FreeNamed(r, m, l) {
      assert FreeNamed(a, m, l);
    }
    forall u | u in r.holder ensures HolderOk(r, except, Some(s), u) {
      assert u != s ==> HolderOk(a, except, None, u);
    }
  }

  /** `n` chunks are taken at the bump pointer. */
  function Bumped(a: Alloc, n: nat): (r: Alloc) {
    a.(next := a.next + n, holder := a.holder[a.next := Loose(n)], tile := a.tile + seq(n, _ => a.next))
  }

  lemma BumpedTiling(a: Alloc, except: Option<nat>, n: nat)
    requires Tiling(a, except, None) && n > 0
    ensures Tiling(Bumped(a, n), except, Some(a.next))
    ensures LinesKept(a.holder, Bumped(a, n).holder)
  {
    var r := Bumped(a, n);
    if a.next in a.holder {
      assert HolderOk(a, except, None, a.next);
      ExtentNonEmpty(a, except, None, a.next);
      assert InExtent(a, a.next, a.next);
      assert false;
    }
    forall s: nat, c: nat | InExtent(r, s, c) ensures c < r.next && r.tile[c] == s {
      if s != a.next {
        assert InExtent(a, s, c);
      }
    }
    forall c | 0 <= c < r.next ensures InExtent(r, r.tile[c], c) {
      if c < a.next {
        assert InExtent(a, a.tile[c], c);
      }
    }
    forall j | 0 <= j < |r.entries| && Live(r.entries[j]) && except != Some(j) ensures LineNamed(r, j) {
      assert LineNamed(a, j);
    }
    forall m, l | 1 <= m <= 4 && 0 <= l < |r.free[m]| ensures FreeNamed(r, m, l) {
      assert FreeNamed(a, m, l);
    }
    forall u | u in r.holder ensures HolderOk(r, except, Some(a.next), u) {
      assert u != a.next ==> HolderOk(a, except, None, u);
    }
  }

  lemma ExtentNonEmpty(a: Alloc, except: Option<nat>, loose: Option<nat>, s: nat)
    requires s in a.holder && HolderOk(a, except, loose, s)
    ensures Length(a, a.holder[s]) > 0
  {
  }

  /** The extent given out becomes that of line `i`; without one, the line has no chunks. */
  function Claimed(a: Alloc, i: nat, e: Entry): (r: Alloc)
    requires i < |a.entries|
  {
    a.(entries := a.entries[i := e], holder := if Live(e) then a.holder[e.offset := LineHolder(i)] else a.holder)
  }

  lemma ClaimedTiling(a: Alloc, i: nat, e: Entry, except: Option<nat>)
    requires i < |a.entries| && (except == Some(i) || (except == None && !Live(a.entries[i])))
    requires Tiling(a, except, if Live(e) then Some(e.offset) else None)
    requires Live(e) ==> e.offset in a.holder && a.holder[e.offset] == Loose(e.chunks)
    ensures Tiling(Claimed(a, i, e), None, None)
  {
    var r := Claimed(a, i, e);
    var loose := if Live(e) then Some(e.offset) else None;
    forall s | s in a.holder ensures s in r.holder && Length(r, r.holder[s]) == Length(a, a.holder[s]) {
      assert HolderOk(a, except, loose, s);
    }
    assert r.holder.Keys == a.holder.Keys;
    SameExtents(a, r);
    forall j | 0 <= j < |r.entries| && Live(r.entries[j]) ensures LineNamed(r, j) {
      assert j != i ==> LineNamed(a, j);
      assert j != i ==> HolderOk(a, except, loose, a.entries[j].offset);
    }
    forall m, l | 1 <= m <= 4 && 0 <= l < |r.free[m]| ensures FreeNamed(r, m, l) {
      assert FreeNamed(a, m, l);
    }
    forall u | u in r.holder ensures HolderOk(r, None, None, u) {
      assert HolderOk(a, except, loose, u);
    }
  }

  // ---------------------------------------------------------------- accounting

  /** Chunks held by live lines. */
  function HeldChunks(entries: seq<Entry>): (n: nat) {
    if entries == [] then 0
    else HeldChunks(entries[..|entries| - 1]) + Held(entries[|entries| - 1])
  }

  function Held(e: Entry): (n: nat) {
    if e.valid then e.chunks else 0
  }

  lemma {:induction false} HeldUpdate(entries: seq<Entry>, i: nat, e: Entry)
    requires i < |entries|
    ensures HeldChunks(entries[i := e]) == HeldChunks(entries) - Held(entries[i]) + Held(e)
    decreases |entries|
  {
    var n := |entries| - 1;
    if i == n {
      assert entries[i := e][..n] == entries[..n];
    } else {
      assert entries[i := e][..n] == entries[..n][i := e];
      HeldUpdate(entries[..n], i, e);
    }
  }

  lemma {:induction false} NothingHeld(entries: seq<Entry>)
    requires forall i :: 0 <= i < |entries| ==> !entries[i].valid
    ensures HeldChunks(entries) == 0
  {
    if entries != [] {
      NothingHeld(entries[..|entries| - 1]);
    }
  }

  // ---------------------------------------------------------------- how many extents there are

  function One(b: bool): (n: nat) {
    if b then 1 else 0
  }

  predicate Holds(e: Entry, n: nat) {
    e.valid && e.chunks == n
  }

  /** Lines with an extent of `n` chunks. */
  function CountOf(entries: seq<Entry>, n: nat): (k: nat)
    ensures k <= |entries|
  {
    if entries == [] then 0
    else CountOf(entries[..|entries| - 1], n) + One(Holds(entries[|entries| - 1], n))
  }

  lemma {:induction false} CountUpdate(entries: seq<Entry>, i: nat, e: Entry, n: nat)
    requires i < |entries|
    ensures CountOf(entries[i := e], n) == CountOf(entries, n) - One(Holds(entries[i], n)) + One(Holds(e, n))
    decreases |entries|
  {
    var k := |entries| - 1;
    if i == k {
      assert entries[i := e][..k] == entries[..k];
    } else {
      assert entries[i := e][..k] == entries[..k][i := e];
      CountUpdate(entries[..k], i, e, n);
    }
  }

  lemma CountOthers(entries: seq<Entry>, i: nat, n: nat)
    requires i < |entries|
    ensures CountOf(entries, n) - One(Holds(entries[i], n)) < |entries|
  {
    CountUpdate(entries, i, Entry(0, 0, Zeros, false), n);
    CountUpdate(entries[i := Entry(0, 0, Zeros, false)], i, Entry(0, n, Zeros, true), n);
  }

  lemma {:induction false} HeldByCount(entries: seq<Entry>)
    requires forall i :: 0 <= i < |entries| ==> entries[i].chunks <= 4
    ensures HeldChunks(entries)
         == CountOf(entries, 1) + 2 * CountOf(entries, 2) + 3 * CountOf(entries, 3) + 4 * CountOf(entries, 4)
  {
    if entries != [] {
      HeldByCount(entries[..|entries| - 1]);
    }
  }

  lemma {:induction false} NoneCounted(entries: seq<Entry>, n: nat)
    requires forall i :: 0 <= i < |entries| ==> !entries[i].valid
    ensures CountOf(entries, n) == 0
  {
    if entries != [] {
      NoneCounted(entries[..|entries| - 1], n);
    }
  }

  /** No size has more extents, held and free, than there are lines. */
  ghost predicate Bounded(entries: seq<Entry>, free: seq<seq<nat>>) {
    |free| == 5 && forall n :: 1 <= n <= 4 ==> |free[n]| + CountOf(entries, n) <= |entries|
  }

  /** The same when line `i` is about to hold an extent of `needed` chunks. */
  ghost predicate BoundedWith(entries: seq<Entry>, free: seq<seq<nat>>, i: nat, needed: nat)
    requires i < |entries|
  {
    && |free| == 5
    && forall n :: 1 <= n <= 4 ==>
         |free[n]| + CountOf(entries, n) - One(Holds(entries[i], n)) + One(n == needed) <= |entries|
  }

  lemma BoundedSet(entries: seq<Entry>, free: seq<seq<nat>>, i: nat, e: Entry)
    requires i < |entries| && e.valid && BoundedWith(entries, free, i, e.chunks)
    ensures Bounded(entries[i := e], free)
  {
    forall n | 1 <= n <= 4 ensures |free[n]| + CountOf(entries[i := e], n) <= |entries| {
      CountUpdate(entries, i, e, n);
    }
  }

  /** The length of free list `n` once line `i` has let go of its extent and been given another. */
  ghost predicate Exchanged(free: seq<seq<nat>>, free': seq<seq<nat>>, e: Entry, needed: nat, n: nat)
    requires n < |free| && n < |free'|
  {
    if e.valid && e.chunks == needed then |free'[n]| == |free[n]|
    else if n == needed then |free'[n]| == if |free[n]| == 0 then 0 else |free[n]| - 1
    else |free'[n]| == |free[n]| + One(Holds(e, n))
  }

  lemma BoundedExchange(entries: seq<Entry>, free: seq<seq<nat>>, free': seq<seq<nat>>, i: nat, needed: nat)
    requires i < |entries| && Bounded(entries, free) && |free'| == 5
    requires forall n :: 1 <= n <= 4 ==> Exchanged(free, free', entries[i], needed, n)
    ensures BoundedWith(entries, free', i, needed)
  {
    forall n | 1 <= n <= 4
      ensures |free'[n]| + CountOf(entries, n) - One(Holds(entries[i], n)) + One(n == needed) <= |entries|
    {
      assert Exchanged(free, free', entries[i], needed, n);
      CountOthers(entries, i, n);
    }
  }

  /**
   * When the free list of the size needed is empty and the line does not hold such an extent,
   * all extents so far and the one needed are within ten chunks per line.
   */
  lemma RoomBound(entries: seq<Entry>, free: seq<seq<nat>>, next: nat, i: nat, needed: nat)
    requires i < |entries| && Bounded(entries, free) && forall j :: 0 <= j < |entries| ==> entries[j].chunks <= 4
    requires next == HeldChunks(entries) + |free[1]| + 2 * |free[2]| + 3 * |free[3]| + 4 * |free[4]|
    requires 1 <= needed <= 4 && |free[needed]| == 0 && !Holds(entries[i], needed)
    ensures next + needed <= 10 * |entries|
  {
    hide HeldChunks, CountOf;
    HeldByCount(entries);
    CountOthers(entries, i, needed);
  }

  // ---------------------------------------------------------------- contents

  function ZeroLine(): (l: seq<byte>)
    ensures |l| == CACHE_LINE_SIZE
  {
    Fill(0, CACHE_LINE_SIZE)
  }

  /** The line that an entry describes, read from memory. */
  ghost predicate LineHolds(e: Entry, dram: seq<byte>, line: seq<byte>) {
    if !Live(e) || e.pattern == Zeros then line == ZeroLine()
    else
      && e.offset * CHUNK + e.chunks * CHUNK <= |dram|
      && (e.pattern == Uncompressed ==> e.chunks == 4)
      && !TooShort(e.pattern, e.chunks * CHUNK)
      && Payload(e.pattern, dram[e.offset * CHUNK..e.offset * CHUNK + e.chunks * CHUNK], line)
  }

  ghost predicate AllHold(entries: seq<Entry>, dram: seq<byte>, lines: seq<seq<byte>>) {
    |entries| == |lines| && forall i :: 0 <= i < |entries| ==> LineHolds(entries[i], dram, lines[i])
  }

  /** Chunks needed for a compressed line. */
  function Needed(c: CompressedLine): (n: nat)
    requires c.compressedSize <= CACHE_LINE_SIZE
    ensures n <= 4 && (n == 0 <==> c.pattern == Zeros)
    ensures n > 0 ==> c.compressedSize <= n * CHUNK
    ensures n > 1 ==> (n - 1) * CHUNK < c.compressedSize
  {
    if c.pattern == Zeros then 0 else QuantizedSlotSize(c.compressedSize) / CHUNK
  }

  /** Payloads of pattern `p` fit `n` chunks; zeros are kept without any. */
  predicate FitsChunks(p: Pattern, n: nat) {
    p == Zeros || Size(p) <= n * CHUNK
  }

  /** Some payload of the line fits `n` chunks, and none fits fewer. */
  ghost predicate Fewest(line: seq<byte>, n: nat) {
    && (exists p: Pattern, buf: seq<byte> :: Payload(p, buf, line) && FitsChunks(p, n))
    && (forall p: Pattern, buf: seq<byte>, m: nat :: Payload(p, buf, line) && FitsChunks(p, m) ==> n <= m)
  }

  /** The smallest payload of a line needs the fewest chunks. */
  lemma NeededFewest(c: CompressedLine, line: seq<byte>)
    requires c.compressedSize == Size(c.pattern) <= |c.data| && Payload(c.pattern, c.data, line)
    requires NoneSmaller(line, c.compressedSize)
    ensures Fewest(line, Needed(c))
  {
    hide Payload;
    assert FitsChunks(c.pattern, Needed(c));
    forall p: Pattern, buf: seq<byte>, m: nat | Payload(p, buf, line) && FitsChunks(p, m) ensures Needed(c) <= m {
      assert c.compressedSize <= Size(p);
      assert p == Zeros ==> c.pattern == Zeros;
    }
  }

  /** There is one such number only. */
  lemma FewestUnique(line: seq<byte>, n: nat, m: nat)
    requires Fewest(line, n) && Fewest(line, m)
    ensures n == m
  {
    hide Payload, FitsChunks;
  }

  /** Exactly a line of zeros needs none. */
  lemma FewestZero(line: seq<byte>, n: nat)
    requires Fewest(line, n)
    ensures n == 0 <==> line == ZeroLine()
  {
    hide DeltasDecode;
    if line == ZeroLine() {
      assert Payload(Zeros, [0], line) && FitsChunks(Zeros, 0);
    }
    if n == 0 {
      var p: Pattern, buf: seq<byte> :| Payload(p, buf, line) && FitsChunks(p, n);
      assert p == Zeros;
    }
  }

  lemma ZerosFewest()
    ensures Fewest(ZeroLine(), 0)
  {
    hide DeltasDecode;
    assert Payload(Zeros, [0], ZeroLine()) && FitsChunks(Zeros, 0);
  }

  /** Two memories agree outside `n` bytes from `lo`. */
  ghost predicate SameOutside(a: seq<byte>, b: seq<byte>, lo: nat, n: nat) {
    |a| == |b| && forall k {:trigger b[k]} :: 0 <= k < |a| && !(lo <= k < lo + n) ==> b[k] == a[k]
  }

  /** Storing into one extent leaves the lines in other extents alone. */
  lemma OthersHold(a: Alloc, dram: seq<byte>, dram': seq<byte>, i: nat, s: nat, n: nat, j: nat, line: seq<byte>,
                   except: Option<nat>, loose: Option<nat>)
    requires Tiling(a, except, loose) && j < |a.entries| && j != i && except != Some(j)
    requires s in a.holder && Length(a, a.holder[s]) == n
    requires a.holder[s] == Loose(n) || a.holder[s] == LineHolder(i)
    requires SameOutside(dram, dram', s * CHUNK, n * CHUNK)
    requires LineHolds(a.entries[j], dram, line)
    ensures LineHolds(a.entries[j], dram', line)
  {
    hide Payload;
    var e := a.entries[j];
    if Live(e) && e.pattern != Zeros {
      assert LineNamed(a, j);
      var lo, hi := e.offset * CHUNK, e.offset * CHUNK + e.chunks * CHUNK;
      forall k | lo <= k < hi ensures dram'[k] == dram[k] {
        var c := k / CHUNK;
        assert InExtent(a, e.offset, c) && s != e.offset;
        assert !InExtent(a, s, c);
      }
      assert dram'[lo..hi] == dram[lo..hi];
    }
  }

  // ---------------------------------------------------------------- changing one entry

  /** An extent of `needed` chunks at `offset` is ready for line `i`, whose entry is the old one. */
  ghost predicate ReservedState(a: Alloc, i: nat, needed: nat, offset: nat, except: Option<nat>) {
    && i < |a.entries|
    && if a.entries[i].valid && a.entries[i].chunks == needed then
         offset == a.entries[i].offset && Tiling(a, None, None)
       else
         && (except == Some(i) || (except == None && !Live(a.entries[i])))
         && Tiling(a, except, if needed == 0 then None else Some(offset))
         && (needed > 0 ==> offset in a.holder && a.holder[offset] == Loose(needed))
  }

  function EntrySet(a: Alloc, i: nat, e: Entry): (r: Alloc)
    requires i < |a.entries|
    ensures r.entries == a.entries[i := e] && r.free == a.free && r.next == a.next && r.tile == a.tile
  {
    if a.entries[i].valid && a.entries[i].chunks == e.chunks then a.(entries := a.entries[i := e]) else Claimed(a, i, e)
  }

  lemma EntryTiling(a: Alloc, i: nat, e: Entry, except: Option<nat>)
    requires e.valid && i < |a.entries|
    requires ReservedState(a, i, e.chunks, if e.chunks > 0 then e.offset else a.entries[i].offset, except)
             || (e.chunks == 0 && exists o :: ReservedState(a, i, 0, o, except))
    ensures Tiling(EntrySet(a, i, e), None, None)
  {
    if a.entries[i].valid && a.entries[i].chunks == e.chunks {
      ReusedTiling(a, i, e);
    } else {
      ClaimedTiling(a, i, e, except);
    }
  }

  lemma ReusedTiling(a: Alloc, i: nat, e: Entry)
    requires i < |a.entries| && Tiling(a, None, None) && e.valid && a.entries[i].valid
    requires a.entries[i].chunks == e.chunks
    requires e.chunks > 0 ==> e.offset == a.entries[i].offset
    ensures Tiling(a.(entries := a.entries[i := e]), None, None)
  {
    var r := a.(entries := a.entries[i := e]);
    SameExtents(a, r);
    forall j | 0 <= j < |r.entries| && Live(r.entries[j]) ensures LineNamed(r, j) {
      assert LineNamed(a, j);
    }
    forall m, l | 1 <= m <= 4 && 0 <= l < |r.free[m]| ensures FreeNamed(r, m, l) {
      assert FreeNamed(a, m, l);
    }
    forall u | u in r.holder ensures HolderOk(r, None, None, u) {
      assert HolderOk(a, None, None, u);
    }
  }

  /** The line just stored reads back. */
  lemma OwnHolds(e: Entry, c: CompressedLine, line: seq<byte>, dram: seq<byte>)
    requires c.compressedSize == Size(c.pattern) <= |c.data| && Payload(c.pattern, c.data, line)
    requires e == Entry(e.offset, Needed(c), c.pattern, true)
    requires Needed(c) > 0 ==> e.offset * CHUNK + Needed(c) * CHUNK <= |dram|
    requires Needed(c) > 0 ==> dram[e.offset * CHUNK..e.offset * CHUNK + c.compressedSize] == c.data[..c.compressedSize]
    ensures LineHolds(e, dram, line)
  {
    if c.pattern != Zeros {
      var lo, n := e.offset * CHUNK, c.compressedSize;
      var slot := dram[lo..lo + e.chunks * CHUNK];
      assert slot[..n] == dram[lo..lo + n];
      PayloadFromSlot(c.pattern, c.data, slot, line);
    } else {
      assert line == ZeroLine();
    }
  }

  /** And all other lines still do. */
  lemma OthersAllHold(a: Alloc, before: seq<byte>, after: seq<byte>, i: nat, offset: nat, needed: nat,
                      except: Option<nat>, e: Entry, lines: seq<seq<byte>>, line: seq<byte>)
    requires ReservedState(a, i, needed, offset, except) && AllHold(a.entries, before, lines) && |before| == |after|
    requires needed > 0 ==> SameOutside(before, after, offset * CHUNK, needed * CHUNK)
    requires needed == 0 ==> after == before
    requires LineHolds(e, after, line)
    ensures AllHold(a.entries[i := e], after, lines[i := line])
  {
    hide LineHolds, Tiling;
    var entries', lines' := a.entries[i := e], lines[i := line];
    forall j | 0 <= j < |a.entries| ensures LineHolds(entries'[j], after, lines'[j]) {
      if j != i && needed > 0 {
        if a.entries[i].valid && a.entries[i].chunks == needed {
          OwnExtent(a, i);
          OthersHold(a, before, after, i, offset, needed, j, lines[j], None, None);
        } else {
          OthersHold(a, before, after, i, offset, needed, j, lines[j], except, Some(offset));
        }
      }
    }
  }

  lemma OwnExtent(a: Alloc, i: nat)
    requires Tiling(a, None, None) && i < |a.entries| && Live(a.entries[i])
    ensures a.entries[i].offset in a.holder && a.holder[a.entries[i].offset] == LineHolder(i)
  {
    assert LineNamed(a, i);
  }

  /** Free list `n` without its last extent, if it has one. */
  function Shortened(free: seq<seq<nat>>, n: nat): (r: seq<seq<nat>>)
    requires n < |free|
  {
    if |free[n]| == 0 then free else free[n := free[n][..|free[n]| - 1]]
  }

  /** The extent of entry `e` at the end of its free list. */
  function FreedList(lists: seq<seq<nat>>, e: Entry): (r: seq<seq<nat>>)
    ensures |r| == |lists|
  {
    if e.chunks == 0 || e.chunks >= |lists| then lists else lists[e.chunks := lists[e.chunks] + [e.offset]]
  }

  lemma BoundedResize(entries: seq<Entry>, free: seq<seq<nat>>, i: nat, needed: nat)
    requires i < |entries| && Bounded(entries, free) && entries[i].valid && entries[i].chunks != needed
    requires entries[i].chunks <= 4 && needed <= 4
    ensures var freed := FreedList(free, entries[i]);
            BoundedWith(entries, if needed == 0 then freed else Shortened(freed, needed), i, needed)
  {
    var freed := FreedList(free, entries[i]);
    var free' := if needed == 0 then freed else Shortened(freed, needed);
    forall n | 1 <= n <= 4 ensures Exchanged(free, free', entries[i], needed, n) {
    }
    BoundedExchange(entries, free, free', i, needed);
  }

  // ---------------------------------------------------------------- the table

  /** An empty table. */
  lemma NothingStored(a: Alloc, dram: seq<byte>, lines: seq<seq<byte>>)
    requires |a.entries| == |lines| && a.free == [[], [], [], [], []] && a.next == 0 && a.holder == map[]
    requires a.tile == []
    requires forall i :: 0 <= i < |a.entries| ==> !a.entries[i].valid && lines[i] == ZeroLine()
    ensures Tiling(a, None, None) && HeldChunks(a.entries) == 0 && AllHold(a.entries, dram, lines)
    ensures Bounded(a.entries, a.free)
  {
    NothingHeld(a.entries);
    forall n | 1 <= n <= 4 ensures |a.free[n]| + CountOf(a.entries, n) <= |a.entries| {
      NoneCounted(a.entries, n);
    }
  }

  class MemoryLineTable {
    const totalLogicalLines: nat
    const totalPhysicalChunks: nat
    const dram: array<byte>
    var entries: seq<Entry>
    /** Free extents by their number of chunks, 1 to 4; list 0 stays empty. */
    var free: seq<seq<nat>>
    var nextUnpartitioned: nat
    var allocatedChunks: int
    var uncompressedBytes: nat

    /** What each line stores. */
    ghost var lines: seq<seq<byte>>
    /** No store has run out of memory after it had freed the chunks of its line. */
    ghost var intact: bool
    ghost var holder: map<nat, Holder>
    ghost var tile: seq<nat>

    ghost function State(): Alloc
      reads this
    {
      Alloc(entries, free, nextUnpartitioned, holder, tile)
    }

    /** Holds in every state. */
    ghost predicate Structure()
      reads `entries, `lines, `free, `nextUnpartitioned, `allocatedChunks
    {
      && totalPhysicalChunks <= OFFSET_LIMIT && totalPhysicalChunks * CHUNK <= dram.Length
      && |entries| == totalLogicalLines == |lines| && |free| == 5 && free[0] == []
      && (forall i :: 0 <= i < |lines| ==> |lines[i]| == CACHE_LINE_SIZE)
      && nextUnpartitioned <= totalPhysicalChunks
      && (forall i :: 0 <= i < |entries| ==> entries[i].chunks <= 4 && entries[i].offset < OFFSET_LIMIT)
      && (forall i :: 0 <= i < |entries| && Live(entries[i]) ==>
           entries[i].offset + entries[i].chunks <= totalPhysicalChunks)
      && (forall i :: 0 <= i < |entries| && Live(entries[i]) && entries[i].pattern == Uncompressed ==>
           entries[i].chunks == 4)
      && (forall n, k :: 1 <= n <= 4 && 0 <= k < |free[n]| ==> free[n][k] + n <= totalPhysicalChunks)
      && nextUnpartitioned == allocatedChunks + |free[1]| + 2 * |free[2]| + 3 * |free[3]| + 4 * |free[4]|
    }

    ghost predicate Valid()
      reads this, dram
    {
      Structure() && (intact ==>
        && Tiling(State(), None, None)
        && allocatedChunks == HeldChunks(entries) && Bounded(entries, free)
        && AllHold(entries, dram[..], lines))
    }

    constructor (virtualCapacity: nat, physicalCapacity: nat)
      requires physicalCapacity / CHUNK <= OFFSET_LIMIT
      ensures Valid() && intact && fresh(dram)
      ensures totalLogicalLines == (virtualCapacity + CACHE_LINE_SIZE - 1) / CACHE_LINE_SIZE
      ensures totalPhysicalChunks == physicalCapacity / CHUNK
      ensures lines == seq(totalLogicalLines, _ => ZeroLine()) && forall i :: 0 <= i < |entries| ==> !entries[i].valid
      ensures |entries| == totalLogicalLines && nextUnpartitioned == 0 && free == [[], [], [], [], []]
    {
      totalLogicalLines := (virtualCapacity + CACHE_LINE_SIZE - 1) / CACHE_LINE_SIZE;
      totalPhysicalChunks := physicalCapacity / CHUNK;
      dram := new byte[physicalCapacity](_ => 0);
      entries, free, lines := [], [[], [], [], [], []], [];
      nextUnpartitioned, allocatedChunks, uncompressedBytes := 0, 0, 0;
      intact, holder, tile := true, map[], [];
      new;
      entries := seq(totalLogicalLines, _ => Entry(0, 0, Zeros, false));
      lines := seq(totalLogicalLines, _ => ZeroLine());
      NothingStored(State(), dram[..], lines);
    }

    /** Everything is forgotten: all lines read as zeros again. */
    method Reset()
      requires Structure()
      modifies this, dram
      ensures Valid() && intact && lines == seq(totalLogicalLines, _ => ZeroLine())
    {
      hide Tiling, AllHold, HeldChunks, Bounded, ZeroLine, Fill;
      entries := seq(totalLogicalLines, _ => Entry(0, 0, Zeros, false));
      forall k | 0 <= k < dram.Length {
        dram[k] := 0;
      }
      free := [[], [], [], [], []];
      nextUnpartitioned, allocatedChunks, uncompressedBytes := 0, 0, 0;
      lines := seq(totalLogicalLines, _ => ZeroLine());
      intact, holder, tile := true, map[], [];
      NothingStored(State(), dram[..], lines);
    }

    /** Room for an extent of `n` chunks. */
    predicate HasRoom(n: nat)
      reads this
      requires n < |free|
    {
      |free[n]| > 0 || nextUnpartitioned + n <= totalPhysicalChunks
    }

    /**
     * First the free list of the size asked for, then the bump pointer. `except` is the line
     * being stored, whose entry is out of date.
     */
    method AllocateChunks(n: nat, ghost except: Option<nat>) returns (offset: nat)
      requires Structure() && n <= 4
      requires intact ==> Tiling(State(), except, None)
      modifies `free, `nextUnpartitioned, `allocatedChunks, `holder, `tile
      ensures Structure()
      ensures n > 0 ==> (offset == OUT_OF_MEMORY <==> !old(HasRoom(n)))
      ensures n == 0 ==> offset == 0
      ensures n == 0 || offset == OUT_OF_MEMORY ==> State() == old(State()) && allocatedChunks == old(allocatedChunks)
      ensures n > 0 && offset != OUT_OF_MEMORY ==>
                && offset < OFFSET_LIMIT && offset + n <= totalPhysicalChunks
                && allocatedChunks == old(allocatedChunks) + n
                && (|old(free)[n]| > 0 ==> offset == old(free)[n][|old(free)[n]| - 1])
                && free == Shortened(old(free), n)
                && (intact ==> Tiling(State(), except, Some(offset)) && offset in holder && holder[offset] == Loose(n))
                && (intact ==> LinesKept(old(holder), holder))
    {
      hide Tiling, LinesKept;
      if n == 0 {
        return 0;
      }
      if |free[n]| > 0 {
        offset := TakeFree(n, except);
      } else if nextUnpartitioned + n <= totalPhysicalChunks {
        offset := TakeFresh(n, except);
      } else {
        offset := OUT_OF_MEMORY;
      }
    }

    /** The last extent of the free list. */
    method TakeFree(n: nat, ghost except: Option<nat>) returns (offset: nat)
      requires Structure() && 1 <= n <= 4 && |free[n]| > 0
      requires intact ==> Tiling(State(), except, None)
      modifies `free, `allocatedChunks, `holder
      ensures Structure() && allocatedChunks == old(allocatedChunks) + n
      ensures offset == old(free)[n][|old(free)[n]| - 1] && free == Shortened(old(free), n)
      ensures intact ==> Tiling(State(), except, Some(offset)) && offset in holder && holder[offset] == Loose(n)
      ensures intact ==> LinesKept(old(holder), holder)
      ensures offset < OFFSET_LIMIT && offset + n <= totalPhysicalChunks
    {
      hide Tiling, LinesKept;
      var k := |free[n]| - 1;
      offset := free[n][k];
      if intact {
        PoppedTiling(State(), except, n);
        holder := Popped(State(), n).holder;
      }
      FreeDropped(free, free[n := free[n][..k]], n, totalPhysicalChunks);
      free := free[n := free[n][..k]];
      allocatedChunks := allocatedChunks + n;
    }

    /** Chunks that were never given out. */
    method TakeFresh(n: nat, ghost except: Option<nat>) returns (offset: nat)
      requires Structure() && 1 <= n <= 4 && nextUnpartitioned + n <= totalPhysicalChunks
      requires intact ==> Tiling(State(), except, None)
      modifies `nextUnpartitioned, `allocatedChunks, `holder, `tile
      ensures Structure() && allocatedChunks == old(allocatedChunks) + n
      ensures intact ==> Tiling(State(), except, Some(offset)) && offset in holder && holder[offset] == Loose(n)
      ensures intact ==> LinesKept(old(holder), holder)
      ensures offset < OFFSET_LIMIT && offset + n <= totalPhysicalChunks
    {
      hide Tiling, LinesKept;
      offset := nextUnpartitioned % 0x1_0000_0000;
      if intact {
        BumpedTiling(State(), except, n);
        holder, tile := Bumped(State(), n).holder, Bumped(State(), n).tile;
      }
      nextUnpartitioned := nextUnpartitioned + n;
      allocatedChunks := allocatedChunks + n;
    }

    /** Dropping the last extent of a list keeps every free extent in memory. */
    static lemma FreeDropped(a: seq<seq<nat>>, b: seq<seq<nat>>, n: nat, total: nat)
      requires |a| == 5 && n < 5 && |a[n]| > 0 && b == a[n := a[n][..|a[n]| - 1]]
      requires forall m, k :: 1 <= m <= 4 && 0 <= k < |a[m]| ==> a[m][k] + m <= total
      ensures forall m, k :: 1 <= m <= 4 && 0 <= k < |b[m]| ==> b[m][k] + m <= total
    {
    }

    /** To the end of the free list of its size. */
    method FreeChunks(offset: nat, n: nat, ghost i: nat)
      requires Structure() && n <= 4 && i < |entries| && entries[i].valid && entries[i].offset == offset
      requires entries[i].chunks == n
      requires offset != OUT_OF_MEMORY
      requires intact ==> Tiling(State(), None, None)
      modifies `free, `allocatedChunks, `holder
      ensures Structure() && allocatedChunks == old(allocatedChunks) - n
      ensures free == if n == 0 then old(free) else old(free)[n := old(free)[n] + [offset]]
      ensures intact ==> Tiling(State(), if n == 0 then None else Some(i), None)
      ensures intact ==> forall s :: s in old(holder) && s != offset ==> s in holder && holder[s] == old(holder)[s]
      ensures n == 0 ==> holder == old(holder)
    {
      if n == 0 || offset == OUT_OF_MEMORY {
        return;
      }
      if intact {
        FreedTiling(State(), i);
        holder := Freed(State(), offset, n).holder;
      }
      allocatedChunks := allocatedChunks - n;
      free := free[n := free[n] + [offset]];
    }

    // -------------------------------------------------------------- storing

    /** The store of a line that needs `needed` chunks will find them. */
    ghost predicate CanStore(idx: nat, needed: nat)
      reads this
      requires idx < |entries| && needed < |free|
    {
      needed == 0 || (entries[idx].valid && entries[idx].chunks == needed) || HasRoom(needed)
    }

    /**
     * With ten chunks (160 bytes) of memory per line, every store finds room: an extent of
     * each size, 1 to 4, is the most that a line can cost.
     */
    lemma EnoughRoom(idx: nat, needed: nat)
      requires Valid() && intact && idx < |entries| && needed <= 4
      requires 10 * totalLogicalLines <= totalPhysicalChunks
      ensures CanStore(idx, needed)
    {
      hide Tiling, AllHold, HeldChunks, CountOf, Bounded;
      if needed > 0 && |free[needed]| == 0 && !Holds(entries[idx], needed) {
        RoomBound(entries, free, nextUnpartitioned, idx, needed);
      }
    }

    /** Chunks for line `idx` have been set aside; its entry is still the old one. */
    ghost predicate Reserved(idx: nat, needed: nat, offset: nat, except: Option<nat>)
      reads this
    {
      && ReservedState(State(), idx, needed, offset, except)
      && allocatedChunks == HeldChunks(entries) - Held(entries[idx]) + needed
      && idx < |entries| && BoundedWith(entries, free, idx, needed)
    }

    /** Keeps the extent when its size fits, or frees it and allocates one of the right size. */
    method Reserve(idx: nat, needed: nat) returns (ok: bool, offset: nat, ghost except: Option<nat>)
      requires Valid() && idx < |entries| && needed <= 4
      modifies `free, `nextUnpartitioned, `allocatedChunks, `uncompressedBytes, `holder, `tile, `intact
      ensures Structure() && ok == old(CanStore(idx, needed))
      ensures ok ==> intact == old(intact)
      ensures ok ==> (needed > 0 ==> offset + needed <= totalPhysicalChunks)
      ensures ok && intact ==> Reserved(idx, needed, offset, except)
      ensures ok && !entries[idx].valid && needed > 0 && |old(free)[needed]| > 0 ==>
                offset == old(free)[needed][|old(free)[needed]| - 1]
      ensures !ok ==> Valid() && intact == (old(intact) && !Live(entries[idx]))
      ensures !ok && entries[idx].valid ==> free == FreedList(old(free), entries[idx])
      ensures uncompressedBytes == old(uncompressedBytes) + if ok && !entries[idx].valid then CACHE_LINE_SIZE else 0
    {
      hide Tiling, AllHold, Payload, HeldChunks, Bounded, BoundedWith;
      var e := entries[idx];
      if !e.valid {
        ok, offset := ReserveFirst(idx, needed);
        except := None;
      } else if e.chunks != needed {
        ok, offset, except := ReserveResized(idx, needed);
      } else {
        ok, offset, except := true, e.offset, None;
        if intact {
          BoundedExchange(entries, free, free, idx, needed);
        }
      }
    }

    /** The first store to a line. */
    method ReserveFirst(idx: nat, needed: nat) returns (ok: bool, offset: nat)
      requires Valid() && idx < |entries| && needed <= 4 && !entries[idx].valid
      modifies `free, `nextUnpartitioned, `allocatedChunks, `uncompressedBytes, `holder, `tile
      ensures Structure() && ok == old(CanStore(idx, needed))
      ensures ok ==> (needed > 0 ==> offset + needed <= totalPhysicalChunks)
      ensures ok && intact ==> Reserved(idx, needed, offset, None)
      ensures ok && needed > 0 && |old(free)[needed]| > 0 ==> offset == old(free)[needed][|old(free)[needed]| - 1]
      ensures !ok ==> Valid()
      ensures uncompressedBytes == old(uncompressedBytes) + if ok then CACHE_LINE_SIZE else 0
    {
      hide Tiling, AllHold, HeldChunks, LinesKept, Bounded, BoundedWith;
      ok := true;
      offset := AllocateChunks(needed, None);
      if needed > 0 && offset == OUT_OF_MEMORY {
        ok := false;
        return;
      }
      uncompressedBytes := uncompressedBytes + CACHE_LINE_SIZE;
      if intact {
        BoundedExchange(entries, old(free), free, idx, needed);
      }
    }

    /** A store that needs another number of chunks: the old ones are freed before it is known that there is room. */
    method ReserveResized(idx: nat, needed: nat) returns (ok: bool, offset: nat, ghost except: Option<nat>)
      requires Valid() && idx < |entries| && needed <= 4 && entries[idx].valid && entries[idx].chunks != needed
      modifies `free, `nextUnpartitioned, `allocatedChunks, `holder, `tile, `intact
      ensures Structure() && ok == old(CanStore(idx, needed))
      ensures ok ==> intact == old(intact)
      ensures ok ==> (needed > 0 ==> offset + needed <= totalPhysicalChunks)
      ensures ok && intact ==> Reserved(idx, needed, offset, except)
      ensures !ok ==>
                Valid() && intact == (old(intact) && !Live(entries[idx])) && free == FreedList(old(free), entries[idx])
    {
      hide Tiling, AllHold, HeldChunks, LinesKept, Bounded, BoundedWith, Shortened;
      var e := entries[idx];
      ok := true;
      FreeChunks(e.offset, e.chunks, idx);
      except := if e.chunks == 0 then None else Some(idx);
      assert HasRoom(needed) == old(HasRoom(needed));
      offset := AllocateChunks(needed, except);
      if needed > 0 && offset == OUT_OF_MEMORY {
        intact := intact && e.chunks == 0;
        ok := false;
      } else if intact {
        BoundedResize(entries, old(free), idx, needed);
      }
    }

    method WritePayload(offset: nat, c: CompressedLine, ghost n: nat)
      requires c.compressedSize <= |c.data| && c.compressedSize <= n * CHUNK
      requires offset * CHUNK + n * CHUNK <= dram.Length
      modifies dram
      ensures dram[offset * CHUNK..offset * CHUNK + c.compressedSize] == c.data[..c.compressedSize]
      ensures SameOutside(old(dram[..]), dram[..], offset * CHUNK, n * CHUNK)
    {
      forall k | 0 <= k < c.compressedSize {
        dram[offset * CHUNK + k] := c.data[k];
      }
    }

    lemma Sizes()
      requires Structure()
      ensures totalPhysicalChunks <= OFFSET_LIMIT && totalPhysicalChunks * CHUNK <= dram.Length && |entries| == |lines|
    {
    }

    method SetEntry(idx: nat, e: Entry, ghost line: seq<byte>)
      requires Structure() && idx < |entries| && |line| == CACHE_LINE_SIZE
      requires e.chunks <= 4 && e.offset < OFFSET_LIMIT && (Live(e) ==> e.offset + e.chunks <= totalPhysicalChunks)
      requires Live(e) && e.pattern == Uncompressed ==> e.chunks == 4
      modifies `entries, `lines
      ensures Structure() && entries == old(entries)[idx := e] && lines == old(lines)[idx := line]
    {
      entries := entries[idx := e];
      lines := lines[idx := line];
    }

    /** The payload goes to its chunks, and the entry is updated. */
    method WriteEntry(idx: nat, offset: nat, c: CompressedLine, ghost line: seq<byte>, ghost except: Option<nat>)
      requires Structure() && idx < |entries| && c.compressedSize == Size(c.pattern) <= |c.data|
      requires Payload(c.pattern, c.data, line)
      requires Needed(c) > 0 ==> offset + Needed(c) <= totalPhysicalChunks
      requires intact ==> Reserved(idx, Needed(c), offset, except) && AllHold(entries, dram[..], lines)
      modifies `entries, `lines, `holder, dram
      ensures Valid() && lines == old(lines)[idx := line] && Kept(idx, c)
      ensures entries == old(entries)[idx := Entry(if Needed(c) > 0 then offset else 0, Needed(c), c.pattern, true)]
    {
      hide Tiling, AllHold, Payload, ReservedState, SameOutside, LineHolds, Tiles, Needed, BoundedWith, Structure,
        Valid, HeldChunks;
      var needed := Needed(c);
      Sizes();
      ghost var before := dram[..];
      if needed > 0 {
        WritePayload(offset, c, needed);
      }
      var e := Entry(if needed > 0 then offset % OFFSET_LIMIT else 0, needed, c.pattern, true);
      OwnHolds(e, c, line, dram[..]);
      RecordEntry(idx, e, offset, before, line, except);
    }

    /** The entry is updated, with its payload already in place. */
    method RecordEntry(idx: nat, e: Entry, ghost offset: nat, ghost before: seq<byte>, ghost line: seq<byte>,
                       ghost except: Option<nat>)
      requires Structure() && idx < |entries| && e.valid && e.chunks <= 4 && LineHolds(e, dram[..], line)
      requires |line| == CACHE_LINE_SIZE
      requires e.offset < OFFSET_LIMIT
      requires (e.chunks > 0 ==> e.offset == offset && offset + e.chunks <= totalPhysicalChunks)
      requires e.pattern == Uncompressed && e.chunks > 0 ==> e.chunks == 4
      requires |before| == |dram[..]|
      requires if e.chunks > 0 then SameOutside(before, dram[..], offset * CHUNK, e.chunks * CHUNK)
              else before == dram[..]
      requires intact ==> Reserved(idx, e.chunks, offset, except) && AllHold(entries, before, lines)
      modifies `entries, `lines, `holder
      ensures Valid() && lines == old(lines)[idx := line] && entries == old(entries)[idx := e]
    {
      hide Tiling, AllHold, HeldChunks, ReservedState, EntrySet, SameOutside, LineHolds, Tiles, Bounded, BoundedWith,
        Structure;
      Sizes();
      ghost var a := State();
      HeldUpdate(entries, idx, e);
      if intact {
        EntryTiling(a, idx, e, except);
        BoundedSet(entries, free, idx, e);
        OthersAllHold(a, before, dram[..], idx, offset, e.chunks, except, e, lines, line);
        holder := EntrySet(a, idx, e).holder;
      }
      SetEntry(idx, e, line);
    }

    /** The payload of line `idx` is at the start of its chunks. */
    ghost predicate Kept(idx: nat, c: CompressedLine)
      reads this, dram
    {
      && idx < |entries| && c.compressedSize <= |c.data|
      && (c.pattern != Zeros ==>
            var at := entries[idx].offset * CHUNK;
            at + c.compressedSize <= dram.Length && dram[at..at + c.compressedSize] == c.data[..c.compressedSize])
    }

    /**
     * Stores a compressed line. It succeeds exactly when there is room; then the line reads
     * back as `line` and the others as before. Refusing the first store of a line changes
     * nothing. Refusing a store of another size has already given the line's chunks away, if it had any.
     */
    method StoreLine(idx: nat, c: CompressedLine, ghost line: seq<byte>) returns (ok: bool)
      requires Valid() && c.compressedSize == Size(c.pattern) <= |c.data| && Payload(c.pattern, c.data, line)
      modifies this, dram
      ensures Valid()
      ensures ok <==> idx < totalLogicalLines && old(CanStore(idx, Needed(c)))
      ensures ok ==> lines == old(lines)[idx := line] && intact == old(intact)
      ensures ok ==> entries == old(entries)[idx := Entry(entries[idx].offset, Needed(c), c.pattern, true)]
      ensures ok && Needed(c) > 0 && !old(entries[idx].valid) && |old(free)[Needed(c)]| > 0 ==>
                entries[idx].offset == old(free)[Needed(c)][|old(free)[Needed(c)]| - 1]
      ensures !ok ==> lines == old(lines) && entries == old(entries)
      ensures !ok ==> intact == (old(intact) && !(idx < totalLogicalLines && Live(entries[idx])))
      ensures ok ==> Kept(idx, c)
      ensures !ok && idx < totalLogicalLines && entries[idx].valid ==> free == FreedList(old(free), entries[idx])
      ensures uncompressedBytes
              == old(uncompressedBytes) + if ok && !old(entries[idx].valid) then CACHE_LINE_SIZE else 0
    {
      hide Tiling, AllHold, Payload, HeldChunks, Bounded, BoundedWith;
      if idx >= totalLogicalLines {
        return false;
      }
      var offset;
      ghost var except;
      ok, offset, except := Reserve(idx, Needed(c));
      if !ok {
        return;
      }
      WriteEntry(idx, offset, c, line, except);
    }

    /** Reads a line; lines never stored are zeros. */
    method LoadLine(idx: nat, dest: array<byte>) returns (ok: bool)
      requires Valid() && dest.Length == CACHE_LINE_SIZE && dest != dram
      modifies dest
      ensures Valid()
      ensures idx >= totalLogicalLines ==> !ok
      ensures intact && idx < totalLogicalLines ==> ok && dest[..] == lines[idx]
      ensures idx < totalLogicalLines && Live(entries[idx]) && entries[idx].pattern != Zeros ==>
                var e := entries[idx];
                var slot := dram[e.offset * CHUNK..e.offset * CHUNK + e.chunks * CHUNK];
                (ok <==> !TooShort(e.pattern, |slot|)) && (ok ==> Payload(e.pattern, slot, dest[..]))
    {
      hide Tiling, HeldChunks, Payload, TooShort, Bounded;
      if idx >= totalLogicalLines {
        return false;
      }
      var e := entries[idx];
      if !e.valid || e.chunks == 0 || e.pattern == Zeros {
        forall k | 0 <= k < CACHE_LINE_SIZE {
          dest[k] := 0;
        }
        assert dest[..] == ZeroLine();
        return true;
      }
      var lo := e.offset * CHUNK;
      var n := e.chunks * CHUNK;
      var slot := dram[lo..lo + n];
      ok := DecompressRaw(slot, n, dest, Some(e.pattern));
      if intact {
        PayloadUnique(e.pattern, slot, lines[idx], dest[..]);
      }
    }
  }

  /**
   * Compresses a line and stores it. This succeeds exactly when the fewest chunks that any
   * payload of the line needs are there; for a first store, in particular, whenever that
   * many are left at the bump pointer. The line then holds that many.
   */
  method StoreCompressed(t: MemoryLineTable, idx: nat, line: seq<byte>) returns (ok: bool)
    requires t.Valid() && idx < t.totalLogicalLines && |line| == CACHE_LINE_SIZE
    modifies t, t.dram
    ensures t.Valid()
    ensures forall n :: Fewest(line, n) ==> n <= 4 && (ok <==> old(t.CanStore(idx, n)))
    ensures forall n :: Fewest(line, n) && old(!t.entries[idx].valid) ==>
              old(t.nextUnpartitioned) + n <= t.totalPhysicalChunks ==> ok
    ensures ok ==>
              Fewest(line, Held(t.entries[idx])) && t.lines == old(t.lines)[idx := line] && t.intact == old(t.intact)
    ensures ok ==> t.entries == old(t.entries)[idx := t.entries[idx]]
  {
    hide Payload, NoneSmaller, Tiling, AllHold, Bounded, Needed, Fewest, HeldChunks;
    var c := Compress(line);
    NeededFewest(c, line);
    forall n | Fewest(line, n) ensures n == Needed(c) {
      FewestUnique(line, n, Needed(c));
    }
    ok := t.StoreLine(idx, c, line);
  }

  /**
   * What a failed resize leads to. Line `i` keeps its entry, but its chunks are first in
   * line for the next store of that size: when another line `j` is stored for the first
   * time, it is given the very chunks that line `i` still points at.
   */
  method FailedResizeShares(t: MemoryLineTable, i: nat, c: CompressedLine, ghost line: seq<byte>,
                            j: nat, d: CompressedLine, ghost other: seq<byte>) returns (failed: bool)
    requires t.Valid() && i < t.totalLogicalLines && j < t.totalLogicalLines
    requires Live(t.entries[i]) && !t.entries[j].valid
    requires c.compressedSize == Size(c.pattern) <= |c.data| && Payload(c.pattern, c.data, line)
    requires d.compressedSize == Size(d.pattern) <= |d.data| && Payload(d.pattern, d.data, other)
    requires Needed(d) == t.entries[i].chunks
    modifies t, t.dram
    ensures t.Valid() && (failed <==> !old(t.CanStore(i, Needed(c))))
    ensures failed ==> t.entries[i] == old(t.entries[i]) && t.Kept(j, d)
    ensures failed ==>
              Live(t.entries[j]) && t.entries[i].offset == t.entries[j].offset && t.lines == old(t.lines)[j := other]
  {
    hide Payload, Tiling, AllHold, Bounded;
    var stored := t.StoreLine(i, c, line);
    failed := !stored;
    if failed {
      ghost var e := t.entries[i];
      assert t.free[e.chunks][|t.free[e.chunks]| - 1] == e.offset;
      var ok := t.StoreLine(j, d, other);
    }
  }

  // ---------------------------------------------------------------- the harm it does

  /** Words that are all equal leave the repeated-word pattern or none smaller. */
  lemma SmallPattern(c: CompressedLine, b: byte)
    requires b > 0 && c.compressedSize == Size(c.pattern) <= |c.data|
    requires Payload(c.pattern, c.data, Fill(b, CACHE_LINE_SIZE))
    requires NoneSmaller(Fill(b, CACHE_LINE_SIZE), c.compressedSize)
    ensures c.pattern == RepWord && Needed(c) == 1
  {
    hide DeltasDecode;
    var line, buf := Fill(b, CACHE_LINE_SIZE), Fill(b, 9);
    forall i | 0 <= i < 8 ensures i * 8 + 8 <= |line| && WordAt(line, i, 8) == ReadWord(buf, 1, 8) {
      SameWords(line, i * 8, buf, 1, 8);
      assert line[i * 8..i * 8 + 8] == Fill(b, 8) == buf[1..9];
    }
    assert Payload(RepWord, buf, line);
    assert line[0] == b;
  }

  /** Zeros but for one byte, 256 away from the first word. */
  function OddLine(): (line: seq<byte>)
    ensures |line| == CACHE_LINE_SIZE
  {
    Fill(0, CACHE_LINE_SIZE)[9 := 1]
  }

  /** One chunk is not enough for this line. */
  lemma LargePattern(c: CompressedLine)
    requires c.compressedSize == Size(c.pattern) <= |c.data| && Payload(c.pattern, c.data, OddLine())
    ensures Needed(c) > 1
  {
    hide DeltasDecode, DeltasFit, ReadWord, Modulus;
    var line := OddLine();
    assert line[9] == 1;
    ZeroWord(line, 0, 8);
    SecondWord(line);
    if c.pattern == Base8Delta1 {
      PayloadFits(c.pattern, c.data, line);
      NotNear(line);
    }
  }

  lemma SecondWord(line: seq<byte>)
    requires line == OddLine()
    ensures WordAt(line, 0, 8) == 0 && WordAt(line, 1, 8) == 256
  {
    ZeroWord(line, 0, 8);
    ZeroWord(line, 10, 6);
    assert ReadWord(line, 9, 7) == 1 + 256 * ReadWord(line, 10, 6);
    assert ReadWord(line, 8, 8) == 256 * ReadWord(line, 9, 7);
  }

  lemma NotNear(line: seq<byte>)
    requires line == OddLine()
    ensures !DeltasFit(line, 8, 1)
  {
    hide ReadWord;
    SecondWord(line);
    assert Modulus(1) == 256 && WordDifference(line, 1, 8) == 256;
    assert !WordFits(line, 1, 8, 1);
  }

  /** Two lines and one chunk of memory, which is given to line 0. */
  method OneChunkTable() returns (t: MemoryLineTable, ok: bool)
    ensures fresh(t) && fresh(t.dram) && t.Valid() && t.totalLogicalLines == 2 && t.totalPhysicalChunks == 1 && ok
    ensures |t.entries| == |t.lines| == 2 && t.entries[0] == Entry(t.entries[0].offset, 1, RepWord, true)
    ensures !t.entries[1].valid
    ensures t.lines[0] == Fill(1, CACHE_LINE_SIZE)
  {
    hide Payload, NoneSmaller, Tiling, AllHold, Bounded, Needed;
    t := new MemoryLineTable(2 * CACHE_LINE_SIZE, CHUNK);
    var ones := Compress(Fill(1, CACHE_LINE_SIZE));
    SmallPattern(ones, 1);
    ok := t.StoreLine(0, ones, Fill(1, CACHE_LINE_SIZE));
  }

  /**
   * Two lines and one chunk of memory. Line 0 is stored; a store that needs more chunks is
   * refused; line 1 is stored. Now line 0 reads as line 1, whereas only ones were ever
   * stored in it.
   */
  method FailedResizeWitness() returns (t: MemoryLineTable, stored: seq<bool>, loaded: seq<byte>)
    ensures fresh(t) && t.Valid() && stored == [true, false, true]
    ensures |t.lines| == 2 && t.lines[0] == Fill(1, CACHE_LINE_SIZE) && loaded == Fill(2, CACHE_LINE_SIZE)
  {
    hide Payload, NoneSmaller, Tiling, AllHold, Bounded, Needed;
    var first;
    t, first := OneChunkTable();
    var odd := Compress(OddLine());
    var twos := Compress(Fill(2, CACHE_LINE_SIZE));
    LargePattern(odd);
    SmallPattern(twos, 2);
    NoRoom(t, Needed(odd));
    var failed := FailedResizeShares(t, 0, odd, OddLine(), 1, twos, Fill(2, CACHE_LINE_SIZE));
    stored := [first, !failed, true];
    hide MemoryLineTable.Valid;
    loaded := LoadShared(t, twos);
  }

  /** The eight words 1000 to 1007. */
  function NearWords(): (line: seq<byte>)
    ensures |line| == CACHE_LINE_SIZE
    ensures forall k {:trigger line[k]} :: 0 <= k < CACHE_LINE_SIZE ==> line[k] == NearByte(k)
  {
    seq(CACHE_LINE_SIZE, k requires 0 <= k < CACHE_LINE_SIZE => NearByte(k))
  }

  function NearByte(k: nat): (b: byte)
    requires k < CACHE_LINE_SIZE
  {
    if k % 8 == 0 then 232 + k / 8 else if k % 8 == 1 then 3 else 0
  }

  lemma LowByte(s: seq<byte>, i: nat, n: nat)
    requires 0 < n && i + n <= |s|
    ensures ReadWord(s, i, n) == s[i] + 256 * ReadWord(s, i + 1, n - 1)
  {
  }

  lemma NearWord(i: nat)
    requires i < 8
    ensures WordAt(NearWords(), i, 8) == 1000 + i
  {
    hide ReadWord;
    var line := NearWords();
    ZeroWord(line, 8 * i + 2, 6);
    LowByte(line, 8 * i + 1, 7);
    LowByte(line, 8 * i, 8);
  }

  lemma NearFits()
    ensures DeltasFit(NearWords(), 8, 1)
  {
    hide ReadWord, WordAt;
    forall i | 1 <= i < 8 ensures WordFits(NearWords(), i, 8, 1) {
      NearWord(i);
      NearWord(0);
    }
  }

  /** One chunk is enough memory for one line of eight words that are near each other. */
  method OneChunkHolds() returns (t: MemoryLineTable, ok: bool)
    ensures fresh(t) && t.Valid() && t.totalPhysicalChunks == 1 && ok
    ensures |t.lines| == |t.entries| == 1 && t.lines[0] == NearWords() && Held(t.entries[0]) == 1
  {
    hide Payload, NoneSmaller, Tiling, AllHold, Bounded, Needed, HeldChunks;
    t := new MemoryLineTable(CACHE_LINE_SIZE, CHUNK);
    NearFits();
    var c := Emit(NearWords(), Base8Delta1);
    NearFewest(c.data);
    ok := StoreCompressed(t, 0, NearWords());
    FewestUnique(NearWords(), 1, Held(t.entries[0]));
  }

  lemma NearFewest(buf: seq<byte>)
    requires Payload(Base8Delta1, buf, NearWords())
    ensures Fewest(NearWords(), 1)
  {
    hide DeltasDecode;
    assert FitsChunks(Base8Delta1, 1);
    assert NearWords()[0] == 232;
    forall p: Pattern, b: seq<byte>, m: nat | Payload(p, b, NearWords()) && FitsChunks(p, m) ensures 1 <= m {
      assert p != Zeros;
    }
  }

  lemma FreeFits(t: MemoryLineTable, n: nat)
    requires t.Structure() && 1 <= n <= 4
    ensures |t.free| == 5 && (|t.free[n]| > 0 ==> n <= t.totalPhysicalChunks)
  {
    if |t.free[n]| > 0 {
      var first := t.free[n][0];
    }
  }

  lemma NoRoom(t: MemoryLineTable, needed: nat)
    requires t.Structure() && t.totalPhysicalChunks == 1 && |t.entries| == 2 && t.entries[0].chunks == 1
    requires 1 < needed <= 4
    ensures |t.free| == 5 && !t.CanStore(0, needed)
  {
    FreeFits(t, needed);
  }

  method LoadShared(t: MemoryLineTable, c: CompressedLine) returns (loaded: seq<byte>)
    requires t.Valid() && t.totalLogicalLines == 2 && |t.entries| == 2 && t.dram.Length >= CHUNK
    requires t.entries[0] == Entry(t.entries[0].offset, 1, RepWord, true) && t.entries[0].offset == t.entries[1].offset
    requires c.pattern == RepWord && c.compressedSize == Size(RepWord) && t.Kept(1, c)
    requires Payload(RepWord, c.data, Fill(2, CACHE_LINE_SIZE))
    ensures loaded == Fill(2, CACHE_LINE_SIZE)
  {
    hide Payload, Tiling, AllHold, Bounded;
    var dest := new byte[CACHE_LINE_SIZE](_ => 0);
    var ok := t.LoadLine(0, dest);
    loaded := dest[..];
    ghost var at := t.entries[0].offset * CHUNK;
    SlotReads(t.dram[at..at + CHUNK], c, Fill(2, CACHE_LINE_SIZE), loaded);
  }

  lemma SlotReads(slot: seq<byte>, c: CompressedLine, line: seq<byte>, loaded: seq<byte>)
    requires c.pattern == RepWord && |slot| == CHUNK && c.compressedSize == Size(RepWord) <= |c.data|
    requires slot[..c.compressedSize] == c.data[..c.compressedSize]
    requires Payload(RepWord, c.data, line) && Payload(RepWord, slot, loaded)
    ensures loaded == line
  {
    hide Payload;
    PayloadFromSlot(RepWord, c.data, slot, line);
    PayloadUnique(RepWord, slot, line, loaded);
  }
}
