/** The byte-addressed controller: reads and read-modify-writes over compressed lines. */
module HyperRam {
  import opened Bytes
  import opened BdiEngine
  import opened LineTable

  // ---------------------------------------------------------------- the flat memory

  ghost predicate LineSized(lines: seq<seq<byte>>) {
    forall i :: 0 <= i < |lines| ==> |lines[i]| == CACHE_LINE_SIZE
  }

  /** The byte at address `a`. */
  function ByteAt(lines: seq<seq<byte>>, a: nat): (b: byte)
    requires LineSized(lines) && a < |lines| * CACHE_LINE_SIZE
  {
    LineIndex(a, |lines|);
    lines[a / CACHE_LINE_SIZE][a % CACHE_LINE_SIZE]
  }

  lemma LineIndex(a: nat, n: nat)
    requires a < n * CACHE_LINE_SIZE
    ensures a / CACHE_LINE_SIZE < n
  {
  }

  /** The lines as one array of bytes. */
  function Flat(lines: seq<seq<byte>>): (m: seq<byte>)
    requires LineSized(lines)
    ensures |m| == |lines| * CACHE_LINE_SIZE
    ensures forall a {:trigger m[a]} :: 0 <= a < |m| ==> m[a] == ByteAt(lines, a)
  {
    seq(|lines| * CACHE_LINE_SIZE, a requires 0 <= a < |lines| * CACHE_LINE_SIZE => ByteAt(lines, a))
  }

  /** `m` with `data` from address `a` on. */
  function Patched(m: seq<byte>, a: nat, data: seq<byte>): (r: seq<byte>)
    requires a + |data| <= |m|
    ensures |r| == |m|
    ensures forall k {:trigger r[k]} :: 0 <= k < |m| ==> r[k] == if a <= k < a + |data| then data[k - a] else m[k]
  {
    m[..a] + data + m[a + |data|..]
  }

  /** Patching a line patches the memory. */
  lemma LinePatched(lines: seq<seq<byte>>, i: nat, offset: nat, data: seq<byte>)
    requires LineSized(lines) && i < |lines| && offset + |data| <= CACHE_LINE_SIZE
    ensures var lines' := lines[i := Patched(lines[i], offset, data)];
            LineSized(lines') && Flat(lines') == Patched(Flat(lines), i * CACHE_LINE_SIZE + offset, data)
  {
    var lines' := lines[i := Patched(lines[i], offset, data)];
    var m, r := Flat(lines'), Patched(Flat(lines), i * CACHE_LINE_SIZE + offset, data);
    forall a | 0 <= a < |m| ensures m[a] == r[a] {
      LineIndex(a, |lines|);
    }
  }

  /** Two patches in a row are one. */
  lemma PatchedTwice(m: seq<byte>, a: nat, d1: seq<byte>, d2: seq<byte>)
    requires a + |d1| + |d2| <= |m|
    ensures Patched(Patched(m, a, d1), a + |d1|, d2) == Patched(m, a, d1 + d2)
  {
  }

  /** Bytes of a line are bytes of the memory. */
  lemma LineSlice(lines: seq<seq<byte>>, start: nat, n: nat)
    requires LineSized(lines) && start / CACHE_LINE_SIZE < |lines| && start % CACHE_LINE_SIZE + n <= CACHE_LINE_SIZE
    ensures start + n <= |Flat(lines)|
    ensures var o := start % CACHE_LINE_SIZE;
            Flat(lines)[start..start + n] == lines[start / CACHE_LINE_SIZE][o..o + n]
  {
    var m, i, o := Flat(lines), start / CACHE_LINE_SIZE, start % CACHE_LINE_SIZE;
    assert start == i * CACHE_LINE_SIZE + o;
    LinesFit(i, |lines|);
    var a, b := m[start..start + n], lines[i][o..o + n];
    forall k | 0 <= k < n ensures a[k] == b[k] {
      assert a[k] == m[start + k];
      SameLine(i, o + k);
    }
  }

  lemma LinesFit(i: nat, n: nat)
    requires i < n
    ensures (i + 1) * CACHE_LINE_SIZE <= n * CACHE_LINE_SIZE
  {
  }

  lemma SameLine(i: nat, o: nat)
    requires o < CACHE_LINE_SIZE
    ensures (i * CACHE_LINE_SIZE + o) / CACHE_LINE_SIZE == i && (i * CACHE_LINE_SIZE + o) % CACHE_LINE_SIZE == o
  {
  }

  // ---------------------------------------------------------------- the controller

  class HyperRAMController {
    const virtualCapacity: nat
    const table: MemoryLineTable
    var totalReads: nat
    var totalWrites: nat
    var totalBytesRead: nat
    var totalBytesWritten: nat
    var patternCounts: seq<nat>

    ghost predicate Valid()
      reads this, table, table.dram
    {
      && table.Valid() && |patternCounts| == 16 && Sized()
      && (table.intact ==> forall i :: 0 <= i < |table.lines| ==> Marked(i))
    }

    /** Line `i` holds the fewest chunks that any payload of it needs; so zeros have none. */
    ghost predicate Marked(i: nat)
      reads table
      requires i < |table.entries| && i < |table.lines|
    {
      Fewest(table.lines[i], Held(table.entries[i]))
    }

    ghost predicate Sized()
      reads table
    {
      && |table.lines| == |table.entries| == table.totalLogicalLines && LineSized(table.lines)
      && virtualCapacity <= |table.lines| * CACHE_LINE_SIZE
    }

    /** The memory as the host sees it. */
    ghost function Memory(): (m: seq<byte>)
      reads table
      requires Sized()
      ensures virtualCapacity <= |m|
    {
      Flat(table.lines)
    }

    /** 160 bytes of physical memory for each line of 64. */
    ghost predicate Roomy() {
      10 * table.totalLogicalLines <= table.totalPhysicalChunks
    }

    constructor (virtualCapacity: nat, physicalBytes: nat)
      requires physicalBytes / CHUNK <= OFFSET_LIMIT
      ensures Valid() && table.intact && fresh(table) && fresh(table.dram)
      ensures this.virtualCapacity == virtualCapacity
      ensures table.totalLogicalLines == (virtualCapacity + CACHE_LINE_SIZE - 1) / CACHE_LINE_SIZE
      ensures table.totalPhysicalChunks == physicalBytes / CHUNK
      ensures Memory() == Fill(0, table.totalLogicalLines * CACHE_LINE_SIZE)
    {
      this.virtualCapacity := virtualCapacity;
      table := new MemoryLineTable(virtualCapacity, physicalBytes);
      totalReads, totalWrites, totalBytesRead, totalBytesWritten := 0, 0, 0, 0;
      patternCounts := seq(16, _ => 0);
      new;
      ZerosFewest();
      assert Memory() == Fill(0, table.totalLogicalLines * CACHE_LINE_SIZE);
    }

    predicate InRange(address: nat, size: nat) {
      size > 0 && address + size <= virtualCapacity
    }

    /** Copies out of one line after the other. */
    method Read(address: nat, dest: array<byte>) returns (ok: bool)
      requires Valid() && dest != table.dram
      modifies `totalReads, `totalBytesRead, dest
      ensures Valid()
      ensures !InRange(address, dest.Length) ==> !ok
      ensures table.intact && InRange(address, dest.Length) ==>
                ok && dest[..] == Memory()[address..address + dest.Length]
      ensures totalReads == old(totalReads) + (if ok then 1 else 0)
      ensures totalBytesRead == old(totalBytesRead) + (if ok then dest.Length else 0)
    {
      hide MemoryLineTable.Valid, Flat, LineSized;
      ok := false;
      var size := dest.Length;
      if size == 0 || address > virtualCapacity || size > virtualCapacity - address {
        return;
      }
      var start: nat, end: nat, done: nat := address, address + size, 0;
      var line := new byte[CACHE_LINE_SIZE](_ => 0);
      while start < end
        invariant Valid() && start == address + done && done <= size && fresh(line)
        invariant totalReads == old(totalReads) && totalBytesRead == old(totalBytesRead)
        invariant table.intact ==> dest[..done] == Memory()[address..address + done]
        decreases end - start
      {
        var lineOffset := start % CACHE_LINE_SIZE;
        var toCopy := if end - start < CACHE_LINE_SIZE - lineOffset then end - start else CACHE_LINE_SIZE - lineOffset;
        var loaded := ReadLine(address, start, toCopy, dest, line);
        if !loaded {
          return;
        }
        start, done := start + toCopy, done + toCopy;
      }
      assert dest[..done] == dest[..];
      totalReads, totalBytesRead := totalReads + 1, totalBytesRead + size;
      ok := true;
    }

    /** Loads the line of `start` and copies what is asked of it. */
    method ReadLine(address: nat, start: nat, toCopy: nat, dest: array<byte>, line: array<byte>) returns (ok: bool)
      requires Valid() && line != dest && line != table.dram && dest != table.dram && line.Length == CACHE_LINE_SIZE
      requires address <= start && start - address + toCopy <= dest.Length && start + toCopy <= virtualCapacity
      requires toCopy > 0 && start % CACHE_LINE_SIZE + toCopy <= CACHE_LINE_SIZE
      modifies line, dest
      ensures Valid()
      ensures table.intact && old(dest[..start - address]) == Memory()[address..start] ==>
                ok && dest[..start - address + toCopy] == Memory()[address..start + toCopy]
    {
      hide MemoryLineTable.Valid, Flat;
      var lineIdx, lineOffset := start / CACHE_LINE_SIZE, start % CACHE_LINE_SIZE;
      LineIndex(start, |table.lines|);
      ok := table.LoadLine(lineIdx, line);
      if !ok {
        return;
      }
      CopyBytes(dest, start - address, line, lineOffset, toCopy);
      if table.intact {
        LineSlice(table.lines, start, toCopy);
        assert Memory()[address..start] + Memory()[start..start + toCopy] == Memory()[address..start + toCopy];
      }
    }

    /** The line with `data` at `lineOffset`: loaded first, unless all of it is replaced. */
    method MergedLine(lineIdx: nat, lineOffset: nat, data: seq<byte>, line: array<byte>) returns (ok: bool)
      requires Valid() && line.Length == CACHE_LINE_SIZE && line != table.dram && lineIdx < |table.lines|
      requires 0 < |data| && lineOffset + |data| <= CACHE_LINE_SIZE
      modifies line
      ensures Valid()
      ensures table.intact ==> ok && line[..] == Patched(table.lines[lineIdx], lineOffset, data)
    {
      hide MemoryLineTable.Valid;
      if lineOffset == 0 && |data| == CACHE_LINE_SIZE {
        CopyFrom(line, 0, data);
        ok := true;
      } else {
        ok := table.LoadLine(lineIdx, line);
        if !ok {
          return;
        }
        CopyFrom(line, lineOffset, data);
      }
    }

    /** Merges `data` into one line and stores it. */
    method WriteLine(lineIdx: nat, lineOffset: nat, data: seq<byte>, line: array<byte>) returns (ok: bool)
      requires Valid() && line.Length == CACHE_LINE_SIZE && line != table.dram && lineIdx < |table.lines|
      requires 0 < |data| && lineOffset + |data| <= CACHE_LINE_SIZE
      modifies `patternCounts, table, table.dram, line
      ensures Valid()
      ensures table.intact ==> old(table.intact)
      ensures ok && table.intact ==> Memory() == Patched(old(Memory()), lineIdx * CACHE_LINE_SIZE + lineOffset, data)
      ensures !ok && table.intact ==> Memory() == old(Memory())
      ensures ok ==> table.intact == old(table.intact)
      ensures Roomy() && old(table.intact) ==> ok
      ensures ok ==> patternCounts == Counted(old(patternCounts), table.entries[lineIdx].pattern)
      ensures old(table.intact) ==> exists p: Pattern :: patternCounts == Counted(old(patternCounts), p)
      ensures table.entries == old(table.entries)[lineIdx := table.entries[lineIdx]]
      ensures !ok && old(table.intact) ==>
                table.intact == !old(Live(table.entries[lineIdx])) && table.entries == old(table.entries)
    {
      hide MemoryLineTable.Valid, Payload, Flat, Patched, NoneSmaller, Needed;
      ok := MergedLine(lineIdx, lineOffset, data, line);
      if !ok {
        return;
      }
      var c := Compress(line[..]);
      var patIdx := Tag(c.pattern) % 16;
      patternCounts := patternCounts[patIdx := patternCounts[patIdx] + 1];
      assert patternCounts == Counted(old(patternCounts), c.pattern);
      if Roomy() && table.intact {
        table.EnoughRoom(lineIdx, Needed(c));
      }
      ok := table.StoreLine(lineIdx, c, line[..]);
      NeededFewest(c, line[..]);
      if ok && table.intact {
        LinePatched(old(table.lines), lineIdx, lineOffset, data);
      }
      if table.intact {
        forall i | 0 <= i < |table.lines| ensures Marked(i) {
          assert old(Marked(i));
        }
      }
    }

    /** The part of a write that falls into one line; `m` was the memory before the write. */
    method WritePart(start: nat, src: seq<byte>, srcOffset: nat, toWrite: nat, line: array<byte>, ghost m: seq<byte>)
      returns (ok: bool)
      requires Valid() && line.Length == CACHE_LINE_SIZE && line != table.dram
      requires srcOffset <= start && 0 < toWrite && srcOffset + toWrite <= |src| && start + toWrite <= virtualCapacity
      requires start % CACHE_LINE_SIZE + toWrite <= CACHE_LINE_SIZE && |m| == |Memory()|
      modifies `patternCounts, table, table.dram, line
      ensures Valid() && (table.intact ==> old(table.intact)) && (ok ==> table.intact == old(table.intact))
      ensures table.intact && old(Memory()) == Patched(m, start - srcOffset, src[..srcOffset]) ==>
                Memory() == Patched(m, start - srcOffset, src[..if ok then srcOffset + toWrite else srcOffset])
      ensures Roomy() && old(table.intact) ==> ok
      ensures |table.entries| == old(|table.entries|)
      ensures forall i :: 0 <= i < |table.entries| && i != start / CACHE_LINE_SIZE ==>
                table.entries[i] == old(table.entries[i])
      ensures !ok && old(table.intact) ==> table.intact == !old(Live(table.entries[start / CACHE_LINE_SIZE]))
    {
      hide MemoryLineTable.Valid, Flat, Patched, LineSized, Live, Counted, Roomy;
      LineIndex(start, |table.lines|);
      var data := src[srcOffset..srcOffset + toWrite];
      ok := WriteLine(start / CACHE_LINE_SIZE, start % CACHE_LINE_SIZE, data, line);
      PatchedTwice(m, start - srcOffset, src[..srcOffset], data);
      assert src[..srcOffset] + data == src[..srcOffset + toWrite];
    }

    /**
     * Writes one line after the other. When memory runs out on the way, the lines before
     * stay written.
     */
    method Write(address: nat, src: seq<byte>) returns (ok: bool, ghost done: nat)
      requires Valid()
      modifies `totalWrites, `totalBytesWritten, `patternCounts, table, table.dram
      ensures Valid()
      ensures table.intact ==> old(table.intact)
      ensures ok ==> table.intact == old(table.intact) && done == |src|
      ensures !InRange(address, |src|) ==>
                !ok && done == 0 && table.intact == old(table.intact) && Memory() == old(Memory())
      ensures InRange(address, |src|) ==> done <= |src| && (!ok ==> done < |src|)
      ensures InRange(address, |src|) && table.intact ==> Memory() == Patched(old(Memory()), address, src[..done])
      ensures InRange(address, |src|) && Roomy() && old(table.intact) ==> ok
      ensures InRange(address, |src|) && !ok && old(table.intact) ==>
                table.intact == !old(Live(table.entries[(address + done) / CACHE_LINE_SIZE]))
      ensures totalWrites == old(totalWrites) + (if ok then 1 else 0)
      ensures totalBytesWritten == old(totalBytesWritten) + (if ok then |src| else 0)
    {
      hide MemoryLineTable.Valid, Flat, Patched, LineSized, Live, Counted, Roomy;
      ok, done := false, 0;
      var size := |src|;
      if size == 0 || address > virtualCapacity || size > virtualCapacity - address {
        return;
      }
      var start: nat, end: nat, srcOffset: nat := address, address + size, 0;
      var line := new byte[CACHE_LINE_SIZE](_ => 0);
      PatchedNothing(Memory(), address, src[..0]);
      while start < end
        invariant Valid() && start == address + srcOffset && srcOffset <= size && fresh(line) && done == srcOffset
        invariant table.intact == old(table.intact)
        invariant done > 0 && start < end ==> start % CACHE_LINE_SIZE == 0
        invariant |table.entries| == old(|table.entries|)
        invariant forall i :: 0 <= i < |table.entries| && (done == 0 || start <= i * CACHE_LINE_SIZE) ==>
                    table.entries[i] == old(table.entries[i])
        invariant totalWrites == old(totalWrites) && totalBytesWritten == old(totalBytesWritten)
        invariant table.intact ==> Memory() == Patched(old(Memory()), address, src[..done])
        decreases end - start
      {
        var lineOffset := start % CACHE_LINE_SIZE;
        var toWrite := if end - start < CACHE_LINE_SIZE - lineOffset then end - start else CACHE_LINE_SIZE - lineOffset;
        var stored := WritePart(start, src, srcOffset, toWrite, line, old(Memory()));
        if !stored {
          return;
        }
        start, srcOffset, done := start + toWrite, srcOffset + toWrite, done + toWrite;
      }
      totalWrites, totalBytesWritten := totalWrites + 1, totalBytesWritten + size;
      ok := true;
    }
  }

  /** The histogram of patterns with one more line of pattern `p`. */
  function Counted(counts: seq<nat>, p: Pattern): (r: seq<nat>)
    requires |counts| == 16
    ensures |r| == 16 && forall t {:trigger r[t]} :: 0 <= t < 16 ==> r[t] == counts[t] + if t == Tag(p) then 1 else 0
  {
    counts[Tag(p) := counts[Tag(p)] + 1]
  }

  lemma PatchedNothing(m: seq<byte>, a: nat, nothing: seq<byte>)
    requires nothing == [] && a <= |m|
    ensures Patched(m, a, nothing) == m
  {
  }

  method CopyBytes(dest: array<byte>, at: nat, src: array<byte>, from: nat, n: nat)
    requires dest != src && at + n <= dest.Length && from + n <= src.Length
    modifies dest
    ensures dest[..at + n] == old(dest[..at]) + src[from..from + n]
  {
    forall k | 0 <= k < n {
      dest[at + k] := src[from + k];
    }
  }

  method CopyFrom(dest: array<byte>, at: nat, data: seq<byte>)
    requires at + |data| <= dest.Length
    modifies dest
    ensures dest[..] == Patched(old(dest[..]), at, data)
  {
    forall k | 0 <= k < |data| {
      dest[at + k] := data[k];
    }
  }

  // ---------------------------------------------------------------- runs

  datatype MemOp = WriteAt(address: nat, data: seq<byte>) | ReadAt(address: nat, size: nat)

  datatype MemReply = Written(ok: bool) | Bytes(data: Option<seq<byte>>)

  /** Flat memory of which the first `capacity` bytes can be addressed; `done` bytes of a write land. */
  function MemoryAfter(m: seq<byte>, capacity: nat, op: MemOp, done: nat): (r: seq<byte>)
    requires capacity <= |m|
    ensures |r| == |m|
  {
    if op.WriteAt? && 0 < |op.data| && op.address + |op.data| <= capacity && done <= |op.data| then
      Patched(m, op.address, op.data[..done])
    else m
  }

  function ReplyOf(m: seq<byte>, capacity: nat, op: MemOp, done: nat): (r: MemReply)
    requires capacity <= |m|
  {
    match op
    case WriteAt(address, data) => Written(0 < |data| && address + |data| <= capacity && done == |data|)
    case ReadAt(address, size) =>
      Bytes(if 0 < size && address + size <= capacity then Some(m[address..address + size]) else None)
  }

  function MemoryAfterAll(m: seq<byte>, capacity: nat, ops: seq<MemOp>, done: seq<nat>): (r: seq<byte>)
    requires capacity <= |m| && |ops| == |done|
    ensures |r| == |m|
  {
    if ops == [] then m
    else
      var k := |ops| - 1;
      MemoryAfter(MemoryAfterAll(m, capacity, ops[..k], done[..k]), capacity, ops[k], done[k])
  }

  function MemReplies(m: seq<byte>, capacity: nat, ops: seq<MemOp>, done: seq<nat>): (r: seq<MemReply>)
    requires capacity <= |m| && |ops| == |done|
    ensures |r| == |ops|
  {
    if ops == [] then []
    else
      var k := |ops| - 1;
      MemReplies(m, capacity, ops[..k], done[..k])
      + [ReplyOf(MemoryAfterAll(m, capacity, ops[..k], done[..k]), capacity, ops[k], done[k])]
  }

  lemma NoOps(m: seq<byte>, capacity: nat, ops: seq<MemOp>)
    requires capacity <= |m| && ops == []
    ensures MemoryAfterAll(m, capacity, ops, []) == m && MemReplies(m, capacity, ops, []) == []
  {
  }

  lemma OneOpMore(m: seq<byte>, capacity: nat, ops: seq<MemOp>, k: nat, done: seq<nat>, n: nat)
    requires capacity <= |m| && k < |ops| && |done| == k
    ensures var before := MemoryAfterAll(m, capacity, ops[..k], done);
            && MemoryAfterAll(m, capacity, ops[..k + 1], done + [n]) == MemoryAfter(before, capacity, ops[k], n)
            && MemReplies(m, capacity, ops[..k + 1], done + [n])
            == MemReplies(m, capacity, ops[..k], done) + [ReplyOf(before, capacity, ops[k], n)]
  {
    hide MemoryAfter, ReplyOf;
    assert ops[..k + 1][..k] == ops[..k];
    assert (done + [n])[..k] == done;
  }

  predicate Covers(op: MemOp, done: nat, a: nat) {
    op.WriteAt? && op.address <= a < op.address + done
  }

  /** A byte outside every written range never changes. */
  lemma {:induction false} Untouched(m: seq<byte>, capacity: nat, ops: seq<MemOp>, done: seq<nat>, a: nat)
    requires capacity <= |m| && |ops| == |done| && a < |m|
    requires forall j :: 0 <= j < |ops| ==> !Covers(ops[j], done[j], a)
    ensures MemoryAfterAll(m, capacity, ops, done)[a] == m[a]
  {
    if ops != [] {
      var k := |ops| - 1;
      assert !Covers(ops[k], done[k], a);
      Untouched(m, capacity, ops[..k], done[..k], a);
    }
  }

  /** A byte reads as the last write that covered it left it. */
  lemma {:induction false} LastCovering(m: seq<byte>, capacity: nat, ops: seq<MemOp>, done: seq<nat>, a: nat, j: nat)
    requires capacity <= |m| && |ops| == |done| && a < |m| && j < |ops|
    requires ops[j].WriteAt? && done[j] <= |ops[j].data| && ops[j].address + |ops[j].data| <= capacity
    requires Covers(ops[j], done[j], a)
    requires forall l :: j < l < |ops| ==> !Covers(ops[l], done[l], a)
    ensures MemoryAfterAll(m, capacity, ops, done)[a] == ops[j].data[a - ops[j].address]
  {
    var k := |ops| - 1;
    if j < k {
      assert !Covers(ops[k], done[k], a);
      LastCovering(m, capacity, ops[..k], done[..k], a, j);
    }
  }

  /** No write inside the capacity was refused. */
  predicate Accepted(op: MemOp, capacity: nat, reply: MemReply) {
    op.WriteAt? && 0 < |op.data| && op.address + |op.data| <= capacity ==> reply == Written(true)
  }

  /** All bytes of the line of address `a` are zeros. */
  predicate ZeroLineAt(m: seq<byte>, a: nat) {
    var at := a / CACHE_LINE_SIZE * CACHE_LINE_SIZE;
    at + CACHE_LINE_SIZE <= |m| && m[at..at + CACHE_LINE_SIZE] == ZeroLine()
  }

  lemma ZeroLineIs(lines: seq<seq<byte>>, a: nat)
    requires LineSized(lines) && a / CACHE_LINE_SIZE < |lines|
    ensures ZeroLineAt(Flat(lines), a) <==> lines[a / CACHE_LINE_SIZE] == ZeroLine()
  {
    var i := a / CACHE_LINE_SIZE;
    LinesFit(i, |lines|);
    SameLine(i, 0);
    LineSlice(lines, i * CACHE_LINE_SIZE, CACHE_LINE_SIZE);
    assert lines[i][0..CACHE_LINE_SIZE] == lines[i];
  }

  /** Exactly the lines that are not zeros have chunks. */
  lemma LiveOrZero(e: Entry, line: seq<byte>)
    requires Fewest(line, Held(e))
    ensures Live(e) <==> line != ZeroLine()
  {
    hide Fewest;
    FewestZero(line, Held(e));
  }

  /** Memory in use is the sum of what the lines hold, and each holds the fewest chunks it can. */
  lemma Accounted(ram: HyperRAMController)
    requires ram.Valid() && ram.table.intact
    ensures ram.table.allocatedChunks == HeldChunks(ram.table.entries) && |ram.table.entries| == |ram.table.lines|
    ensures forall i :: 0 <= i < |ram.table.entries| ==> Fewest(ram.table.lines[i], Held(ram.table.entries[i]))
  {
    hide Fewest, HeldChunks, Tiling, AllHold, Bounded, LineSized;
    forall i | 0 <= i < |ram.table.entries| ensures Fewest(ram.table.lines[i], Held(ram.table.entries[i])) {
      assert ram.Marked(i);
    }
  }

  method Perform(ram: HyperRAMController, op: MemOp) returns (reply: MemReply, ghost done: nat)
    requires ram.Valid()
    modifies ram, ram.table, ram.table.dram
    ensures ram.Valid() && (ram.table.intact ==> old(ram.table.intact))
    ensures Accepted(op, ram.virtualCapacity, reply) ==> ram.table.intact == old(ram.table.intact)
    ensures ram.Roomy() && old(ram.table.intact) ==> Accepted(op, ram.virtualCapacity, reply)
    ensures !Accepted(op, ram.virtualCapacity, reply) && old(ram.table.intact) ==>
              && op.address + done < |old(ram.Memory())|
              && ram.table.intact == !old(Live(ram.table.entries[(op.address + done) / CACHE_LINE_SIZE]))
              && ram.table.intact == ZeroLineAt(old(ram.Memory()), op.address + done)
    ensures ram.table.intact ==>
              && ram.Memory() == MemoryAfter(old(ram.Memory()), ram.virtualCapacity, op, done)
              && reply == ReplyOf(old(ram.Memory()), ram.virtualCapacity, op, done)
  {
    hide MemoryLineTable.Valid, Flat, Patched, LineSized, ZeroLineAt, Live, HyperRAMController.Roomy;
    done := 0;
    match op
    case WriteAt(address, data) =>
      var ok;
      ghost var lines, entries := ram.table.lines, ram.table.entries;
      ok, done := ram.Write(address, data);
      if !Accepted(op, ram.virtualCapacity, Written(ok)) {
        LineIndex(address + done, |lines|);
        ZeroLineIs(lines, address + done);
        if old(ram.table.intact) {
          assert old(ram.Marked((address + done) / CACHE_LINE_SIZE));
          LiveOrZero(entries[(address + done) / CACHE_LINE_SIZE], lines[(address + done) / CACHE_LINE_SIZE]);
        }
      }
      reply := Written(ok);
    case ReadAt(address, size) =>
      var dest := new byte[size](_ => 0);
      var ok := ram.Read(address, dest);
      reply := Bytes(if ok then Some(dest[..]) else None);
  }

  /** Operation `k` was not refused, or stopped at a line that was all zeros. */
  predicate HarmlessAt(m: seq<byte>, capacity: nat, ops: seq<MemOp>, done: seq<nat>, replies: seq<MemReply>, k: nat)
    requires capacity <= |m| && k < |done| && k < |replies| && k < |ops|
  {
    || Accepted(ops[k], capacity, replies[k])
    || ZeroLineAt(MemoryAfterAll(m, capacity, ops[..k], done[..k]), ops[k].address + done[k])
  }

  lemma HarmlessMore(m: seq<byte>, capacity: nat, ops: seq<MemOp>, done: seq<nat>, replies: seq<MemReply>, n: nat,
                     reply: MemReply)
    requires capacity <= |m| && |done| == |replies| < |ops|
    ensures forall j :: 0 <= j < |done| ==>
              (HarmlessAt(m, capacity, ops, done + [n], replies + [reply], j) <==>
                  HarmlessAt(m, capacity, ops, done, replies, j))
    ensures var k := |done|;
            HarmlessAt(m, capacity, ops, done + [n], replies + [reply], k) <==>
              || Accepted(ops[k], capacity, reply)
              || ZeroLineAt(MemoryAfterAll(m, capacity, ops[..k], done), ops[k].address + n)
  {
    hide MemoryAfterAll, Accepted, ZeroLineAt;
    forall j | 0 <= j <= |done| ensures (done + [n])[..j] == done[..j] {
    }
    assert done[..|done|] == done;
  }

  /**
   * Refinement over whole runs, from a fresh controller. As long as no store that changes
   * a line's number of chunks has run out of memory, every reply is that of a flat byte
   * array that starts with zeros. A refused write has landed in part: its first `done`
   * bytes. This holds exactly if every refused write stopped at a line of zeros; in
   * particular when no write in range is refused, and none is when there are 160 bytes of
   * physical memory for each line of 64.
   */
  method Run(virtualCapacity: nat, physicalBytes: nat, ops: seq<MemOp>)
    returns (replies: seq<MemReply>, ram: HyperRAMController, ghost done: seq<nat>)
    requires physicalBytes / CHUNK <= OFFSET_LIMIT
    ensures fresh(ram) && ram.Valid() && ram.virtualCapacity == virtualCapacity && |replies| == |ops| == |done|
    ensures ram.table.intact ==>
              && ram.Memory() == MemoryAfterAll(Fill(0, |ram.Memory()|), virtualCapacity, ops, done)
              && replies == MemReplies(Fill(0, |ram.Memory()|), virtualCapacity, ops, done)
    ensures 10 * ((virtualCapacity + CACHE_LINE_SIZE - 1) / CACHE_LINE_SIZE) <= physicalBytes / CHUNK ==>
              forall k :: 0 <= k < |ops| ==> Accepted(ops[k], virtualCapacity, replies[k])
    ensures ram.table.intact <==>
              forall k :: 0 <= k < |ops| ==>
                HarmlessAt(Fill(0, |ram.Memory()|), virtualCapacity, ops, done, replies, k)
    ensures ram.table.intact ==>
              && ram.table.allocatedChunks == HeldChunks(ram.table.entries)
              && forall i :: 0 <= i < |ram.table.entries| ==> Fewest(ram.table.lines[i], Held(ram.table.entries[i]))
  {
    hide MemoryLineTable.Valid, Flat, MemoryAfter, ReplyOf, MemoryAfterAll, MemReplies, HarmlessAt, ZeroLineAt;
    ram := new HyperRAMController(virtualCapacity, physicalBytes);
    ghost var zeros := ram.Memory();
    replies, done := [], [];
    NoOps(zeros, virtualCapacity, ops[..0]);
    for k := 0 to |ops|
      invariant fresh(ram) && fresh(ram.table) && fresh(ram.table.dram) && ram.Valid()
      invariant ram.virtualCapacity == virtualCapacity && |replies| == |done| == k && |ram.Memory()| == |zeros|
      invariant ram.table.intact ==> ram.Memory() == MemoryAfterAll(zeros, virtualCapacity, ops[..k], done)
      invariant ram.table.intact ==> replies == MemReplies(zeros, virtualCapacity, ops[..k], done)
      invariant ram.Roomy() ==> ram.table.intact
      invariant ram.Roomy() ==> forall j :: 0 <= j < k ==> Accepted(ops[j], virtualCapacity, replies[j])
      invariant ram.table.intact <==>
                forall j :: 0 <= j < k ==> HarmlessAt(zeros, virtualCapacity, ops, done, replies, j)
    {
      ghost var n;
      var reply;
      reply, n := Perform(ram, ops[k]);
      OneOpMore(zeros, virtualCapacity, ops, k, done, n);
      HarmlessMore(zeros, virtualCapacity, ops, done, replies, n, reply);
      replies, done := replies + [reply], done + [n];
    }
    assert ops[..|ops|] == ops;
    if ram.table.intact {
      Accounted(ram);
    }
  }
}
