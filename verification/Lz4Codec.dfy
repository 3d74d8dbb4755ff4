/** The codec's entry points, and the round trip through encoder and decoder. */
module Lz4Codec {
  import opened Bytes
  import opened Lz4Format
  import opened Lz4Search
  import opened Lz4Encoder
  import Lz4Syntax
  import Lz4Decoder

  const HASH_TABLE_SIZE := 8192
  const ACCELERATION_MAX := 65537

  /** LZ4_hash4 for 16-bit tables: 32-bit multiplication, the top 13 bits kept. */
  function Hash4(sequence: nat): (h: nat)
    ensures h < HASH_TABLE_SIZE
  {
    (sequence * 2654435761) % 0x1_0000_0000 / 0x8_0000
  }

  /** What the encoder promises is what the decoder asks for. */
  lemma EncodedDecodes(z: seq<byte>, src: seq<byte>)
    requires Encodes(z, src)
    ensures Decode(z, 0, []) == Some(src)
    ensures Lz4Decoder.Accepted(z, |src|)
    ensures src == [] ==> z == [0]
  {
    hide WellFormed, Decode, PrintLiterals;
    var b: Block :|
      && (forall q :: q in b.sequences ==> Printable(q))
      && Conforming(b) && Meaning(b) == Some(src) && z == Print(b);
    Lz4Syntax.PrintObeys(b);
    if src == [] {
      assert |b.sequences| > 0 ==> ConformingAt(b.sequences, 0, 0);
      assert b.lastLiterals == src[0..0];
      EmptyRunPrints(src, 0);
    }
  }

  /** A block stands for one input only. */
  lemma EncodesUnique(z: seq<byte>, a: seq<byte>, b: seq<byte>)
    requires Encodes(z, a) && Encodes(z, b)
    ensures a == b
  {
    EncodedDecodes(z, a);
    EncodedDecodes(z, b);
  }

  function Clamped(acceleration: int): (a: nat)
    ensures 1 <= a <= ACCELERATION_MAX && (1 <= acceleration <= ACCELERATION_MAX ==> a == acceleration)
  {
    if acceleration < 1 then 1 else if acceleration > ACCELERATION_MAX then ACCELERATION_MAX else acceleration
  }

  /**
   * LZ4_compress_fast_extState: a fresh table, the acceleration clamped, and a limit on
   * the output exactly when the buffer is smaller than the worst case.
   */
  method CompressFast(src: seq<byte>, dst: array<byte>, acceleration: int) returns (r: nat)
    requires |src| < LIMIT_64K
    modifies dst
    ensures dst.Length >= CompressBound(|src|) ==> r > 0
    ensures r > 0 ==> r <= dst.Length && r <= CompressBound(|src|) && Encodes(dst[..r], src)
    ensures r > 0 ==> GreedyBlock(dst[..r], src, Hash4, Clamped(acceleration))
    ensures r == 0 ==> Overflows(src, Hash4, Clamped(acceleration), dst.Length)
  {
    hide Encodes, Hash4, GreedyBlock, Overflows;
    var table := new u16[HASH_TABLE_SIZE](_ => 0);
    r := CompressGeneric(src, dst, table, Hash4, Clamped(acceleration), dst.Length < CompressBound(|src|));
  }

  method CompressDefault(src: seq<byte>, dst: array<byte>) returns (r: nat)
    requires |src| < LIMIT_64K
    modifies dst
    ensures dst.Length >= CompressBound(|src|) ==> r > 0
    ensures r > 0 ==> r <= dst.Length && r <= CompressBound(|src|) && Encodes(dst[..r], src)
    ensures r > 0 ==> GreedyBlock(dst[..r], src, Hash4, 1)
    ensures r == 0 ==> Overflows(src, Hash4, 1, dst.Length)
  {
    hide Encodes, GreedyBlock, Overflows;
    r := CompressFast(src, dst, 1);
  }

  /**
   * The round trip: for every input, hash, acceleration, capacity and limit, and whatever
   * the buffers held before, a block that the encoder produced is decoded to the input in
   * a buffer of exactly its size.
   */
  method RoundTrip(src: seq<byte>, z: array<byte>, table: array<u16>, hash: nat -> nat,
                   acceleration: nat, limited: bool, back: array<byte>) returns (n: nat, r: int)
    requires |src| < LIMIT_64K && acceleration >= 1
    requires HashFits(hash, table.Length) && TableBelow(table[..], 1)
    requires !limited ==> z.Length >= CompressBound(|src|)
    requires back.Length == |src|
    modifies z, table, back
    ensures z.Length >= CompressBound(|src|) ==> n > 0
    ensures n > 0 ==> r == |src| && back[..] == src
  {
    hide HashFits, TableBelow, Encodes, GreedyBlock, Overflows;
    n := CompressGeneric(src, z, table, hash, acceleration, limited);
    r := -1;
    if n > 0 {
      ghost var block := z[..n];
      EncodedDecodes(block, src);
      r := Lz4Decoder.Decompress(z[..n], back);
    }
  }
}

/** The 4 KB block codec of the flash translation layer. */
module Lz4Compressor {
  import opened Bytes
  import opened Lz4Encoder
  import Lz4Format
  import Lz4Codec
  import Lz4Decoder

  const FLASH_PAGE_SIZE := 4096

  datatype SlotAllocation = SparseZero | Slot1KB | Slot2KB | Slot3KB | Full4KB

  datatype CompressedBlock = CompressedBlock(isZeroBlock: bool, isCompressed: bool, compressedSize: nat,
                                             slot: SlotAllocation, data: seq<byte>)

  function QuantizeSlot(bytes: nat, isZero: bool): (slot: SlotAllocation)
    ensures slot == SparseZero <==> isZero || bytes == 0
    ensures slot == Slot1KB <==> !isZero && 1 <= bytes <= 1024
    ensures slot == Slot2KB <==> !isZero && 1025 <= bytes <= 2048
    ensures slot == Slot3KB <==> !isZero && 2049 <= bytes <= 3072
  {
    if isZero || bytes == 0 then SparseZero
    else if bytes <= 1024 then Slot1KB
    else if bytes <= 2048 then Slot2KB
    else if bytes <= 3072 then Slot3KB
    else Full4KB
  }

  function ZeroBlock(): (b: seq<byte>)
    ensures |b| == FLASH_PAGE_SIZE
  {
    Fill(0, FLASH_PAGE_SIZE)
  }

  /** The compressed form stands for the block `b`. */
  ghost predicate Represents(c: CompressedBlock, b: seq<byte>) {
    && |b| == FLASH_PAGE_SIZE
    && if c.isZeroBlock then b == ZeroBlock()
       else if !c.isCompressed then |c.data| >= FLASH_PAGE_SIZE && b == c.data[..FLASH_PAGE_SIZE]
       else c.compressedSize <= |c.data| && Encodes(c.data[..c.compressedSize], b)
  }

  /** What the search finds in the block overflows a page, or does not stay below 3072 bytes. */
  ghost predicate TooLarge(src: seq<byte>) {
    || Overflows(src, Lz4Codec.Hash4, 1, FLASH_PAGE_SIZE)
    || exists z :: |z| >= 3072 && GreedyBlock(z, src, Lz4Codec.Hash4, 1)
  }

  /** What the compressor makes of a block. */
  ghost predicate FormOf(c: CompressedBlock, src: seq<byte>) {
    && |c.data| == FLASH_PAGE_SIZE && Represents(c, src)
    && (c.isZeroBlock <==> src == ZeroBlock())
    && (c.isZeroBlock ==> c.isCompressed && c.compressedSize == 0)
    && (c.isCompressed && !c.isZeroBlock ==> 0 < c.compressedSize < 3072)
    && (!c.isCompressed ==> c.compressedSize == FLASH_PAGE_SIZE && c.data == src)
    && c.slot == QuantizeSlot(c.compressedSize, c.isZeroBlock)
    && (!c.isZeroBlock ==>
          if c.isCompressed then GreedyBlock(c.data[..c.compressedSize], src, Lz4Codec.Hash4, 1)
          else TooLarge(src))
  }

  /** What is kept compressed leaves a quarter of a page free at least; all else takes a page. */
  lemma KeptBelow(c: CompressedBlock, src: seq<byte>)
    requires FormOf(c, src)
    ensures c.slot == Full4KB <==> !c.isCompressed
    ensures c.slot == Full4KB <==> c.compressedSize >= 3072
  {
    hide GreedyBlock, TooLarge, Represents;
  }

  lemma RepresentsUnique(c: CompressedBlock, a: seq<byte>, b: seq<byte>)
    requires Represents(c, a) && Represents(c, b)
    ensures a == b
  {
    hide Encodes;
    if !c.isZeroBlock && c.isCompressed {
      Lz4Codec.EncodesUnique(c.data[..c.compressedSize], a, b);
    }
  }

  /** The scan for a zero block, eight bytes at a time. */
  method IsZeroBlock(src: seq<byte>) returns (allZeros: bool)
    requires |src| == FLASH_PAGE_SIZE
    ensures allZeros <==> src == ZeroBlock()
  {
    hide ReadWord;
    allZeros := true;
    for i := 0 to 512
      invariant allZeros && forall k :: 0 <= k < 8 * i ==> src[k] == 0
    {
      ZeroWord(src, 8 * i, 8);
      if ReadWord(src, 8 * i, 8) != 0 {
        allZeros := false;
        break;
      }
    }
  }

  /** Zero blocks are only marked; blocks that LZ4 does not bring below 3072 bytes are kept raw. */
  method Compress(src: seq<byte>) returns (c: CompressedBlock)
    requires |src| == FLASH_PAGE_SIZE
    ensures FormOf(c, src)
  {
    hide Encodes, GreedyBlock, Overflows;
    var zeros := IsZeroBlock(src);
    if zeros {
      return CompressedBlock(true, true, 0, SparseZero, ZeroBlock());
    }
    var data := new byte[FLASH_PAGE_SIZE](_ => 0);
    var size := Lz4Codec.CompressDefault(src, data);
    if size <= 0 || size >= 3072 {
      assert size >= 3072 ==> GreedyBlock(data[..size], src, Lz4Codec.Hash4, 1);
      c := CompressedBlock(false, false, FLASH_PAGE_SIZE, Full4KB, src);
    } else {
      c := CompressedBlock(false, true, size, QuantizeSlot(size, false), data[..]);
      assert data[..][..size] == data[..size];
    }
  }

  /** Gives back the block that the compressed form stands for, if there is one. */
  method Decompress(c: CompressedBlock, dest: array<byte>) returns (ok: bool)
    requires |c.data| == FLASH_PAGE_SIZE == dest.Length && c.compressedSize <= FLASH_PAGE_SIZE
    modifies dest
    ensures forall b :: Represents(c, b) ==> ok && dest[..] == b
    ensures ok && !c.isZeroBlock && c.isCompressed ==>
              Lz4Format.Decode(c.data[..c.compressedSize], 0, []) == Some(dest[..])
  {
    hide Encodes;
    if c.isZeroBlock {
      forall i | 0 <= i < dest.Length {
        dest[i] := 0;
      }
      return true;
    }
    if !c.isCompressed {
      forall i | 0 <= i < dest.Length {
        dest[i] := c.data[i];
      }
      return true;
    }
    var size := Lz4Decoder.Decompress(c.data[..c.compressedSize], dest);
    ok := size == FLASH_PAGE_SIZE;
    assert ok ==> dest[..size] == dest[..];
    forall b | Represents(c, b) ensures ok && dest[..] == b {
      Lz4Codec.EncodedDecodes(c.data[..c.compressedSize], b);
    }
  }

  /** Erased flash, all ones, is no block: the first token announces a length that never ends. */
  lemma ErasedIsNoBlock(n: nat)
    ensures Lz4Format.Decode(Fill(0xFF, n), 0, []).None?
  {
    if n > 0 {
      EndlessLength(Fill(0xFF, n), 1);
    }
  }

  lemma {:induction false} EndlessLength(src: seq<byte>, ip: nat)
    requires ip <= |src| && forall k :: 0 <= k < |src| ==> src[k] == 0xFF
    ensures Lz4Format.ReadLength(src, ip).None?
    decreases |src| - ip
  {
    if ip < |src| {
      EndlessLength(src, ip + 1);
    }
  }

  /** The 4 KB codec is lossless on every block. */
  method CompressThenDecompress(src: seq<byte>, dest: array<byte>) returns (ok: bool)
    requires |src| == FLASH_PAGE_SIZE == dest.Length
    modifies dest
    ensures ok && dest[..] == src
  {
    var c := Compress(src);
    ok := Decompress(c, dest);
  }
}
