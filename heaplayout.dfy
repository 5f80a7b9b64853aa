/** The layout of a heap database file: fixed-size blocks, block 0 for the
    metadata, block 1 for the block bitmap, and from block 2 on, data
    blocks that start with a record bitmap followed by the record slots. */
module HeapLayout {

  /** BlockedFile.blockSize */
  const BLOCK_SIZE: int := 4096

  /** HeapDB.metadataBlock */
  const METADATA_BLOCK: int := 0

  /** HeapDB.bitmapBlock */
  const BITMAP_BLOCK: int := 1

  /** The first block that holds records, bitmapBlock + 1. */
  const FIRST_DATA_BLOCK: int := 2

  /** Byte.SIZE */
  const BYTE_BITS: int := 8

  /** recsPerBlock: every record takes its bytes plus one bit of the record
      bitmap, so the block, less one byte, is divided by recSize + 1/8.
      The source computes floor(((s - 1) * 8) / (8 * b + 1)) in doubles;
      for these small non-negative operands that is integer division. */
  function RecsPerBlock(blockSize: int, recSize: int): (n: int)
    requires blockSize >= 1 && recSize >= 0
    ensures n >= 0
  {
    ((blockSize - 1) * BYTE_BITS) / (BYTE_BITS * recSize + 1)
  }

  /** recMapSize: floor(recsPerBlock / 8) bytes of record bitmap. */
  function RecMapSize(recsPerBlock: int): (n: int)
    requires recsPerBlock >= 0
    ensures n >= 0 && BYTE_BITS * n <= recsPerBlock
  {
    recsPerBlock / BYTE_BITS
  }

  /** recordLocation(r): the byte offset of slot `r` within its block. */
  function RecordLocation(recMapSize: int, recSize: int, r: int): int {
    recMapSize + recSize * r
  }

  /** The slots a data block offers: one per bit of the record bitmap. */
  function SlotCount(blockSize: int, recSize: int): (n: int)
    requires blockSize >= 1 && recSize >= 0
    ensures n >= 0
  {
    BYTE_BITS * RecMapSize(RecsPerBlock(blockSize, recSize))
  }

  /** n records of `recSize` bytes and their n bits of bitmap fit in the block
      less one byte. */
  lemma RecsFit(blockSize: int, recSize: int)
    requires blockSize >= 1 && recSize >= 0
    ensures RecsPerBlock(blockSize, recSize) * (BYTE_BITS * recSize + 1) <= (blockSize - 1) * BYTE_BITS
  {
  }

  /** Every slot the record bitmap can mark lies after the bitmap and
      inside the block. */
  lemma SlotInsideBlock(blockSize: int, recSize: int, r: int)
    requires blockSize >= 1 && recSize >= 0
    requires 0 <= r < SlotCount(blockSize, recSize)
    ensures var m := RecMapSize(RecsPerBlock(blockSize, recSize));
            m <= RecordLocation(m, recSize, r) && RecordLocation(m, recSize, r) + recSize <= blockSize
  {
    var p := RecsPerBlock(blockSize, recSize);
    var m := RecMapSize(p);
    RecsFit(blockSize, recSize);
    assert r + 1 <= p;
    assert recSize * (r + 1) <= recSize * p by {
      MulMono(recSize, r + 1, p);
    }
    assert BYTE_BITS * m + BYTE_BITS * recSize * p <= (blockSize - 1) * BYTE_BITS;
  }

  lemma MulMono(a: int, x: int, y: int)
    requires a >= 0 && x <= y
    ensures a * x <= a * y
  {
  }

  /** The record bitmap has at least one byte, so the blocks offer slots,
      exactly when a record takes at most 511 bytes of a 4096-byte block. */
  lemma SlotsIffSmallRecords(recSize: int)
    requires recSize >= 0
    ensures SlotCount(BLOCK_SIZE, recSize) >= 1 <==> recSize <= 511
  {
    var p := RecsPerBlock(BLOCK_SIZE, recSize);
    if recSize <= 511 {
      assert 8 * (8 * recSize + 1) <= 4095 * 8;
      DivAtLeast(4095 * 8, 8 * recSize + 1, 8);
    } else {
      assert 4095 * 8 < 8 * (8 * recSize + 1);
      DivBelow(4095 * 8, 8 * recSize + 1, 8);
    }
  }

  lemma DivAtLeast(a: int, d: int, q: int)
    requires d >= 1 && q >= 0 && q * d <= a
    ensures a / d >= q
  {
    var z := a / d;
    assert a == d * z + a % d && a % d < d;
    if z < q {
      MulMono(d, z, q - 1);
    }
  }

  lemma DivBelow(a: int, d: int, q: int)
    requires d >= 1 && a >= 0 && a < q * d
    ensures a / d < q
  {
    var z := a / d;
    assert a == d * z + a % d && a % d >= 0;
    if z >= q {
      MulMono(d, q, z);
    }
  }

  /** The schema of three int fields used by the engine's tests: 12-byte
      records, 337 per block by the formula, of which 336 have a bit in the
      42-byte record bitmap. */
  lemma ThreeIntLayout()
    ensures RecsPerBlock(BLOCK_SIZE, 12) == 337
    ensures RecMapSize(337) == 42 && SlotCount(BLOCK_SIZE, 12) == 336
  {
  }

  /** A 512-byte record: the formula allows 7 per block, but the record
      bitmap rounds down to no byte at all, so no slot is ever usable. */
  lemma LargeRecordLayout()
    ensures RecsPerBlock(BLOCK_SIZE, 512) == 7 && RecMapSize(7) == 0
    ensures SlotCount(BLOCK_SIZE, 512) == 0
  {
  }
}
