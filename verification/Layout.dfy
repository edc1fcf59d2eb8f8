/** Constants and address arithmetic of the on-disk layout:
    superblock area, free-block bitmap, inode table, data region. */
module Layout {
  const BLOCK_SIZE: nat := 512
  /** Inodes on a disk; inode numbers run from 1 to INODE_NUM. */
  const INODE_NUM: nat := 1024
  /** Inodes per block. */
  const IPB: nat := 1
  /** Bitmap bits per block. */
  const BPB: nat := 4096
  /** Direct pointers of an inode; slot NDIRECT points at the table block. */
  const NDIRECT: nat := 100
  /** Inode numbers held by one table block. */
  const TABLE_LEN: nat := 128
  /** Bytes held by the direct blocks of one inode. */
  const CHUNK: nat := 51_200

  /** Kinds of inode; 0 marks a free one. */
  const T_DIR: nat := 1
  const T_FILE: nat := 2
  const T_LNK: nat := 3

  const U32_LIMIT: nat := 0x1_0000_0000

  lemma ConstantsAgree()
    ensures BPB == BLOCK_SIZE * 8
    ensures 4 * TABLE_LEN == BLOCK_SIZE
    ensures CHUNK == NDIRECT * BLOCK_SIZE
  {
  }

  // Multiples and quotients of the constants, spelled with numerals to keep arithmetic linear.

  /** Byte offset of block i of a file: BLOCK_SIZE * i. */
  function BlockAt(i: int): int {
    512 * i
  }

  /** Byte offset of chunk k of a file: CHUNK * k. */
  function ChunkAt(k: int): int {
    51_200 * k
  }

  /** Blocks needed for n bytes, as the code computes it. */
  function Pieces(n: nat): nat {
    n / 512 + if n % 512 != 0 then 1 else 0
  }

  /** Block containing inode i of a disk of n blocks. */
  function IBlock(i: nat, n: nat): nat {
    n / BPB + i / IPB + 3
  }

  /** Block containing the bitmap bit of block b. */
  function BBlock(b: nat): nat {
    b / BPB + 2
  }

  /** First block of the data region. */
  function FirstData(n: nat): nat {
    IBlock(INODE_NUM, n) + 1
  }

  /** A disk of n blocks has room for its own bitmap and inode table,
      and its block numbers fit in 32 bits. */
  predicate Fits(n: nat) {
    FirstData(n) <= n < U32_LIMIT
  }

  /** The three regions never meet, whatever the disk size: bitmap blocks come before
      inode blocks, inode blocks before data blocks, and no two inodes share a block. */
  lemma RegionsDisjoint(n: nat, bit: nat, i: nat, j: nat, data: nat)
    requires Fits(n)
    requires bit < n
    requires 1 <= i <= INODE_NUM && 1 <= j <= INODE_NUM
    requires FirstData(n) <= data < n
    ensures 0 < BBlock(bit) < IBlock(i, n) < data
    ensures i != j ==> IBlock(i, n) != IBlock(j, n)
  {
    assert bit / BPB <= n / BPB;
  }

  /** The disk of the source, 2^30 bytes: 512 bitmap blocks from block 2 on, then 1024 inodes,
      then data up to the last block. */
  lemma SourceDisk(n: nat)
    requires n * BLOCK_SIZE == 1024 * 1024 * 16 * 64
    ensures Fits(n) && BBlock(0) == 2 && BBlock(n - 1) == 513
    ensures IBlock(1, n) == 516 && IBlock(INODE_NUM, n) == 1539 && FirstData(n) == 1540
  {
    assert n == 2_097_152;
  }

  function Min(a: int, b: int): int {
    if a < b then a else b
  }
}
