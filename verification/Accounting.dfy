/** What a file of n bytes costs in blocks and inodes, and where its i-th block is found. */
module Accounting {
  import opened Layout
  import opened Bytes
  import opened FileTree
  import opened FileFormat

  // ---------------------------------------------------------------- costs, as the recursion spends them

  function BlockCost(n: nat): nat
    decreases n, KidCount(n) + 1
  {
    if n <= CHUNK then Pieces(n) else NDIRECT + 1 + KidBlockCost(n, KidCount(n))
  }

  function KidBlockCost(n: nat, k: nat): nat
    requires k <= KidCount(n)
    decreases n, k
  {
    if k == 0 then 0 else KidBlockCost(n, k - 1) + BlockCost(ChunkLen(n, k - 1))
  }

  function InodeCost(n: nat): nat
    decreases n, KidCount(n) + 1
  {
    KidInodeCost(n, KidCount(n))
  }

  function KidInodeCost(n: nat, k: nat): nat
    requires k <= KidCount(n)
    decreases n, k
  {
    if k == 0 then 0 else KidInodeCost(n, k - 1) + 1 + InodeCost(ChunkLen(n, k - 1))
  }

  lemma {:induction false} KidCostsGrow(n: nat, j: nat, k: nat)
    requires j <= k <= KidCount(n)
    ensures KidBlockCost(n, j) <= KidBlockCost(n, k)
    ensures KidInodeCost(n, j) <= KidInodeCost(n, k)
  {
    if j < k {
      KidCostsGrow(n, j, k - 1);
    }
  }

  // ---------------------------------------------------------------- costs in closed form

  /** Table blocks of a file of n bytes: one per TABLE_LEN chunks after the first chunk. */
  function Levels(n: nat): nat {
    if n <= CHUNK then 0 else (n - 51_200 + 6_553_599) / 6_553_600
  }

  /** A file takes one block per BLOCK_SIZE bytes and one table block per level. */
  lemma {:induction false} BlockCostClosed(n: nat)
    ensures BlockCost(n) == Pieces(n) + Levels(n)
    decreases n
  {
    if n > CHUNK {
      KidBlockCostClosed(n, Min(KidCount(n), LAST));
      LevelsStep(n);
      if KidCount(n) == TABLE_LEN {
        BlockCostClosed(ChunkLen(n, LAST));
        LastPieces(n);
      }
    }
  }

  /** The blocks of the front and of the rest are all blocks. */
  lemma LastPieces(n: nat)
    requires KidCount(n) == TABLE_LEN
    ensures Pieces(Min(n, ChunkAt(TABLE_LEN))) + Pieces(ChunkLen(n, LAST)) == Pieces(n)
  {
  }

  lemma {:induction false} KidBlockCostClosed(n: nat, k: nat)
    requires n > CHUNK && k <= KidCount(n) && k <= LAST
    ensures KidBlockCost(n, k) == Pieces(Min(n, ChunkAt(k + 1))) - NDIRECT
  {
    if k > 0 {
      KidBlockCostClosed(n, k - 1);
      PiecesAfter(k, ChunkLen(n, k - 1));
    }
  }

  lemma PiecesAfter(k: nat, n: nat)
    ensures Pieces(ChunkAt(k) + n) == 100 * k + Pieces(n)
  {
  }

  /** A file takes one sub-inode per chunk after the first, and an empty one on the level whose
      sub-inodes 0..LAST-1 are all that is needed. */
  lemma {:induction false} InodeCostClosed(n: nat)
    ensures InodeCost(n) == if n == 0 then 0
                            else Chunks(n) - 1 + if Chunks(n) % 128 == 0 then 1 else 0
    decreases n
  {
    if n > CHUNK {
      var m := KidCount(n);
      KidInodeCostClosed(n, Min(m, LAST));
      if m == TABLE_LEN {
        InodeCostClosed(ChunkLen(n, LAST));
        if n > ChunkAt(TABLE_LEN) {
          assert Chunks(n) == Chunks(n - ChunkAt(TABLE_LEN)) + 128;
        }
      }
    }
  }

  lemma {:induction false} KidInodeCostClosed(n: nat, k: nat)
    requires k <= KidCount(n) && k <= LAST
    ensures KidInodeCost(n, k) == k
  {
    if k > 0 {
      KidInodeCostClosed(n, k - 1);
      var c := ChunkLen(n, k - 1);
      assert KidCount(c) == 0;
      assert KidInodeCost(c, 0) == 0;
    }
  }

  // ---------------------------------------------------------------- blocks of a written file

  /** Both block counters find ceil(n / BLOCK_SIZE) data blocks in a file of n bytes. */
  lemma {:induction false} HeldBlockNum(t: File, buf: seq<Byte>)
    requires Holds(t, buf)
    ensures BlockNum(t) == |BlockIds(t)| == Pieces(|buf|)
    decreases t
  {
    hide Piece, Chunk, Formed, BlockNum, KidBlockNums;
    HoldsIsFormed(t, buf);
    BlockCountsAgree(t);
    if |buf| > CHUNK {
      var m := |t.kids|;
      HeldKidIds(t, buf, Min(m, LAST));
      if m == TABLE_LEN {
        HeldBlockNum(t.kids[LAST], Chunk(buf, LAST));
      }
    }
  }

  lemma {:induction false} HeldKidIds(t: File, buf: seq<Byte>, k: nat)
    requires Holds(t, buf) && |buf| > CHUNK && k <= |t.kids| && k <= LAST
    ensures |KidBlockIds(t, k)| == Pieces(Min(|buf|, ChunkAt(k + 1))) - NDIRECT
    decreases t, k
  {
    hide Piece, BlockIds, BlockNum;
    if k > 0 {
      HeldKidIds(t, buf, k - 1);
      HeldBlockNum(t.kids[k - 1], Chunk(buf, k - 1));
      PiecesAfter(k, |Chunk(buf, k - 1)|);
    }
  }

  lemma LevelsStep(n: nat)
    requires n > CHUNK
    ensures Levels(n) == 1 + if KidCount(n) == TABLE_LEN then Levels(ChunkLen(n, LAST)) else 0
  {
  }

  lemma {:induction false} HeldKidTables(t: File, buf: seq<Byte>, k: nat)
    requires Holds(t, buf) && k <= |t.kids| && k <= LAST
    ensures KidTables(t, k) == {}
    decreases t, k
  {
    if k > 0 {
      HeldKidTables(t, buf, k - 1);
      assert KidTables(t.kids[k - 1], 0) == {};
    }
  }

  lemma {:induction false} Subset(a: set<nat>, b: set<nat>)
    requires a <= b
    ensures |a| <= |b|
  {
    if x :| x in a {
      Subset(a - {x}, b - {x});
    }
  }

  // ---------------------------------------------------------------- block i of a file

  /** Sub-inodes are filled one after the other, all but the last slot with at most NDIRECT blocks. */
  ghost predicate Packed(t: File) {
    && (forall k :: 0 <= k < |t.kids| ==> Packed(t.kids[k]))
    && |t.ids| <= NDIRECT
    && (t.kids != [] ==> |t.ids| == NDIRECT)
    && |t.kids| <= TABLE_LEN
    && (forall k :: 0 <= k < |t.kids| && k < LAST ==> |BlockIds(t.kids[k])| <= NDIRECT)
    && (forall k :: 0 <= k < |t.kids| && |KidBlockIds(t, k)| < |KidBlockIds(t, |t.kids|)| ==>
          |KidBlockIds(t, k)| == 100 * k)
  }

  /** write_file builds packed trees. */
  lemma {:induction false} HoldsIsPacked(t: File, buf: seq<Byte>)
    requires Holds(t, buf)
    ensures Packed(t)
    decreases t
  {
    forall k | 0 <= k < |t.kids|
      ensures Packed(t.kids[k])
      ensures k < LAST ==> |BlockIds(t.kids[k])| <= NDIRECT
    {
      HoldsIsPacked(t.kids[k], Chunk(buf, k));
      HeldBlockNum(t.kids[k], Chunk(buf, k));
    }
    HeldBlockNum(t, buf);
    forall k | 0 <= k < |t.kids| && |KidBlockIds(t, k)| < |KidBlockIds(t, |t.kids|)|
      ensures |KidBlockIds(t, k)| == 100 * k
    {
      HeldKidIds(t, buf, k);
    }
  }

  lemma {:induction false} KidIdsPrefix(t: File, j: nat, k: nat)
    requires j <= k <= |t.kids|
    ensures KidBlockIds(t, j) <= KidBlockIds(t, k)
  {
    if j < k {
      KidIdsPrefix(t, j, k - 1);
    }
  }

  lemma {:induction false} KidIdsBound(t: File, k: nat)
    requires Packed(t) && k <= |t.kids| && k <= LAST
    ensures |KidBlockIds(t, k)| <= 100 * k
  {
    if k > 0 {
      KidIdsBound(t, k - 1);
    }
  }

  /** Table slot that ino_next_block follows for block i. */
  function SlotOf(i: nat): nat
    requires NDIRECT <= i
  {
    Min((i - 100) / 100, LAST)
  }

  lemma SlotBounds(i: nat)
    requires NDIRECT <= i
    ensures var k := SlotOf(i);
            k <= LAST && 100 * k <= i - 100 && (k < LAST ==> i - 100 < 100 * k + 100)
  {
  }

  /** The sub-inode in that slot is there, and the ones before it are full. */
  lemma SlotThere(t: File, j: nat, k: nat)
    requires Packed(t) && j < |KidBlockIds(t, |t.kids|)| && k <= LAST && 100 * k <= j
    ensures k < |t.kids| && |KidBlockIds(t, k)| == 100 * k
  {
    hide BlockIds, KidBlockIds;
    KidIdsBound(t, Min(k, |t.kids|));
  }

  lemma SlotFound(t: File, j: nat, k: nat)
    requires Packed(t) && j < |KidBlockIds(t, |t.kids|)|
    requires k <= LAST && 100 * k <= j && (k < LAST ==> j < 100 * k + 100)
    ensures k < |t.kids| && |KidBlockIds(t, k)| == 100 * k
    ensures j < 100 * k + |BlockIds(t.kids[k])|
  {
    hide BlockIds;
    var all := |t.kids|;
    SlotThere(t, j, k);
    KidIdsPrefix(t, k + 1, all);
    assert |KidBlockIds(t, k + 1)| == 100 * k + |BlockIds(t.kids[k])|;
    hide KidBlockIds;
    if k + 1 < all && |KidBlockIds(t, k + 1)| < |KidBlockIds(t, all)| {
      assert |KidBlockIds(t, k + 1)| == 100 * (k + 1);
    }
  }

  lemma BlockInKid(t: File, j: nat, k: nat)
    requires k < |t.kids| && |KidBlockIds(t, k)| <= j < |KidBlockIds(t, k)| + |BlockIds(t.kids[k])|
    ensures j < |KidBlockIds(t, |t.kids|)|
    ensures KidBlockIds(t, |t.kids|)[j] == BlockIds(t.kids[k])[j - |KidBlockIds(t, k)|]
  {
    hide BlockIds;
    KidIdsPrefix(t, k + 1, |t.kids|);
    assert KidBlockIds(t, k + 1) == KidBlockIds(t, k) + BlockIds(t.kids[k]);
  }

  /** The blocks from NDIRECT on belong to sub-inodes. */
  lemma BlocksBehind(t: File, i: nat)
    requires Packed(t) && NDIRECT <= i < |BlockIds(t)|
    ensures i - 100 < |KidBlockIds(t, |t.kids|)| && BlockIds(t)[i] == KidBlockIds(t, |t.kids|)[i - 100]
  {
    assert KidBlockIds(t, 0) == [];
    assert BlockIds(t) == t.ids + KidBlockIds(t, |t.kids|);
  }

  /** The slot arithmetic of ino_next_block lands on the block that the listing has at place i. */
  lemma BlockAtIndex(t: File, i: nat)
    requires Packed(t) && NDIRECT <= i < |BlockIds(t)|
    ensures var k := SlotOf(i);
            && k < |t.kids|
            && 0 <= i - 100 * (k + 1) < |BlockIds(t.kids[k])|
            && BlockIds(t)[i] == BlockIds(t.kids[k])[i - 100 * (k + 1)]
  {
    hide BlockIds, KidBlockIds, SlotOf, Packed;
    BlocksBehind(t, i);
    SlotBounds(i);
    SlotFound(t, i - 100, SlotOf(i));
    BlockInKid(t, i - 100, SlotOf(i));
  }
}
