/** How write_file lays a buffer out over a tree of inodes, and what reading it back yields. */
module FileFormat {
  import opened Layout
  import opened Bytes
  import opened FileTree

  /** The i-th block of a buffer, padded with zeros. */
  function Piece(buf: seq<Byte>, i: nat): Block
    requires i < Pieces(|buf|)
  {
    if BlockAt(i + 1) > |buf|
    then buf[BlockAt(i)..] + Zeros(BlockAt(i + 1) - |buf|)
    else buf[BlockAt(i)..BlockAt(i + 1)]
  }

  /** Chunks of a file of n bytes. */
  function Chunks(n: nat): nat {
    (n + 51_199) / 51_200
  }

  const LAST: nat := 127

  /** Sub-inodes used for n bytes: one per CHUNK after the first; once LAST of them are in use
      there is one more that takes all the rest, even when nothing is left. */
  function KidCount(n: nat): nat {
    if n <= CHUNK then 0
    else if n > ChunkAt(LAST) then TABLE_LEN
    else (n - 1) / 51_200
  }

  /** When the do-while loop over the sub-inodes stops, and that it runs at least once. */
  lemma KidCountStep(n: nat, i: nat)
    requires n > CHUNK
    ensures KidCount(n) >= 1
    ensures i < LAST ==> (n > ChunkAt(i + 1) <==> i < KidCount(n))
    ensures n > ChunkAt(LAST) <==> KidCount(n) > LAST
  {
  }

  /** Bytes that go to sub-inode k. */
  function ChunkLen(n: nat, k: nat): nat
    requires k < KidCount(n)
  {
    if k < LAST then Min(n - ChunkAt(k + 1), CHUNK)
    else if n > ChunkAt(TABLE_LEN) then n - ChunkAt(TABLE_LEN)
    else 0
  }

  /** The size argument write_file passes on to sub-inode k; it may be negative for the last one. */
  function Share(n: nat, k: nat): int {
    if k < LAST then Min(n - ChunkAt(k + 1), CHUNK) else n - ChunkAt(k + 1)
  }

  /** A negative size writes nothing, which is what the chunk then holds. */
  lemma ShareIsLen(n: nat, k: nat)
    requires k < KidCount(n)
    ensures ChunkLen(n, k) == if Share(n, k) < 0 then 0 else Share(n, k)
  {
  }

  function Chunk(buf: seq<Byte>, k: nat): (c: seq<Byte>)
    requires k < KidCount(|buf|)
    ensures |c| == ChunkLen(|buf|, k) < |buf|
  {
    var from := Min(ChunkAt(k + 1), |buf|);
    buf[from..from + ChunkLen(|buf|, k)]
  }

  /** The tree is the one write_file builds for buf: direct blocks first, then the table. */
  ghost predicate Holds(t: File, buf: seq<Byte>)
    decreases t
  {
    && t.size == Min(Pieces(|buf|), NDIRECT + 1)
    && |t.ids| == |t.blocks| == Min(t.size, NDIRECT)
    && (forall i :: 0 <= i < |t.blocks| ==> t.blocks[i] == Piece(buf, i))
    && |t.kids| == KidCount(|buf|)
    && (forall k :: 0 <= k < |t.kids| ==> Holds(t.kids[k], Chunk(buf, k)))
  }

  lemma {:induction false} HoldsIsFormed(t: File, buf: seq<Byte>)
    requires Holds(t, buf)
    ensures Formed(t)
    decreases t
  {
    forall k | 0 <= k < |t.kids| ensures Formed(t.kids[k]) {
      HoldsIsFormed(t.kids[k], Chunk(buf, k));
    }
  }

  // ---------------------------------------------------------------- reading back

  /** What read_file returns after write_file of buf, as a function of buf alone. */
  function ReadBack(buf: seq<Byte>): seq<Byte>
    decreases |buf|, KidCount(|buf|) + 1
  {
    if |buf| <= CHUNK then Strip(buf)
    else Strip(buf[..CHUNK] + KidsBack(buf, KidCount(|buf|)))
  }

  function KidsBack(buf: seq<Byte>, n: nat): seq<Byte>
    requires n <= KidCount(|buf|)
    decreases |buf|, n
  {
    if n == 0 then [] else KidsBack(buf, n - 1) + ReadBack(Chunk(buf, n - 1))
  }

  lemma PiecesBounds(n: nat)
    ensures n > 0 ==> BlockAt(Pieces(n) - 1) < n <= BlockAt(Pieces(n))
    ensures n <= CHUNK <==> Pieces(n) <= NDIRECT
    ensures n == 0 <==> Pieces(n) == 0
  {
  }

  /** The first n pieces are the front of the buffer, padded to whole blocks. */
  lemma {:induction false} FlatPieces(blocks: seq<Block>, buf: seq<Byte>, n: nat)
    requires n <= |blocks| <= Pieces(|buf|)
    requires forall i :: 0 <= i < |blocks| ==> blocks[i] == Piece(buf, i)
    ensures Flat(blocks, n) == if BlockAt(n) <= |buf| then buf[..BlockAt(n)]
                               else buf + Zeros(BlockAt(n) - |buf|)
  {
    if n > 0 {
      FlatPieces(blocks, buf, n - 1);
      assert Flat(blocks, n) == buf[..BlockAt(n - 1)] + Piece(buf, n - 1);
      PieceJoins(buf, n - 1);
    }
  }

  lemma PieceJoins(buf: seq<Byte>, i: nat)
    requires i < Pieces(|buf|)
    ensures BlockAt(i) < |buf|
    ensures buf[..BlockAt(i)] + Piece(buf, i) == if BlockAt(i + 1) <= |buf| then buf[..BlockAt(i + 1)]
                                                 else buf + Zeros(BlockAt(i + 1) - |buf|)
  {
    if BlockAt(i + 1) > |buf| {
      assert buf == buf[..BlockAt(i)] + buf[BlockAt(i)..];
    }
  }

  /** Reading any tree that holds buf gives ReadBack(buf), whatever the depth of the tree. */
  lemma {:induction false} ReadHeld(t: File, buf: seq<Byte>)
    requires Holds(t, buf)
    ensures Read(t) == ReadBack(buf)
    decreases t, |t.kids| + 1
  {
    FlatHeld(t.blocks, buf);
    ReadHeldKids(t, buf, |t.kids|);
    if |buf| <= CHUNK {
      var flat := Flat(t.blocks, |t.blocks|);
      assert flat + [] == flat;
    }
  }

  lemma FlatHeld(blocks: seq<Block>, buf: seq<Byte>)
    requires |blocks| == Min(Pieces(|buf|), NDIRECT)
    requires forall i :: 0 <= i < |blocks| ==> blocks[i] == Piece(buf, i)
    ensures |buf| <= CHUNK ==> Strip(Flat(blocks, |blocks|)) == Strip(buf)
    ensures |buf| > CHUNK ==> Flat(blocks, |blocks|) == buf[..CHUNK]
  {
    FlatPieces(blocks, buf, |blocks|);
    PiecesBounds(|buf|);
    if |buf| <= CHUNK {
      var pad := BlockAt(|blocks|) - |buf|;
      assert Flat(blocks, |blocks|) == buf + Zeros(pad);
      StripZeros(buf, pad);
    }
  }

  lemma {:induction false} ReadHeldKids(t: File, buf: seq<Byte>, n: nat)
    requires Holds(t, buf) && n <= |t.kids|
    ensures ReadKids(t, n) == KidsBack(buf, n)
    decreases t, n
  {
    hide Piece, Chunk, Read, ReadBack;
    if n > 0 {
      ReadHeldKids(t, buf, n - 1);
      ReadHeld(t.kids[n - 1], Chunk(buf, n - 1));
    }
  }
}
