/** What a file reads as and the size it reports, in closed form from the buffer that was written,
    also where they are not what was written. */
module Contents {
  import opened Layout
  import opened Bytes
  import opened FileTree
  import opened FileFormat
  import opened RoundTrip
  import opened Stores
  import opened Accounting
  import opened Forests

  /** Chunk k of a buffer, whatever inode it goes to. */
  function Nth(buf: seq<Byte>, k: nat): (c: seq<Byte>)
    ensures |c| <= CHUNK
  {
    buf[Min(ChunkAt(k), |buf|)..Min(ChunkAt(k + 1), |buf|)]
  }

  lemma NthLast(buf: seq<Byte>, n: nat)
    requires CHUNK < |buf| <= ChunkAt(LAST) ==> n == KidCount(|buf|) + 1
    requires |buf| > ChunkAt(LAST) ==> n == TABLE_LEN
    requires |buf| <= CHUNK ==> n == 1
    ensures |buf| <= CHUNK ==> Nth(buf, 0) == buf && Chunks(|buf|) == if buf == [] then 0 else 1
    ensures CHUNK < |buf| <= ChunkAt(LAST) ==> Chunks(|buf|) == n && Front(buf, n - 1) == buf
    ensures ChunkAt(LAST) < |buf| <= ChunkAt(TABLE_LEN) ==> Chunks(|buf|) == n
  {
  }

  lemma NthBeyond(buf: seq<Byte>, k: nat)
    requires |buf| <= ChunkAt(k)
    ensures Nth(buf, k) == []
  {
  }

  lemma SliceOfSlice(x: seq<Byte>, at: nat, end: nat, a: nat, b: nat)
    requires a <= b && at + b <= end <= |x|
    ensures x[at..end][a..b] == x[at + a..at + b]
  {
    forall j | 0 <= j < b - a ensures x[at..end][a..b][j] == x[at + a..at + b][j] {
      assert x[at..end][a + j] == x[at + a + j];
    }
  }

  /** The chunks after the first TABLE_LEN ones are the chunks of the rest. */
  lemma NthOfRest(buf: seq<Byte>, k: nat)
    requires KidCount(|buf|) == TABLE_LEN
    ensures Nth(buf, TABLE_LEN + k) == Nth(Rest(buf), k)
    ensures Chunks(|buf|) == TABLE_LEN + Chunks(|Rest(buf)|)
  {
    hide ReadBack, KidsBack;
    var rest := Rest(buf);
    if |buf| > ChunkAt(TABLE_LEN) {
      assert rest == buf[ChunkAt(TABLE_LEN)..];
      SliceOfSlice(buf, ChunkAt(TABLE_LEN), |buf|, Min(ChunkAt(k), |rest|), Min(ChunkAt(k + 1), |rest|));
    } else {
      NthBeyond(buf, TABLE_LEN + k);
      assert |rest| == ChunkLen(|buf|, LAST);
      NthBeyond(rest, k);
    }
  }

  /** Among the first TABLE_LEN chunks, all but the first are the shares of the sub-inodes. */
  lemma NthIsShare(buf: seq<Byte>, n: nat)
    requires |buf| > CHUNK && 1 <= n <= KidCount(|buf|) && n <= LAST
    ensures Nth(buf, n) == Chunk(buf, n - 1) && n % 128 != 0
  {
  }

  // ---------------------------------------------------------------- what is read

  /** What reading keeps of chunk k: every TABLE_LEN-th chunk sits in the direct blocks in front of a
      table and is kept whole; the others lose the zeros they end in. */
  function Kept(buf: seq<Byte>, k: nat): seq<Byte> {
    if k % 128 == 0 then Nth(buf, k) else Strip(Nth(buf, k))
  }

  function Squeezed(buf: seq<Byte>, n: nat): seq<Byte> {
    if n == 0 then [] else Squeezed(buf, n - 1) + Kept(buf, n - 1)
  }

  lemma SqueezedFirst(buf: seq<Byte>)
    ensures Squeezed(buf, 1) == Nth(buf, 0)
    ensures |buf| > CHUNK ==> FrontBack(buf, 0) == Nth(buf, 0)
  {
    assert Squeezed(buf, 0) == [];
  }

  lemma {:induction false} FrontSqueezed(buf: seq<Byte>, n: nat)
    requires |buf| > CHUNK && n <= KidCount(|buf|) && n <= LAST
    ensures FrontBack(buf, n) == Squeezed(buf, n + 1)
  {
    hide Strip, Chunk, Nth, FrontBack, Front, ReadBack, KidCount;
    if n == 0 {
      SqueezedFirst(buf);
    } else {
      FrontSqueezed(buf, n - 1);
      FrontGrows(buf, n);
      NthIsShare(buf, n);
    }
  }

  lemma KeptOfRest(buf: seq<Byte>, k: nat)
    requires KidCount(|buf|) == TABLE_LEN
    ensures Kept(buf, TABLE_LEN + k) == Kept(Rest(buf), k)
  {
    hide Nth, Rest, Strip;
    NthOfRest(buf, k);
  }

  lemma {:induction false} SqueezedSplit(buf: seq<Byte>, m: nat)
    requires KidCount(|buf|) == TABLE_LEN
    ensures Squeezed(buf, TABLE_LEN + m) == Squeezed(buf, TABLE_LEN) + Squeezed(Rest(buf), m)
  {
    hide Kept, Rest;
    var rest := Rest(buf);
    if m == 0 {
      assert Squeezed(rest, 0) == [];
    } else {
      SqueezedSplit(buf, m - 1);
      KeptOfRest(buf, m - 1);
      var a, b, c := Squeezed(buf, TABLE_LEN), Squeezed(rest, m - 1), Kept(rest, m - 1);
      assert a + b + c == a + (b + c);
    }
  }

  lemma StripTwice(a: seq<Byte>, x: seq<Byte>)
    ensures Strip(a + Strip(x)) == Strip(a + x)
  {
    StripAppend(a, x);
    StripAppend(a, Strip(x));
    StripStrip(x);
  }

  /** What reads back is the concatenation of what is kept of the chunks, without trailing zeros. */
  lemma {:induction false} ReadBackClosed(buf: seq<Byte>)
    ensures ReadBack(buf) == Strip(Squeezed(buf, Chunks(|buf|)))
    decreases |buf|
  {
    if |buf| <= CHUNK {
      NthLast(buf, 1);
      SqueezedFirst(buf);
      assert Squeezed(buf, 0) == [];
    } else if KidCount(|buf|) <= LAST {
      NthLast(buf, KidCount(|buf|) + 1);
      FrontSqueezed(buf, KidCount(|buf|));
    } else {
      ReadBackClosed(Rest(buf));
      RestClosed(buf);
    }
  }

  lemma RestClosed(buf: seq<Byte>)
    requires KidCount(|buf|) == TABLE_LEN
    requires var rest := Rest(buf); ReadBack(rest) == Strip(Squeezed(rest, Chunks(|rest|)))
    ensures ReadBack(buf) == Strip(Squeezed(buf, Chunks(|buf|)))
  {
    hide ReadBack, Strip, Squeezed, Chunks, Rest, FrontBack, Nth;
    var rest := Rest(buf);
    RestBack(buf);
    FrontSqueezed(buf, LAST);
    StripTwice(FrontBack(buf, LAST), Squeezed(rest, Chunks(|rest|)));
    SqueezedSplit(buf, Chunks(|rest|));
    NthOfRest(buf, 0);
  }

  /** A file reads as the chunks of what was written, one after the other; each one that is the share of
      a sub-inode loses the zeros it ends in, and so does the whole. Nothing else changes. */
  lemma ReadClosed(t: File, buf: seq<Byte>)
    requires Holds(t, buf)
    ensures Read(t) == Strip(Squeezed(buf, Chunks(|buf|)))
  {
    ReadHeld(t, buf);
    ReadBackClosed(buf);
  }

  /** The bytes that are not zero, in order. */
  function NonZeros(x: seq<Byte>): seq<Byte> {
    if x == [] then [] else NonZeros(x[..|x| - 1]) + if x[|x| - 1] != 0 then [x[|x| - 1]] else []
  }

  lemma {:induction false} NonZerosAppend(x: seq<Byte>, y: seq<Byte>)
    ensures NonZeros(x + y) == NonZeros(x) + NonZeros(y)
  {
    if y == [] {
      assert x + y == x;
    } else {
      NonZerosAppend(x, y[..|y| - 1]);
      assert (x + y)[..|x + y| - 1] == x + y[..|y| - 1];
    }
  }

  lemma {:induction false} NonZerosStrip(x: seq<Byte>)
    ensures NonZeros(Strip(x)) == NonZeros(x)
  {
    if x == [] || x[|x| - 1] != 0 {
      StripWhole(x);
    } else {
      var y := x[..|x| - 1];
      NonZerosStrip(y);
      assert x == y + Zeros(1);
      StripZeros(y, 1);
    }
  }

  lemma {:induction false} NonZerosSqueezed(buf: seq<Byte>, n: nat)
    ensures NonZeros(Squeezed(buf, n)) == NonZeros(buf[..Min(ChunkAt(n), |buf|)])
  {
    hide NonZeros, Kept;
    if n == 0 {
      assert buf[..0] == Squeezed(buf, 0);
    } else {
      NonZerosSqueezed(buf, n - 1);
      NonZerosAppend(Squeezed(buf, n - 1), Kept(buf, n - 1));
      NonZerosKept(buf, n - 1);
      NonZerosAppend(buf[..Min(ChunkAt(n - 1), |buf|)], Nth(buf, n - 1));
      assert buf[..Min(ChunkAt(n), |buf|)] == buf[..Min(ChunkAt(n - 1), |buf|)] + Nth(buf, n - 1);
    }
  }

  lemma NonZerosKept(buf: seq<Byte>, k: nat)
    ensures NonZeros(Kept(buf, k)) == NonZeros(Nth(buf, k))
  {
    hide Nth, NonZeros, Strip;
    NonZerosStrip(Nth(buf, k));
  }

  /** Reading loses zeros and nothing else: the non-zero bytes of any file are those written, in order. */
  lemma OnlyZerosLost(t: File, buf: seq<Byte>)
    requires Holds(t, buf)
    ensures NonZeros(Read(t)) == NonZeros(buf)
  {
    var n := Chunks(|buf|);
    ReadClosed(t, buf);
    NonZerosStrip(Squeezed(buf, n));
    NonZerosSqueezed(buf, n);
    assert buf[..Min(ChunkAt(n), |buf|)] == buf;
  }

  // ---------------------------------------------------------------- where it is stored

  lemma PieceIs(buf: seq<Byte>, i: nat)
    requires i < Pieces(|buf|)
    ensures var end := Min(BlockAt(i + 1), |buf|);
            BlockAt(i) <= end && Piece(buf, i) == buf[BlockAt(i)..end] + Zeros(BlockAt(i + 1) - end)
  {
    PiecesBounds(|buf|);
    if BlockAt(i + 1) <= |buf| {
      assert Zeros(0) == [];
    }
  }

  lemma PieceOfChunk(buf: seq<Byte>, k: nat, j: nat)
    requires k < KidCount(|buf|) && j < Pieces(|Chunk(buf, k)|)
    ensures 100 * (k + 1) + j < Pieces(|buf|)
    ensures Piece(Chunk(buf, k), j) == Piece(buf, 100 * (k + 1) + j)
  {
    hide Chunk, Piece, Zeros, KidsBack, ReadBack;
    var c, at := Chunk(buf, k), ChunkAt(k + 1);
    PiecesBounds(|c|);
    ChunkIs(buf, k);
    assert 100 * (k + 1) + j < Pieces(|buf|);
    PieceIs(c, j);
    PieceIs(buf, 100 * (k + 1) + j);
    SliceOfSlice(buf, at, at + |c|, BlockAt(j), Min(BlockAt(j + 1), |c|));
  }

  lemma ChunkIs(buf: seq<Byte>, k: nat)
    requires k < KidCount(|buf|) && Chunk(buf, k) != []
    ensures ChunkAt(k + 1) + |Chunk(buf, k)| <= |buf|
    ensures Chunk(buf, k) == buf[ChunkAt(k + 1)..ChunkAt(k + 1) + |Chunk(buf, k)|]
    ensures |Chunk(buf, k)| == CHUNK || ChunkAt(k + 1) + |Chunk(buf, k)| == |buf|
  {
  }

  /** The data block listed in place k holds the k-th BLOCK_SIZE bytes of what was written, at any depth. */
  lemma {:induction false} BlocksInOrder(s: Store, f: Forest, i: nat, buf: seq<Byte>, k: nat)
    requires Inv(s, f) && i in f && Holds(f[i], buf) && k < Pieces(|buf|)
    ensures |BlockIds(f[i])| == Pieces(|buf|)
    ensures var b := BlockIds(f[i])[k]; b in s.data && s.data[b] == Piece(buf, k)
    decreases f[i]
  {
    hide Inv, BlockIds, Packed, SlotOf, Piece, Chunk;
    HeldBlockNum(f[i], buf);
    if k < NDIRECT {
      DirectInOrder(s, f, i, buf, k);
    } else {
      HoldsIsPacked(f[i], buf);
      BlockAtIndex(f[i], k);
      var slot, kid := SlotOf(k), f[i].kids[SlotOf(k)];
      KidOf(s, f, i, slot);
      HeldBlockNum(kid, Chunk(buf, slot));
      BlocksInOrder(s, f, kid.inum, Chunk(buf, slot), k - 100 * (slot + 1));
      PieceOfChunk(buf, slot, k - 100 * (slot + 1));
    }
  }

  lemma DirectInOrder(s: Store, f: Forest, i: nat, buf: seq<Byte>, k: nat)
    requires Inv(s, f) && i in f && Holds(f[i], buf) && k < Pieces(|buf|) && k < NDIRECT
    ensures k < |BlockIds(f[i])|
    ensures var b := BlockIds(f[i])[k]; b in s.data && s.data[b] == Piece(buf, k)
  {
    hide Inv, Piece;
    NodeAt(s, f, i);
    assert BlockIds(f[i])[k] == f[i].ids[k];
  }

  // ---------------------------------------------------------------- what is reported

  /** Zero bytes that end the last block of a share and are not counted; of a block of zeros one is. */
  function Uncounted(c: seq<Byte>): (n: nat)
    ensures n < BLOCK_SIZE
  {
    if c == [] then 0
    else
      PiecesBounds(|c|);
      var last := c[BlockAt(Pieces(|c|) - 1)..];
      if forall j :: 0 <= j < |last| ==> last[j] == 0 then |last| - 1 else |last| - |Strip(last)|
  }

  /** Whether the size of chunk k is read off its last block: a sub-inode's share is, and so is what
      the direct blocks of the innermost inode hold. */
  predicate Measured(n: nat, k: nat) {
    k % 128 != 0 || k + 1 == Chunks(n)
  }

  /** Bytes of the first n chunks that get_file_size misses. */
  function Missed(buf: seq<Byte>, n: nat): (r: nat)
    ensures r <= 511 * n
  {
    if n == 0 then 0
    else Missed(buf, n - 1) + if Measured(|buf|, n - 1) then Uncounted(Nth(buf, n - 1)) else 0
  }

  lemma SmallMissed(t: File, buf: seq<Byte>)
    requires Holds(t, buf) && |buf| <= CHUNK
    ensures FileSize(t) + Uncounted(buf) == |buf|
  {
    hide Strip, LastNonZero, Piece;
    PiecesBounds(|buf|);
    if buf != [] {
      var k := Pieces(|buf|) - 1;
      assert t.size == |t.blocks| == k + 1;
      assert t.blocks[k] == Piece(buf, k);
      assert FileSize(t) == BlockAt(k) + LastNonZero(t.blocks[k]) + 1;
      LastMissed(buf, k);
    }
  }

  lemma LastMissed(buf: seq<Byte>, k: nat)
    requires buf != [] && k == Pieces(|buf|) - 1
    ensures BlockAt(k) + LastNonZero(Piece(buf, k)) + 1 + Uncounted(buf) == |buf|
  {
    hide Strip, Piece, Zeros;
    PiecesBounds(|buf|);
    var last := buf[BlockAt(k)..];
    PieceIs(buf, k);
    assert buf[BlockAt(k)..|buf|] == last;
    StripZeros(last, BlockAt(k + 1) - |buf|);
    AllZero(last);
  }

  lemma {:induction false} FrontMissed(t: File, buf: seq<Byte>, n: nat)
    requires Holds(t, buf) && |buf| > CHUNK && n <= |t.kids| && n <= LAST
    ensures CHUNK + KidSizes(t, n) + Missed(buf, n + 1) == |Front(buf, n)|
  {
    if n == 0 {
      assert Missed(buf, 1) == Missed(buf, 0);
    } else {
      FrontMissed(t, buf, n - 1);
      NthIsShare(buf, n);
      SmallMissed(t.kids[n - 1], Chunk(buf, n - 1));
      FrontGrows(buf, n);
    }
  }

  lemma {:induction false} MissedSplit(buf: seq<Byte>, m: nat)
    requires KidCount(|buf|) == TABLE_LEN
    ensures Missed(buf, TABLE_LEN + m) == Missed(buf, TABLE_LEN) + Missed(Rest(buf), m)
  {
    hide Nth, Rest, Uncounted, Chunks;
    if m == 0 {
      assert Missed(Rest(buf), 0) == 0;
    } else {
      MissedSplit(buf, m - 1);
      NthOfRest(buf, m - 1);
      assert Measured(|buf|, TABLE_LEN + m - 1) == Measured(|Rest(buf)|, m - 1);
    }
  }

  /** The reported size is the length of what was written less what is missed: from each measured chunk
      the zeros that end its last block, at most BLOCK_SIZE - 1 bytes a chunk. */
  lemma {:induction false} SizeClosed(t: File, buf: seq<Byte>)
    requires Holds(t, buf)
    ensures FileSize(t) + Missed(buf, Chunks(|buf|)) == |buf|
    ensures |buf| - 511 * Chunks(|buf|) <= FileSize(t) <= |buf|
    decreases t
  {
    if |buf| <= CHUNK {
      NthLast(buf, 1);
      SmallMissed(t, buf);
      assert Missed(buf, 0) == 0;
    } else {
      LargeSize(t, buf);
      FrontMissed(t, buf, Min(KidCount(|buf|), LAST));
      if KidCount(|buf|) <= LAST {
        NthLast(buf, KidCount(|buf|) + 1);
      } else {
        SizeClosed(t.kids[LAST], Rest(buf));
        RestSized(t, buf);
      }
    }
  }

  lemma RestSized(t: File, buf: seq<Byte>)
    requires Holds(t, buf) && KidCount(|buf|) == TABLE_LEN
    requires CHUNK + KidSizes(t, LAST) + Missed(buf, TABLE_LEN) == |Front(buf, LAST)|
    requires FileSize(t.kids[LAST]) + Missed(Rest(buf), Chunks(|Rest(buf)|)) == |Rest(buf)|
    ensures FileSize(t) + Missed(buf, Chunks(|buf|)) == |buf|
  {
    hide Missed, Rest, Front, Nth, Chunks, Holds;
    RestJoins(buf);
    MissedSplit(buf, Chunks(|Rest(buf)|));
    NthOfRest(buf, 0);
    LargeSize(t, buf);
  }

  lemma LargeSize(t: File, buf: seq<Byte>)
    requires Holds(t, buf) && |buf| > CHUNK
    ensures |t.kids| == KidCount(|buf|) && FileSize(t) == CHUNK + KidSizes(t, |t.kids|)
  {
    PiecesBounds(|buf|);
  }
}
