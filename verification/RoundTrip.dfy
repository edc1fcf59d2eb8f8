/** When a file reads back as it was written, and when its reported size is exact. */
module RoundTrip {
  import opened Layout
  import opened Bytes
  import opened FileTree
  import opened FileFormat

  /** read_file strips the trailing zeros of every sub-inode, so a zero just before the end of a
      sub-inode's bytes is lost when data follows. The chunks stored in direct blocks (the first
      one of each table level) are exempt: their end is followed by their own sub-inodes. */
  predicate Boundary(k: int) {
    2 <= k && k % TABLE_LEN != 1
  }

  /** The byte before the end of chunk k - 1 is there and is not zero. */
  predicate SolidAt(buf: seq<Byte>, k: int) {
    1 <= k && ChunkAt(k) <= |buf| && buf[ChunkAt(k) - 1] != 0
  }

  /** Every boundary before position z is preceded by a non-zero byte. */
  ghost predicate SolidBefore(buf: seq<Byte>, z: nat)
    requires z <= |buf|
  {
    forall k :: Boundary(k) && ChunkAt(k) < z ==> SolidAt(buf, k)
  }

  /** What a caller can check before the write: no boundary inside the significant
      part of the buffer follows a zero byte. */
  ghost predicate Survives(buf: seq<Byte>) {
    SolidBefore(buf, |Strip(buf)|)
  }

  /** The chunks 0..n of the buffer. */
  function Front(buf: seq<Byte>, n: nat): seq<Byte> {
    buf[..Min(|buf|, ChunkAt(n + 1))]
  }

  /** What reading keeps of Front(buf, n). */
  function FrontBack(buf: seq<Byte>, n: nat): seq<Byte>
    requires n <= KidCount(|buf|) && |buf| > CHUNK
  {
    buf[..CHUNK] + KidsBack(buf, n)
  }

  ghost predicate AllSolid(buf: seq<Byte>, n: nat)
    requires ChunkAt(n + 1) <= |buf|
  {
    forall k :: 2 <= k <= n + 1 ==> SolidAt(buf, k)
  }

  lemma StripWhole(c: seq<Byte>)
    ensures Strip(c) == c <==> c == [] || c[|c| - 1] != 0
  {
  }

  /** Two concatenations of parts that are no longer than their counterparts agree
      only when the parts do. */
  lemma SplitEqual(a: seq<Byte>, r: seq<Byte>, p: seq<Byte>, s: seq<Byte>)
    requires |a| <= |p| && |r| <= |s|
    ensures a + r == p + s <==> a == p && r == s
  {
    if a + r == p + s {
      assert |a| == |p|;
      assert a == (a + r)[..|a|] == (p + s)[..|p|] == p;
      assert r == (a + r)[|a|..] == (p + s)[|p|..] == s;
    }
  }

  lemma FrontGrows(buf: seq<Byte>, n: nat)
    requires |buf| > CHUNK && 1 <= n <= KidCount(|buf|) && n <= LAST
    ensures var c := Chunk(buf, n - 1);
            && ReadBack(c) == Strip(c)
            && FrontBack(buf, n) == FrontBack(buf, n - 1) + Strip(c)
            && Front(buf, n) == Front(buf, n - 1) + c
            && |Front(buf, n - 1)| == ChunkAt(n)
            && |c| == |Front(buf, n)| - ChunkAt(n)
            && c != [] && c[|c| - 1] == buf[|Front(buf, n)| - 1]
  {
  }

  lemma AppendChunk(a: seq<Byte>, p: seq<Byte>, c: seq<Byte>)
    requires |a| <= |p| && c != []
    ensures |a + Strip(c)| <= |p + c|
    ensures a + Strip(c) == p + c <==> a == p && c[|c| - 1] != 0
  {
    SplitEqual(a, Strip(c), p, c);
    StripWhole(c);
  }

  lemma AllSolidGrows(buf: seq<Byte>, n: nat)
    requires 1 <= n && ChunkAt(n + 1) <= |buf|
    ensures AllSolid(buf, n) <==> AllSolid(buf, n - 1) && buf[ChunkAt(n + 1) - 1] != 0
  {
    assert SolidAt(buf, n + 1) <==> buf[ChunkAt(n + 1) - 1] != 0;
  }

  lemma {:induction false} FrontExact(buf: seq<Byte>, n: nat)
    requires |buf| > CHUNK && n <= KidCount(|buf|) && n <= LAST
    ensures |FrontBack(buf, n)| <= |Front(buf, n)|
    ensures ChunkAt(n + 1) <= |buf| ==> (FrontBack(buf, n) == Front(buf, n) <==> AllSolid(buf, n))
  {
    if n == 0 {
      assert FrontBack(buf, 0) == Front(buf, 0);
    } else {
      FrontExact(buf, n - 1);
      FrontGrows(buf, n);
      AppendChunk(FrontBack(buf, n - 1), Front(buf, n - 1), Chunk(buf, n - 1));
      if ChunkAt(n + 1) <= |buf| {
        AllSolidGrows(buf, n);
      }
    }
  }

  /** A chunk of zeros adds nothing significant on either side. */
  lemma AppendBlank(a: seq<Byte>, p: seq<Byte>, c: seq<Byte>)
    requires Strip(c) == []
    ensures a + [] == a
    ensures Strip(p + c) == Strip(p)
  {
    StripAppend(p, c);
  }

  lemma StripJoin(p: seq<Byte>, c: seq<Byte>)
    requires Strip(c) != []
    ensures Strip(p + c) == p + Strip(c)
  {
    StripAppend(p, c);
  }

  /** After a chunk with something significant in it, the stripped results agree exactly when
      all that comes before it and the stripped chunk do. */
  lemma AppendStripped(a: seq<Byte>, p: seq<Byte>, r: seq<Byte>, c: seq<Byte>)
    requires |a| <= |p| && |r| <= |Strip(c)| && Strip(r) == r
    requires r != [] && Strip(c) != []
    ensures Strip(a + r) != [] && Strip(p + c) == p + Strip(c)
    ensures |Strip(a + r)| <= |Strip(p + c)|
    ensures Strip(a + r) == Strip(p + c) <==> a == p && r == Strip(c)
  {
    StripJoin(a, r);
    StripJoin(p, c);
    SplitEqual(a, r, p, Strip(c));
  }

  /** What is read back, a, against what was written, p; both stripped. */
  ghost predicate Agree(buf: seq<Byte>, a: seq<Byte>, p: seq<Byte>)
    requires |p| <= |buf|
  {
    && |a| <= |p|
    && (a == [] <==> p == [])
    && (a == p <==> SolidBefore(buf, |p|))
  }

  lemma {:induction false} FrontSurvives(buf: seq<Byte>, n: nat)
    requires |buf| > CHUNK && n <= KidCount(|buf|) && n <= LAST
    ensures Agree(buf, Strip(FrontBack(buf, n)), Strip(Front(buf, n)))
  {
    if n == 0 {
      FrontFirst(buf);
    } else if Strip(Chunk(buf, n - 1)) == [] {
      FrontSurvives(buf, n - 1);
      FrontBlank(buf, n);
    } else {
      FrontSolid(buf, n);
    }
  }

  lemma FrontFirst(buf: seq<Byte>)
    requires |buf| > CHUNK
    ensures Agree(buf, Strip(FrontBack(buf, 0)), Strip(Front(buf, 0)))
  {
    assert FrontBack(buf, 0) == Front(buf, 0);
  }

  lemma FrontBlank(buf: seq<Byte>, n: nat)
    requires |buf| > CHUNK && 1 <= n <= KidCount(|buf|) && n <= LAST
    requires Strip(Chunk(buf, n - 1)) == []
    requires Agree(buf, Strip(FrontBack(buf, n - 1)), Strip(Front(buf, n - 1)))
    ensures Agree(buf, Strip(FrontBack(buf, n)), Strip(Front(buf, n)))
  {
    FrontGrows(buf, n);
    AppendBlank(FrontBack(buf, n - 1), Front(buf, n - 1), Chunk(buf, n - 1));
  }

  lemma FrontSolid(buf: seq<Byte>, n: nat)
    requires |buf| > CHUNK && 1 <= n <= KidCount(|buf|) && n <= LAST
    requires Strip(Chunk(buf, n - 1)) != []
    ensures Agree(buf, Strip(FrontBack(buf, n)), Strip(Front(buf, n)))
  {
    hide FrontBack, Strip, Chunk, SolidBefore, AllSolid, KidsBack, ReadBack;
    var c := Chunk(buf, n - 1);
    FrontGrows(buf, n);
    FrontExact(buf, n - 1);
    StripStrip(c);
    AppendStripped(FrontBack(buf, n - 1), Front(buf, n - 1), Strip(c), c);
    var z := |Front(buf, n - 1)| + |Strip(c)|;
    assert |Strip(Front(buf, n))| == z;
    SolidRange(buf, n - 1, z);
  }

  lemma SolidRange(buf: seq<Byte>, n: nat, z: nat)
    requires n < LAST && ChunkAt(n + 1) < z <= ChunkAt(n + 2) && z <= |buf|
    ensures AllSolid(buf, n) <==> SolidBefore(buf, z)
  {
    if SolidBefore(buf, z) {
      forall k | 2 <= k <= n + 1 ensures SolidAt(buf, k) {
        assert Boundary(k);
      }
    }
  }

  lemma StripStrip(c: seq<Byte>)
    ensures Strip(Strip(c)) == Strip(c)
  {
    StripWhole(Strip(c));
  }

  /** The bytes of the last sub-inode. */
  function Rest(buf: seq<Byte>): seq<Byte>
    requires KidCount(|buf|) == TABLE_LEN
  {
    Chunk(buf, LAST)
  }

  lemma RestJoins(buf: seq<Byte>)
    requires KidCount(|buf|) == TABLE_LEN
    ensures buf == Front(buf, LAST) + Rest(buf)
  {
    hide ReadBack, KidsBack;
  }

  lemma RestStripped(buf: seq<Byte>)
    requires KidCount(|buf|) == TABLE_LEN && Strip(Rest(buf)) != []
    ensures |buf| > ChunkAt(TABLE_LEN) && |Strip(buf)| == ChunkAt(TABLE_LEN) + |Strip(Rest(buf))|
  {
    RestJoins(buf);
    StripAppend(Front(buf, LAST), Rest(buf));
  }

  lemma SurvivesSplit(buf: seq<Byte>)
    requires KidCount(|buf|) == TABLE_LEN
    requires Strip(Rest(buf)) != []
    ensures Survives(buf) <==> AllSolid(buf, LAST) && Survives(Rest(buf))
  {
    RestStripped(buf);
    SolidSplit(buf, |Strip(Rest(buf))|);
  }

  /** The boundaries before position z of the rest are those of the buffer, TABLE_LEN chunks on. */
  lemma SolidSplit(buf: seq<Byte>, z: nat)
    requires KidCount(|buf|) == TABLE_LEN && |buf| > ChunkAt(TABLE_LEN) && 0 < z <= |Rest(buf)|
    ensures SolidBefore(buf, ChunkAt(TABLE_LEN) + z) <==> AllSolid(buf, LAST) && SolidBefore(Rest(buf), z)
  {
    hide Chunk, SolidAt;
    if SolidBefore(buf, ChunkAt(TABLE_LEN) + z) {
      forall k | 2 <= k <= LAST + 1 ensures SolidAt(buf, k) {
        assert Boundary(k);
      }
      forall k | Boundary(k) && ChunkAt(k) < z ensures SolidAt(Rest(buf), k) {
        assert Boundary(k + TABLE_LEN);
        SolidShift(buf, k);
      }
    }
    if AllSolid(buf, LAST) && SolidBefore(Rest(buf), z) {
      forall k | Boundary(k) && ChunkAt(k) < ChunkAt(TABLE_LEN) + z ensures SolidAt(buf, k) {
        if k > TABLE_LEN {
          assert Boundary(k - TABLE_LEN);
          SolidShift(buf, k - TABLE_LEN);
        }
      }
    }
  }

  lemma SolidShift(buf: seq<Byte>, k: int)
    requires KidCount(|buf|) == TABLE_LEN && 1 <= k
    requires |buf| > ChunkAt(TABLE_LEN)
    ensures SolidAt(Rest(buf), k) == SolidAt(buf, k + TABLE_LEN)
  {
  }

  lemma RestBack(buf: seq<Byte>)
    requires KidCount(|buf|) == TABLE_LEN
    ensures ReadBack(buf) == Strip(FrontBack(buf, LAST) + ReadBack(Rest(buf)))
  {
    hide Strip, Chunk;
    var a, b, c := buf[..CHUNK], KidsBack(buf, LAST), ReadBack(Rest(buf));
    assert KidsBack(buf, TABLE_LEN) == b + c;
    assert a + (b + c) == a + b + c;
  }

  /** A file reads back as it was written, up to its trailing zeros, exactly when it survives. */
  lemma {:induction false} RoundTripExact(buf: seq<Byte>)
    ensures ReadBack(buf) == Strip(buf) <==> Survives(buf)
    ensures |ReadBack(buf)| <= |Strip(buf)|
    ensures ReadBack(buf) == [] <==> Strip(buf) == []
    decreases |buf|
  {
    if |buf| > CHUNK {
      var n := Min(KidCount(|buf|), LAST);
      FrontSurvives(buf, n);
      FrontExact(buf, n);
      if KidCount(|buf|) <= LAST {
        assert Front(buf, n) == buf;
      } else {
        var rest := Rest(buf);
        RestBack(buf);
        RestJoins(buf);
        RoundTripExact(rest);
        StripStripped(rest);
        if Strip(rest) == [] {
          AppendBlank(FrontBack(buf, LAST), Front(buf, LAST), rest);
        } else {
          AppendStripped(FrontBack(buf, LAST), Front(buf, LAST), ReadBack(rest), rest);
          SurvivesSplit(buf);
        }
      }
    }
  }

  lemma StripStripped(buf: seq<Byte>)
    ensures Strip(ReadBack(buf)) == ReadBack(buf)
  {
    StripWhole(ReadBack(buf));
  }

  // ---------------------------------------------------------------- reported size

  /** get_file_size takes an all-zero last block to hold one byte. */
  ghost predicate TailCounted(buf: seq<Byte>) {
    buf == [] || buf[|buf| - 1] != 0 || |buf| % 512 == 1
  }

  /** The buffers whose length get_file_size reports after a write. */
  ghost predicate SizeCounted(buf: seq<Byte>) {
    TailCounted(buf) && SolidBefore(buf, |buf|)
  }

  lemma LastPiece(buf: seq<Byte>)
    requires buf != []
    ensures var at := BlockAt(Pieces(|buf|) - 1);
            var size := at + LastNonZero(Piece(buf, Pieces(|buf|) - 1)) + 1;
            size <= |buf| && (size == |buf| <==> TailCounted(buf))
  {
    PiecesBounds(|buf|);
    var at := BlockAt(Pieces(|buf|) - 1);
    var last := buf[at..];
    var piece := Piece(buf, Pieces(|buf|) - 1);
    assert piece == last + Zeros(BlockAt(Pieces(|buf|)) - |buf|);
    StripZeros(last, BlockAt(Pieces(|buf|)) - |buf|);
    assert last[|last| - 1] == buf[|buf| - 1];
    assert |last| == 1 <==> |buf| % 512 == 1;
    StripWhole(last);
  }

  lemma SmallSize(t: File, buf: seq<Byte>)
    requires Holds(t, buf) && Formed(t) && |buf| <= CHUNK
    ensures FileSize(t) <= |buf|
    ensures FileSize(t) == |buf| <==> TailCounted(buf)
  {
    PiecesBounds(|buf|);
    if buf != [] {
      var last := Pieces(|buf|) - 1;
      assert t.size == |t.blocks| == last + 1;
      assert t.blocks[last] == Piece(buf, last);
      assert FileSize(t) == BlockAt(last) + LastNonZero(t.blocks[last]) + 1;
      LastPiece(buf);
    } else {
      assert t.size == 0;
    }
  }

  /** The first n sub-inodes report the bytes they hold, unless one of them ends in zeros. */
  ghost predicate FrontCounted(buf: seq<Byte>, n: nat) {
    && (forall k :: 2 <= k <= n + 1 && ChunkAt(k) < |buf| ==> SolidAt(buf, k))
    && (1 <= n && |buf| <= ChunkAt(n + 1) ==> TailCounted(buf))
  }

  /** What the share of sub-inode n - 1 must satisfy for its size to be exact. */
  ghost predicate ShareCounted(buf: seq<Byte>, n: nat) {
    if ChunkAt(n + 1) < |buf| then SolidAt(buf, n + 1) else TailCounted(buf)
  }

  lemma FrontCountedGrows(buf: seq<Byte>, n: nat)
    requires 1 <= n && ChunkAt(n) < |buf|
    ensures FrontCounted(buf, n) <==> (FrontCounted(buf, n - 1) && ShareCounted(buf, n))
  {
  }

  lemma ShareIsChunk(buf: seq<Byte>, n: nat)
    requires |buf| > CHUNK && 1 <= n <= KidCount(|buf|) && n <= LAST
    ensures TailCounted(Chunk(buf, n - 1)) <==> ShareCounted(buf, n)
  {
    hide Chunk, FrontBack, Strip, ReadBack, KidCount;
    FrontGrows(buf, n);
    SameTail(|buf|, n);
  }

  lemma SameTail(z: nat, n: nat)
    requires ChunkAt(n) <= z
    ensures (z - ChunkAt(n)) % 512 == z % 512
  {
  }

  lemma {:induction false} FrontSize(t: File, buf: seq<Byte>, n: nat)
    requires Holds(t, buf) && Formed(t) && |buf| > CHUNK && n <= |t.kids| && n <= LAST
    ensures CHUNK + KidSizes(t, n) <= |Front(buf, n)|
    ensures CHUNK + KidSizes(t, n) == |Front(buf, n)| <==> FrontCounted(buf, n)
  {
    if n > 0 {
      FrontSize(t, buf, n - 1);
      SmallSize(t.kids[n - 1], Chunk(buf, n - 1));
      FrontCountedGrows(buf, n);
      ShareIsChunk(buf, n);
      assert |Front(buf, n)| == |Front(buf, n - 1)| + |Chunk(buf, n - 1)| by { FrontGrows(buf, n); }
    }
  }

  lemma CountedSplit(buf: seq<Byte>)
    requires |buf| > CHUNK
    ensures KidCount(|buf|) <= LAST ==> (SizeCounted(buf) <==> FrontCounted(buf, KidCount(|buf|)))
    ensures KidCount(|buf|) == TABLE_LEN ==>
              (SizeCounted(buf) <==> FrontCounted(buf, LAST) && SizeCounted(Rest(buf)))
  {
    if KidCount(|buf|) <= LAST || |buf| <= ChunkAt(TABLE_LEN) {
      CountedFront(buf, Min(KidCount(|buf|), LAST));
      if KidCount(|buf|) == TABLE_LEN {
        assert Rest(buf) == [];
      }
    } else {
      CountedRest(buf);
    }
  }

  lemma CountedFront(buf: seq<Byte>, n: nat)
    requires 1 <= n <= LAST && CHUNK < |buf| <= ChunkAt(n + 1)
    ensures SizeCounted(buf) <==> FrontCounted(buf, n)
  {
    assert forall k :: 2 <= k <= n + 1 ==> Boundary(k);
  }

  lemma CountedRest(buf: seq<Byte>)
    requires |buf| > ChunkAt(TABLE_LEN)
    ensures SizeCounted(buf) <==> FrontCounted(buf, LAST) && SizeCounted(Rest(buf))
  {
    assert TailCounted(buf) <==> TailCounted(Rest(buf));
    hide TailCounted;
    SolidSplit(buf, |Rest(buf)|);
    assert FrontCounted(buf, LAST) <==> AllSolid(buf, LAST) by {
      hide SolidAt, Chunk;
    }
  }

  /** After a write the reported size never exceeds the buffer length, and equals it exactly when
      no sub-inode's share ends in a zero and the last byte counts. */
  lemma {:induction false} ReportedSizeExact(t: File, buf: seq<Byte>)
    requires Holds(t, buf) && Formed(t)
    ensures FileSize(t) <= |buf|
    ensures FileSize(t) == |buf| <==> SizeCounted(buf)
    decreases t
  {
    if |buf| <= CHUNK {
      SmallSize(t, buf);
      assert forall k :: Boundary(k) ==> ChunkAt(k) >= |buf|;
    } else {
      PiecesBounds(|buf|);
      var m := KidCount(|buf|);
      FrontSize(t, buf, Min(m, LAST));
      CountedSplit(buf);
      if m == TABLE_LEN {
        ReportedSizeExact(t.kids[LAST], Rest(buf));
        assert |Front(buf, LAST)| + |Rest(buf)| == |buf|;
      } else {
        assert Front(buf, m) == buf;
      }
    }
  }

  /** The shortest wrong report: two zero bytes are reported as one. */
  lemma ShortReport(t: File, buf: seq<Byte>)
    requires Holds(t, buf) && buf == [0, 0]
    ensures FileSize(t) == 1
  {
    HoldsIsFormed(t, buf);
    SmallSize(t, buf);
    assert !TailCounted(buf);
    assert t.size == |t.blocks| == 1;
  }

  /** For a buffer that ends in a non-zero byte and has solid boundaries, what was written,
      what is read, and the size reported are one and the same. */
  lemma WrittenReadReported(t: File, buf: seq<Byte>)
    requires Holds(t, buf) && Formed(t)
    requires buf != [] && buf[|buf| - 1] != 0
    ensures Read(t) == buf <==> SolidBefore(buf, |buf|)
    ensures FileSize(t) == |Read(t)| == |buf| <==> SolidBefore(buf, |buf|)
  {
    hide Holds, Formed, FileTree.Read, FileSize, SolidBefore, ReadBack, Strip;
    ReadHeld(t, buf);
    RoundTripExact(buf);
    StripWhole(buf);
    ReportedSizeExact(t, buf);
  }

  /** Text survives: a buffer without zero bytes reads back whole, at any length. */
  lemma TextRoundTrip(t: File, buf: seq<Byte>)
    requires Holds(t, buf)
    requires forall i :: 0 <= i < |buf| ==> buf[i] != 0
    ensures Read(t) == buf
  {
    ReadHeld(t, buf);
    RoundTripExact(buf);
    StripWhole(buf);
  }

  /** So does any buffer of at most two chunks, up to its trailing zeros. */
  lemma TwoChunkRoundTrip(t: File, buf: seq<Byte>)
    requires Holds(t, buf) && |buf| <= ChunkAt(2)
    ensures Read(t) == Strip(buf)
  {
    ReadHeld(t, buf);
    RoundTripExact(buf);
    assert forall k :: Boundary(k) ==> ChunkAt(k) >= |buf|;
  }

  /** The shortest loss: two chunks of zeros and then one non-zero byte. The zeros of the second
      chunk vanish, so the byte comes back one chunk too early. */
  lemma LostZeros()
    ensures var buf := Zeros(ChunkAt(2)) + [1];
            Strip(buf) == buf && !Survives(buf) && ReadBack(buf) == Zeros(CHUNK) + [1] != buf
  {
    var buf := Zeros(ChunkAt(2)) + [1];
    StripWhole(buf);
    RoundTripExact(buf);
    assert Boundary(2) && !SolidAt(buf, 2);
    var back := Zeros(CHUNK) + [1];
    StripWhole(back);
    assert Chunk(buf, 0) == Zeros(CHUNK) && Chunk(buf, 1) == [1];
    StripZeros([], CHUNK);
    assert [] + Zeros(CHUNK) == Zeros(CHUNK);
    StripWhole([1]);
    assert KidsBack(buf, 0) == [];
    assert KidsBack(buf, 1) == [];
    assert KidsBack(buf, 2) == [1];
    assert buf[..CHUNK] == Zeros(CHUNK);
  }
}
