/** The tree of inodes behind one file or directory, and what the readers compute from it. */
module FileTree {
  import opened Layout
  import opened Bytes

  /** One inode with what it refers to: the direct blocks in use (ids and contents), and for an
      inode of size NDIRECT + 1 the table block and the sub-inodes listed in it. */
  datatype File = File(inum: nat, kind: nat, size: nat, ids: seq<nat>, blocks: seq<Block>, table: nat, kids: seq<File>)

  /** What every tree found on a disk looks like. */
  ghost predicate Formed(t: File) {
    && t.size <= NDIRECT + 1
    && |t.ids| == |t.blocks| == Min(t.size, NDIRECT)
    && (t.size <= NDIRECT ==> t.kids == [])
    && forall k :: 0 <= k < |t.kids| ==> Formed(t.kids[k])
  }

  // ---------------------------------------------------------------- footprint

  function Inums(t: File): set<nat>
    decreases t, |t.kids| + 1
  {
    {t.inum} + KidInums(t, |t.kids|)
  }

  function KidInums(t: File, n: nat): set<nat>
    requires n <= |t.kids|
    decreases t, n
  {
    if n == 0 then {} else KidInums(t, n - 1) + Inums(t.kids[n - 1])
  }

  function Elems(ids: seq<nat>): set<nat> {
    set b | b in ids
  }

  /** The table blocks of a tree. */
  function Tables(t: File): set<nat>
    decreases t, |t.kids| + 1
  {
    (if t.size > NDIRECT then {t.table} else {}) + KidTables(t, |t.kids|)
  }

  function KidTables(t: File, n: nat): set<nat>
    requires n <= |t.kids|
    decreases t, n
  {
    if n == 0 then {} else KidTables(t, n - 1) + Tables(t.kids[n - 1])
  }

  // ---------------------------------------------------------------- readers

  /** The first n blocks one after the other. */
  function Flat(blocks: seq<Block>, n: nat): (r: seq<Byte>)
    requires n <= |blocks|
    ensures |r| == BlockAt(n)
  {
    if n == 0 then [] else Flat(blocks, n - 1) + blocks[n - 1]
  }

  /** read_file: the direct blocks, then every sub-inode as read_file returns it,
      without trailing zero bytes. */
  function Read(t: File): seq<Byte>
    decreases t, |t.kids| + 1
  {
    Strip(Flat(t.blocks, |t.blocks|) + ReadKids(t, |t.kids|))
  }

  function ReadKids(t: File, n: nat): seq<Byte>
    requires n <= |t.kids|
    decreases t, n
  {
    if n == 0 then [] else ReadKids(t, n - 1) + Read(t.kids[n - 1])
  }

  /** Index of the last non-zero byte; 0 when there is none. */
  function LastNonZero(b: seq<Byte>): nat {
    if Strip(b) == [] then 0 else |Strip(b)| - 1
  }

  /** get_file_size */
  function FileSize(t: File): nat
    decreases t, |t.kids| + 1
  {
    if t.size == 0 || |t.blocks| == 0 then 0
    else if t.size <= NDIRECT then BlockAt(t.size - 1) + LastNonZero(t.blocks[|t.blocks| - 1]) + 1
    else CHUNK + KidSizes(t, |t.kids|)
  }

  function KidSizes(t: File, n: nat): nat
    requires n <= |t.kids|
    decreases t, n
  {
    if n == 0 then 0 else KidSizes(t, n - 1) + FileSize(t.kids[n - 1])
  }

  /** get_file_block_num */
  function BlockNum(t: File): nat
    decreases t, |t.kids| + 1
  {
    if t.size <= NDIRECT then t.size else NDIRECT + KidBlockNums(t, |t.kids|)
  }

  function KidBlockNums(t: File, n: nat): nat
    requires n <= |t.kids|
    decreases t, n
  {
    if n == 0 then 0 else KidBlockNums(t, n - 1) + BlockNum(t.kids[n - 1])
  }

  /** read_blockid */
  function BlockIds(t: File): seq<nat>
    decreases t, |t.kids| + 1
  {
    t.ids + KidBlockIds(t, |t.kids|)
  }

  function KidBlockIds(t: File, n: nat): seq<nat>
    requires n <= |t.kids|
    decreases t, n
  {
    if n == 0 then [] else KidBlockIds(t, n - 1) + BlockIds(t.kids[n - 1])
  }

  /** A node that stands for a list of kids alone. */
  function Hub(kids: seq<File>): File {
    File(0, 0, 0, [], [], 0, kids)
  }

  /** What the first n kids occupy does not depend on the node above them, nor on later kids. */
  lemma {:induction false} KidsPrefix(t: File, u: File, n: nat)
    requires n <= |t.kids| && n <= |u.kids|
    requires forall k :: 0 <= k < n ==> t.kids[k] == u.kids[k]
    ensures KidInums(t, n) == KidInums(u, n)
    ensures KidBlockIds(t, n) == KidBlockIds(u, n)
    ensures KidTables(t, n) == KidTables(u, n)
  {
    if n > 0 {
      KidsPrefix(t, u, n - 1);
    }
  }

  // ---------------------------------------------------------------- agreement of the readers

  /** The size report is sound on every tree: at least what a read returns,
      at most what the blocks hold. */
  lemma {:induction false} SizeReportSound(t: File)
    requires Formed(t)
    ensures |Read(t)| <= FileSize(t) <= BlockAt(BlockNum(t))
    decreases t, |t.kids| + 1
  {
    if t.size <= NDIRECT {
      assert ReadKids(t, 0) == [];
      var whole := Flat(t.blocks, |t.blocks|);
      assert whole + [] == whole;
      if t.size > 0 {
        StripAppend(Flat(t.blocks, t.size - 1), t.blocks[t.size - 1]);
      }
    } else {
      KidSizesSound(t, |t.kids|);
    }
  }

  lemma {:induction false} KidSizesSound(t: File, n: nat)
    requires Formed(t) && n <= |t.kids|
    ensures |ReadKids(t, n)| <= KidSizes(t, n) <= BlockAt(KidBlockNums(t, n))
    decreases t, n
  {
    if n > 0 {
      KidSizesSound(t, n - 1);
      SizeReportSound(t.kids[n - 1]);
    }
  }

  /** get_file_block_num counts exactly the ids read_blockid lists. */
  lemma {:induction false} BlockCountsAgree(t: File)
    requires Formed(t)
    ensures BlockNum(t) == |BlockIds(t)|
    decreases t, |t.kids| + 1
  {
    KidBlockCountsAgree(t, |t.kids|);
  }

  lemma {:induction false} KidBlockCountsAgree(t: File, n: nat)
    requires Formed(t) && n <= |t.kids|
    ensures KidBlockNums(t, n) == |KidBlockIds(t, n)|
    decreases t, n
  {
    if n > 0 {
      KidBlockCountsAgree(t, n - 1);
      BlockCountsAgree(t.kids[n - 1]);
    }
  }
}
