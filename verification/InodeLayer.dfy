/** The inode manager: inodes on disk, files as trees of inodes, directories. */
module InodeLayer {
  import opened Layout
  import opened Bytes
  import opened Wrappers
  import opened Stores
  import opened BlockLayer
  import opened FileTree
  import opened FileFormat
  import opened Accounting
  import opened Forests
  import opened Growth
  import opened WriteSteps
  import opened RemoveSteps
  import opened Directory

  // ---------------------------------------------------------------- counting inodes

  function Interval(n: nat): (r: set<nat>)
    ensures |r| == n
    ensures forall i :: i in r <==> 1 <= i <= n
  {
    if n == 0 then {} else Interval(n - 1) + {n}
  }

  /** All inodes are in use exactly when there are INODE_NUM live ones. */
  lemma FullTable(s: Store)
    ensures |Live(s)| <= INODE_NUM
    ensures |Live(s)| == INODE_NUM <==> forall i :: 1 <= i <= INODE_NUM ==> s.ino[i].kind != 0
  {
    hide Interval;
    var all := Interval(INODE_NUM);
    Subset(Live(s), all);
    if i :| 1 <= i <= INODE_NUM && s.ino[i].kind == 0 {
      Subset(Live(s), all - {i});
    } else {
      assert Live(s) == all;
    }
  }

  /** The tree at i, or that of an inode not in use. */
  function TreeAt(f: Forest, i: nat): File {
    if i in f then f[i] else NewFile(i, 0)
  }

  lemma KidTree(s: Store, f: Forest, t: File, k: nat)
    requires Mapped(s, f) && KidsIn(f, t.kids) && k < |t.kids|
    ensures 1 <= t.kids[k].inum <= INODE_NUM && TreeAt(f, t.kids[k].inum) == t.kids[k]
  {
    hide Mapped, KidsIn;
    MappedKid(s, f, t, k);
  }

  lemma EmptyFile(i: nat, kind: nat)
    ensures Read(NewFile(i, kind)) == []
  {
    assert ReadKids(NewFile(i, kind), 0) == [];
  }

  /** The first blocks of a packed tree are its direct ones. */
  lemma FrontIds(t: File, i: nat)
    requires Packed(t) && i < |BlockIds(t)| && i < NDIRECT
    ensures i < |t.ids| && BlockIds(t)[i] == t.ids[i]
  {
    if t.kids == [] {
      assert KidBlockIds(t, 0) == [];
    }
  }

  /** The slot ino_next_block follows, and the block it looks for there. */
  lemma NextSlot(s: Store, f: Forest, t: File, i: nat)
    requires Mapped(s, f) && KidsIn(f, t.kids) && Packed(t) && NDIRECT <= i < |BlockIds(t)|
    ensures var k := Min((i - 100) / 100, LAST);
            && k < |t.kids| && 0 <= i - 100 * (k + 1) < |BlockIds(t.kids[k])|
            && t.kids[k].inum in f && f[t.kids[k].inum] == t.kids[k] && Packed(t.kids[k])
            && BlockIds(t)[i] == BlockIds(t.kids[k])[i - 100 * (k + 1)]
  {
    hide Mapped, KidsIn, Packed, BlockIds;
    BlockAtIndex(t, i);
    PackedKid(t, SlotOf(i));
    MappedKid(s, f, t, SlotOf(i));
  }

  lemma PackedKid(t: File, k: nat)
    requires Packed(t) && k < |t.kids|
    ensures Packed(t.kids[k])
  {
  }

  /** A size that is not above the reported one needs no block that is not there. */
  lemma CutFits(t: File, n: nat)
    requires Formed(t) && n <= FileSize(t) && n <= CHUNK
    ensures Pieces(n) <= |t.ids| && |t.blocks| == |t.ids|
  {
    if t.size > 0 && t.size <= NDIRECT {
      assert FileSize(t) <= BlockAt(t.size);
    }
  }

  lemma TakeAndFill(s: Store, f: Forest, id: nat, b: Block)
    requires Inv(s, f) && id in s.free
    ensures var m := s.(free := s.free - {id}, data := s.data[id := b]);
            Inv(m, f) && Reserved(m, {id})
  {
    GrownRefl(s, f);
    AllocWriteStep(s, f, s, f, {}, {}, {}, id, b);
    assert {} + {id} == {id};
  }

  lemma KindOf(s: Store, f: Forest, i: nat)
    requires Mapped(s, f) && 1 <= i <= INODE_NUM
    ensures TreeAt(f, i).kind == s.ino[i].kind
  {
    assert i in f <==> i in Live(s);
  }

  /** The first index is the one before which nothing matches and at which something does. */
  lemma {:induction false} FirstIndexIs(l: seq<Entry>, inum: nat, k: nat)
    requires k <= |l|
    requires forall j :: 0 <= j < k ==> l[j].inum != inum
    requires k < |l| ==> l[k].inum == inum
    ensures FirstIndex(l, inum) == k
  {
  }

  /** Block k of a directory is a data block in use that holds entry k. */
  lemma DirBlock(s: Store, f: Forest, d: nat, k: nat)
    requires Inv(s, f) && d in f && FlatDir(f[d]) && k < f[d].size
    ensures f[d].ids[k] in s.data && f[d].ids[k] !in s.free
    ensures Listing(f[d])[k] == EntryOf(s.data[f[d].ids[k]])
  {
    assert d in Live(s) && NodeOf(s, s.ino[d], f[d]);
    assert Active(s.ino[d], k) && s.ino[d].blocks[k] in Ptrs(s.ino[d]);
    FlatListing(f[d]);
  }

  lemma FlatBlockIds(t: File)
    requires FlatDir(t)
    ensures BlockIds(t) == t.ids
  {
    assert KidBlockIds(t, 0) == [];
  }

  lemma DirEntries(s: Store, f: Forest, d: nat)
    requires Inv(s, f) && d in f && FlatDir(f[d])
    ensures EntriesAt(s, f[d].ids, Listing(f[d]))
    ensures forall k :: 0 <= k < |f[d].ids| ==> f[d].ids[k] in s.data && f[d].ids[k] !in s.free
  {
    FlatListing(f[d]);
    forall k | 0 <= k < |f[d].ids|
      ensures f[d].ids[k] in s.data && f[d].ids[k] !in s.free && EntryOf(s.data[f[d].ids[k]]) == Listing(f[d])[k]
    {
      DirBlock(s, f, d, k);
    }
  }

  /** The inode record with direct pointer `index` replaced; a zero takes the last entry off. */
  function SlotReplaced(n: Inode, index: nat, id: nat): Inode
    requires index < n.size <= NDIRECT
  {
    if id == 0 then SetSlot(n, index, 0).(size := n.size - 1) else SetSlot(n, index, id)
  }

  /** The two slot updates of remove_from_dir amount to DropSlot. */
  ghost predicate SlotsMove(n: Inode, k: nat, lastId: nat, last: nat) {
    && n.kind == T_DIR && Storable(n) && 0 < n.size <= NDIRECT && k <= n.size
    && last == n.size - 1 && lastId == n.blocks[last] && 0 < lastId < U32_LIMIT
    && (k < n.size ==> Storable(SlotReplaced(n, k, lastId))
                       && SlotReplaced(SlotReplaced(n, k, lastId), last, 0) == DropSlot(n, k))
    && (k == n.size ==> SlotReplaced(n, last, 0) == DropSlot(n, k))
  }

  lemma DirShape(s: Store, f: Forest, d: nat, k: nat)
    requires Inv(s, f) && d in f && d <= INODE_NUM && FlatDir(f[d]) && 0 < f[d].size && k <= f[d].size
    ensures s.ino[d].size == f[d].size && (k < f[d].size ==> f[d].ids[k] == s.ino[d].blocks[k])
    ensures SlotsMove(s.ino[d], k, f[d].ids[f[d].size - 1], f[d].size - 1)
  {
    var n := s.ino[d];
    NodeAt(s, f, d);
    DirBlock(s, f, d, n.size - 1);
    assert n.blocks[n.size - 1] in s.data;
    assert s.n < U32_LIMIT && s.data.Keys == Region(s.n);
    hide Inv;
    SlotsMoved(n, k);
  }

  lemma SlotsMoved(n: Inode, k: nat)
    requires n.kind == T_DIR && Storable(n) && 0 < n.size <= NDIRECT && k <= n.size
    requires 0 < n.blocks[n.size - 1] < U32_LIMIT
    ensures SlotsMove(n, k, n.blocks[n.size - 1], n.size - 1)
  {
    if k == n.size - 1 {
      assert SetSlot(n, k, n.blocks[k]) == n;
    }
  }

  lemma EmptyTree(s: Store, f: Forest, i: nat)
    requires Mapped(s, f) && 1 <= i <= INODE_NUM && s.ino[i].size == 0
    ensures Read(TreeAt(f, i)) == []
    ensures BlockIds(TreeAt(f, i)) == []
  {
    var t := TreeAt(f, i);
    assert i in f ==> NodeOf(s, s.ino[i], f[i]);
    assert t.blocks == [] && t.ids == [] && t.kids == [];
    assert ReadKids(t, 0) == [] && KidBlockIds(t, 0) == [];
  }

  lemma RoomLeft(s: Store, f: Forest)
    requires Inv(s, f)
    ensures |f| <= INODE_NUM
  {
    hide Inv;
    LiveKeys(s, f);
    FullTable(s);
  }

  class InodeManager {
    const bm: BlockManager
    /** The abstract state of the disk. */
    ghost var disk: Store
    /** The tree under every live inode; the disk determines it (Forests.ForestUnique). */
    ghost var forest: Forest

    ghost predicate Synced()
      reads this, bm.d.blocks
    {
      bm.Valid() && disk == bm.View()
    }

    ghost predicate Valid()
      reads this, bm.d.blocks
    {
      Synced() && Inv(disk, forest)
    }

    /** A formatted disk of n blocks with an empty root directory, inode 1. */
    constructor (n: nat)
      requires Fits(n)
      ensures Valid() && fresh(bm.d.blocks) && bm.sb.nblocks == n
      ensures forest == map[1 := NewFile(1, T_DIR)]
      ensures disk.free == disk.data.Keys == Region(n)
      ensures disk.ino[1] == NewInode(T_DIR) && Live(disk) == {1}
    {
      hide Inv, Blank, Root;
      bm := new BlockManager(n);
      forest := map[];
      new;
      disk := bm.View();
      InvFormatted(disk);
      assert disk.ino[1].kind == 0;
      var root := AllocInode(T_DIR);
      assert root == Some(1);
    }

    // -------------------------------------------------------------- single inodes

    /** The record of an inode; None where the source returns NULL. */
    method GetInode(inum: nat) returns (r: Option<Inode>)
      requires Synced()
      ensures r == if 1 <= inum <= INODE_NUM then Some(disk.ino[inum]) else None
    {
      if inum > INODE_NUM || inum < 1 {
        return None;
      }
      var buf := bm.ReadBlock(IBlock(inum, bm.sb.nblocks));
      r := Some(DecodeInode(buf));
    }

    method PutInode(inum: nat, ino: Inode)
      requires Synced() && Storable(ino)
      modifies this`disk, bm.d.blocks
      ensures Synced()
      ensures disk == if 1 <= inum <= INODE_NUM then old(disk).(ino := old(disk).ino[inum := ino]) else old(disk)
    {
      if inum > INODE_NUM || inum < 1 {
        return;
      }
      var at := IBlock(inum, bm.sb.nblocks);
      var buf := bm.ReadBlock(at);
      bm.WriteBlock(at, EncodeInode(buf, ino));
      AbsWriteInode(old(bm.d.blocks[..]), inum, ino);
      disk := bm.View();
    }

    /** The least free inode. None is where the source walks past the inode table and
        dereferences the NULL that get_inode returns. */
    method FindFreeInode() returns (r: Option<nat>)
      requires Synced()
      ensures r.None? <==> forall i :: 1 <= i <= INODE_NUM ==> disk.ino[i].kind != 0
      ensures r.Some? ==> 1 <= r.value <= INODE_NUM && disk.ino[r.value].kind == 0
      ensures r.Some? ==> forall i :: 1 <= i < r.value ==> disk.ino[i].kind != 0
    {
      var id := 1;
      while id <= bm.sb.nblocks
        invariant 1 <= id <= INODE_NUM + 1
        invariant forall i :: 1 <= i < id ==> disk.ino[i].kind != 0
      {
        var ino := GetInode(id);
        if ino.None? {
          return None;
        }
        if ino.value.kind == 0 {
          return Some(id);
        }
        id := id + 1;
      }
      assert false;
    }

    /** A new empty inode, the least free one; 0 for an unknown kind; None when none is left. */
    method AllocInode(kind: nat) returns (r: Option<nat>)
      requires Valid()
      modifies this, bm.d.blocks
      ensures Valid()
      ensures !(1 <= kind <= 3) ==> r == Some(0)
      ensures !(1 <= kind <= 3) || r.None? ==> disk == old(disk) && forest == old(forest)
      ensures 1 <= kind <= 3 ==> (r.Some? <==> |old(forest)| < INODE_NUM)
      ensures 1 <= kind <= 3 && r.Some? ==>
                && Allotted(old(disk), old(forest), disk, forest, r.value, kind)
                && (forall i :: 1 <= i < r.value ==> old(disk).ino[i].kind != 0)
                && Root(forest, r.value) && Blank(disk.ino[r.value], forest[r.value], r.value, kind)
    {
      hide Abs, Inv, Blank, NewInode, NewFile, Root;
      if kind != T_DIR && kind != T_FILE && kind != T_LNK {
        return Some(0);
      }
      LiveKeys(disk, forest);
      FullTable(disk);
      r := FindFreeInode();
      if r.None? {
        return;
      }
      InvNewInode(disk, forest, r.value, kind);
      NewIsBlank(r.value, kind);
      PutInode(r.value, NewInode(kind));
      forest := forest[r.value := NewFile(r.value, kind)];
    }

    method FreeInode(inum: nat)
      requires Synced() && 1 <= inum <= INODE_NUM
      modifies this`disk, bm.d.blocks
      ensures Synced()
      ensures disk == if old(disk).ino[inum].kind != 0 then Erase(old(disk), {inum}, {}) else old(disk)
    {
      var ino := GetInode(inum);
      if ino.value.kind != 0 {
        assert Storable(FREE_INODE);
        PutInode(inum, FREE_INODE);
        assert disk.ino == Erase(old(disk), {inum}, {}).ino;
        assert disk.data == Erase(old(disk), {inum}, {}).data;
      }
    }

    // -------------------------------------------------------------- write_file

    /** A new block with piece i of the buffer in it; 0 when no block is free. */
    method WritePiece(buf: seq<Byte>, i: nat) returns (id: nat)
      requires Synced() && i < Pieces(|buf|)
      modifies this`disk, bm.d.blocks
      ensures Synced()
      ensures old(disk).free == {} <==> id == 0
      ensures id == 0 ==> disk == old(disk)
      ensures id != 0 ==> id in old(disk).free
      ensures id != 0 ==>
                disk == old(disk).(free := old(disk).free - {id}, data := old(disk).data[id := Piece(buf, i)])
    {
      var size := |buf|;
      id := bm.AllocBlock();
      if id > 0 {
        var block;
        if BlockAt(i + 1) > size {
          block := buf[BlockAt(i)..] + Zeros(BlockAt(i + 1) - size);
        } else {
          block := buf[BlockAt(i)..BlockAt(i + 1)];
        }
        assert block == Piece(buf, i);
        bm.WriteBlock(id, block);
      }
      disk := bm.View();
    }

    /** WritePiece after the pieces before it: ids are the blocks taken since s0. */
    method WriteNextPiece(buf: seq<Byte>, i: nat, ghost s0: Store, ghost ids: seq<nat>) returns (id: nat)
      requires Valid() && Inv(s0, forest) && |ids| == i < Pieces(|buf|)
      requires DirectDone(s0, forest, disk, ids, buf)
      modifies this`disk, bm.d.blocks
      ensures Valid()
      ensures old(disk).free == {} <==> id == 0
      ensures id == 0 ==> disk == old(disk)
      ensures id != 0 ==> |disk.free| == |old(disk).free| - 1
      ensures id != 0 ==> DirectDone(s0, forest, disk, ids + [id], buf)
    {
      hide Abs, Inv, DirectDone, Piece;
      id := WritePiece(buf, i);
      if id != 0 {
        DirectStep(s0, forest, old(disk), ids, buf, id);
      }
    }

    /** The direct part of write_file: one new block per piece, up to NDIRECT of them. */
    method WriteDirect(ino: Inode, buf: seq<Byte>) returns (ok: bool, ino': Inode, ghost ids: seq<nat>)
      requires Valid()
      modifies this`disk, bm.d.blocks
      ensures Valid()
      ensures Spent(old(disk), forest, disk, forest, ok, Min(Pieces(|buf|), NDIRECT), 0)
      ensures ok ==> |ids| == Min(Pieces(|buf|), NDIRECT) && ino' == FillSlots(ino, ids)
      ensures ok ==> DirectDone(old(disk), forest, disk, ids, buf)
      ensures !ok ==> Exhausted(old(disk), forest, disk, forest)
    {
      hide Abs, Inv, DirectDone, FillSlots, SetSlot, Exhausted;
      ino', ids := ino, [];
      var i, cnt := 0, Min(Pieces(|buf|), NDIRECT);
      RoomLeft(disk, forest);
      FillNone(ino);
      DirectNone(disk, forest, buf);
      while i < cnt
        invariant 0 <= i <= cnt
        invariant Valid()
        invariant |disk.free| == |old(disk).free| - i
        invariant |ids| == i && ino' == FillSlots(ino, ids)
        invariant DirectDone(old(disk), forest, disk, ids, buf)
      {
        var id := WriteNextPiece(buf, i, old(disk), ids);
        if id == 0 {
          ExhaustedNow(disk, forest);
          DirectExhausted(old(disk), forest, disk, ids, buf, disk, forest);
          return false, ino', ids;
        }
        FillStep(ino, ids, id);
        ino' := SetSlot(ino', i, id);
        ids := ids + [id];
        i := i + 1;
      }
      ok := true;
    }

    /** One sub-inode of write_file: alloc_inode, then write_file of its share. */
    method WriteKid(buf: seq<Byte>, size: int) returns (ok: bool, k: nat)
      requires Valid()
      requires if size < 0 then buf == [] else |buf| == size
      modifies this, bm.d.blocks
      ensures Valid() && KeptBut(old(forest), forest, {})
      ensures Spent(old(disk), old(forest), disk, forest, ok, BlockCost(|buf|), 1 + InodeCost(|buf|))
      ensures ok ==> KidMade(old(disk), old(forest), disk, forest, k, buf)
      ensures !ok ==> Exhausted(old(disk), old(forest), disk, forest)
      decreases |buf|, 10
    {
      hide Abs, Inv, Wrote, KidMade, Exhausted, Spent, KeptBut, Allotted, Unlisted, Blank, BlockCost, InodeCost;
      var r := AllocInode(T_FILE);
      if r.None? {
        NoKid(disk, forest, BlockCost(|buf|), InodeCost(|buf|));
        return false, 0;
      }
      k := r.value;
      ghost var s1, f1 := disk, forest;
      ok := WriteFile(k, buf, size);
      KidSpent(old(disk), old(forest), s1, f1, disk, forest, k, ok, BlockCost(|buf|), InodeCost(|buf|));
      KidWritten(old(disk), old(forest), s1, f1, disk, forest, k, ok, buf, size);
    }

    /** WriteKid for sub-inode i, after the ones before it. */
    method WriteNextKid(buf: seq<Byte>, i: nat, ghost s0: Store, ghost f0: Forest, ghost kids: seq<File>)
      returns (ok: bool, k: nat)
      requires Valid() && |kids| == i < KidCount(|buf|)
      requires KidsDone(s0, f0, disk, forest, kids, buf)
      modifies this, bm.d.blocks
      ensures Valid() && KeptBut(old(forest), forest, {})
      ensures var n := ChunkLen(|buf|, i);
              Spent(old(disk), old(forest), disk, forest, ok, BlockCost(n), 1 + InodeCost(n))
      ensures ok ==> 1 <= k <= INODE_NUM && k in forest && forest[k].inum == k
      ensures ok ==> KidsDone(s0, f0, disk, forest, kids + [forest[k]], buf)
      ensures !ok ==> Exhausted(s0, f0, disk, forest)
      decreases |buf|, 1
    {
      hide Abs, Inv, KidsDone, KidMade, Exhausted, Spent, KeptBut, Chunk;
      ShareIsLen(|buf|, i);
      ok, k := WriteKid(Chunk(buf, i), Share(|buf|, i));
      if ok {
        LiveKeys(disk, forest);
        KidsStep(s0, f0, old(disk), old(forest), kids, buf, disk, forest, k);
      } else {
        KidsExhausted(s0, f0, old(disk), old(forest), kids, buf, disk, forest);
      }
    }

    /** The loop state of WriteKids: the first sub-inodes are made, listed and paid for. */
    static ghost predicate KidsLoop(s0: Store, f0: Forest, s: Store, f: Forest,
                                    numbers: seq<nat>, kids: seq<File>, buf: seq<Byte>)
    {
      && KidsDone(s0, f0, s, f, kids, buf)
      && numbers == Numbers(kids)
      && KeptBut(f0, f, {})
      && Paid(s0, f0, s, f, |buf|, |kids|)
    }

    static lemma KidsLoopStarts(s: Store, f: Forest, buf: seq<Byte>)
      ensures KidsLoop(s, f, s, f, [], [], buf)
    {
      KidsNone(s, f, buf);
    }

    static lemma KidsLoopKept(s0: Store, f0: Forest, s: Store, f: Forest, numbers: seq<nat>, kids: seq<File>, buf: seq<Byte>)
      requires KidsLoop(s0, f0, s, f, numbers, kids, buf)
      ensures KeptBut(f0, f, {}) && |numbers| == |kids|
    {
    }

    static lemma KidsLoopGrows(s0: Store, f0: Forest, s: Store, f: Forest,
                               numbers: seq<nat>, kids: seq<File>, t: File, buf: seq<Byte>)
      requires KidsDone(s0, f0, s, f, kids + [t], buf)
      requires numbers == Numbers(kids) && KeptBut(f0, f, {}) && Paid(s0, f0, s, f, |buf|, |kids| + 1)
      ensures KidsLoop(s0, f0, s, f, numbers + [t.inum], kids + [t], buf)
    {
      NumbersStep(kids, t);
    }

    /** The next sub-inode, with its number added to the list. */
    method WriteListedKid(buf: seq<Byte>, i: nat, numbers: seq<nat>, ghost s0: Store, ghost f0: Forest, ghost kids: seq<File>)
      returns (ok: bool, numbers': seq<nat>, ghost kids': seq<File>)
      requires Valid() && |kids| == i < KidCount(|buf|)
      requires KidsLoop(s0, f0, disk, forest, numbers, kids, buf)
      modifies this, bm.d.blocks
      ensures Valid() && KeptBut(f0, forest, {})
      ensures |kids'| == if ok then i + 1 else i
      ensures ok ==> KidsLoop(s0, f0, disk, forest, numbers', kids', buf)
      ensures !ok ==> Short(s0, f0, |buf|) && Exhausted(s0, f0, disk, forest)
      decreases |buf|, 2
    {
      hide Abs, Inv, KidsDone, KeptBut, Paid, Short, Spent, Exhausted, Numbers;
      var k;
      ok, k := WriteNextKid(buf, i, s0, f0, kids);
      KeptTrans(f0, old(forest), forest, {});
      PaidStep(s0, f0, old(disk), old(forest), disk, forest, ok, |buf|, i);
      numbers', kids' := numbers, kids;
      if ok {
        KidsLoopGrows(s0, f0, disk, forest, numbers, kids, forest[k], buf);
        numbers', kids' := numbers + [k], kids + [forest[k]];
      }
    }

    /** The loop over the sub-inodes 0..LAST-1 of write_file, which runs at least once. */
    method WriteFrontKids(buf: seq<Byte>) returns (ok: bool, numbers: seq<nat>, ghost kids: seq<File>)
      requires Valid() && |buf| > CHUNK
      modifies this, bm.d.blocks
      ensures Valid() && KeptBut(old(forest), forest, {})
      ensures ok ==> |numbers| == |kids| == Min(KidCount(|buf|), LAST)
      ensures ok ==> KidsLoop(old(disk), old(forest), disk, forest, numbers, kids, buf)
      ensures !ok ==> Short(old(disk), old(forest), |buf|) && Exhausted(old(disk), old(forest), disk, forest)
      decreases |buf|, 3
    {
      var size := |buf|;
      numbers, kids := [], [];
      var i := 0;
      KidsLoopStarts(disk, forest, buf);
      hide Abs, KidsLoop, Inv;
      KidCountStep(size, 0);
      while true
        invariant i < KidCount(size) && i < LAST && |kids| == i
        invariant Valid()
        invariant KidsLoop(old(disk), old(forest), disk, forest, numbers, kids, buf)
        decreases LAST - i
      {
        ok, numbers, kids := WriteListedKid(buf, i, numbers, old(disk), old(forest), kids);
        if !ok {
          return;
        }
        i := i + 1;
        KidCountStep(size, i);
        if !(size > ChunkAt(i + 1) && i < LAST) {
          break;
        }
      }
      KidsLoopKept(old(disk), old(forest), disk, forest, numbers, kids, buf);
    }

    /** The sub-inodes of write_file: one per chunk, LAST of them at most, and then one for
        all the rest; their numbers in order (the source's array without its zero padding). */
    method WriteKids(buf: seq<Byte>) returns (ok: bool, numbers: seq<nat>, ghost kids: seq<File>)
      requires Valid() && |buf| > CHUNK
      modifies this, bm.d.blocks
      ensures Valid() && KeptBut(old(forest), forest, {})
      ensures ok ==> |kids| == KidCount(|buf|)
      ensures ok ==> KidsLoop(old(disk), old(forest), disk, forest, numbers, kids, buf)
      ensures !ok ==> Short(old(disk), old(forest), |buf|) && Exhausted(old(disk), old(forest), disk, forest)
      decreases |buf|, 4
    {
      ok, numbers, kids := WriteFrontKids(buf);
      var i := |numbers|;
      KidCountStep(|buf|, i);
      if ok && i == LAST {
        ok, numbers, kids := WriteListedKid(buf, i, numbers, old(disk), old(forest), kids);
      }
    }

    /** The table block of write_file, allocated first and written last. */
    method WriteTable(buf: seq<Byte>) returns (ok: bool, id: nat, ghost kids: seq<File>)
      requires Valid() && |buf| > CHUNK
      modifies this, bm.d.blocks
      ensures Valid() && KeptBut(old(forest), forest, {})
      ensures var n := |buf|;
              Spent(old(disk), old(forest), disk, forest, ok, 1 + KidBlockCost(n, KidCount(n)), KidInodeCost(n, KidCount(n)))
      ensures ok ==> TableDone(old(disk), old(forest), disk, forest, id, kids, buf)
      ensures !ok ==> Exhausted(old(disk), old(forest), disk, forest)
      decreases |buf|, 5
    {
      id := bm.AllocBlock();
      disk := bm.View();
      if id == 0 {
        ExhaustedNow(disk, forest);
        return false, id, [];
      }
      GrownAlloc(old(disk), forest, id);
      ghost var s1 := disk;
      var numbers;
      ok, numbers, kids := WriteKids(buf);
      RoomLeft(disk, forest);
      TableSpent(old(disk), old(forest), id, disk, forest, ok, |buf|);
      if ok {
        StoreTable(id, numbers, buf, old(disk), old(forest), kids);
      } else {
        ExhaustedAfter(old(disk), old(forest), s1, old(forest), disk, forest, {}, {id});
      }
    }

    method StoreTable(id: nat, numbers: seq<nat>, buf: seq<Byte>, ghost s0: Store, ghost f0: Forest, ghost kids: seq<File>)
      requires Valid() && Inv(s0, f0) && id in s0.free && id != 0
      requires KidsDone(s0.(free := s0.free - {id}), f0, disk, forest, kids, buf) && |kids| == KidCount(|buf|)
      requires numbers == Numbers(kids)
      modifies this`disk, bm.d.blocks
      ensures Valid() && disk.free == old(disk).free
      ensures TableDone(s0, f0, disk, forest, id, kids, buf)
    {
      hide Inv, KidsDone, TableDone, Pack, TableOf, Numbers, AllWords;
      TableStored(s0, f0, disk, forest, id, kids, buf);
      bm.WriteBlock(id, Pack(TableOf(numbers)));
      disk := bm.View();
    }

    /** The part of write_file between the direct blocks and the final put_inode. */
    method WriteRest(inum: nat, ino: Inode, buf: seq<Byte>, ghost s0: Store, ghost ids: seq<nat>)
      returns (ok: bool, ino': Inode, ghost t: File)
      requires Valid() && Inv(s0, forest) && Root(forest, inum) && inum <= INODE_NUM
      requires |ids| == Min(Pieces(|buf|), NDIRECT) && ino == FillSlots(s0.ino[inum], ids)
      requires DirectDone(s0, forest, disk, ids, buf)
      modifies this, bm.d.blocks
      ensures Valid() && KeptBut(old(forest), forest, {})
      ensures var n := |buf|;
              Spent(old(disk), old(forest), disk, forest, ok, RestCost(n), InodeCost(n))
      ensures ok ==> Ready(s0, old(forest), disk, forest, inum, ino', t, buf)
      ensures !ok ==> Exhausted(s0, old(forest), disk, forest)
      decreases |buf|, 6
    {
      PiecesBounds(|buf|);
      CostParts(|buf|);
      if |buf| > CHUNK {
        var id;
        ghost var kids;
        ok, id, kids := WriteTable(buf);
        ino' := SetSlot(ino, NDIRECT, id).(size := NDIRECT + 1);
        if ok {
          t := BuiltFile(inum, ino.kind, ids, id, kids, buf);
          LargeReady(s0, old(forest), old(disk), disk, forest, inum, ino', ids, id, kids, buf, t);
        } else {
          t := NewFile(0, 0);
          DirectExhausted(s0, old(forest), old(disk), ids, buf, disk, forest);
        }
      } else {
        RoomLeft(disk, forest);
        ok := true;
        ino' := ino.(size := Pieces(|buf|));
        t := BuiltFile(inum, ino.kind, ids, 0, [], buf);
        SmallReady(s0, forest, disk, inum, ino', ids, buf);
      }
    }

    /** write_file up to the final put_inode: everything new is in place, the inode is not. */
    method BuildFile(inum: nat, buf: seq<Byte>) returns (ok: bool, ino: Inode, ghost t: File)
      requires Valid() && Root(forest, inum)
      modifies this, bm.d.blocks
      ensures Valid() && KeptBut(old(forest), forest, {})
      ensures Spent(old(disk), old(forest), disk, forest, ok, BlockCost(|buf|), InodeCost(|buf|))
      ensures ok ==> Ready(old(disk), old(forest), disk, forest, inum, ino, t, buf)
      ensures !ok ==> Exhausted(old(disk), old(forest), disk, forest)
      decreases |buf|, 7
    {
      hide Abs, Inv, Ready, DirectDone, Exhausted, Spent, FillSlots, NodeOf, Unlisted, RestCost, BlockCost, InodeCost;
      RoomLeft(disk, forest);
      CostParts(|buf|);
      NodeAt(disk, forest, inum);
      var r := GetInode(inum);
      var direct;
      ghost var ids;
      ok, t := true, NewFile(0, 0);
      direct, ino, ids := WriteDirect(r.value, buf);
      ghost var s1, f1 := disk, forest;
      if direct {
        ok, ino, t := WriteRest(inum, ino, buf, old(disk), ids);
      }
      SpentJoin(old(disk), old(forest), s1, f1, disk, forest, direct, ok,
                Min(Pieces(|buf|), NDIRECT), 0, RestCost(|buf|), InodeCost(|buf|));
      ok := direct && ok;
    }

    /** The final put_inode of write_file. */
    method PutBuilt(inum: nat, ino: Inode, buf: seq<Byte>, ghost s0: Store, ghost f0: Forest, ghost t: File)
      requires Valid() && Ready(s0, f0, disk, forest, inum, ino, t, buf)
      modifies this, bm.d.blocks
      ensures Valid()
      ensures Wrote(s0, f0, disk, forest, inum, buf) && Root(forest, inum)
      ensures forest == old(forest)[inum := t] && disk.free == old(disk).free
    {
      hide Abs, Inv, Ready, Wrote, Unlisted, Storable, NodeOf;
      FinishWrite(s0, f0, disk, forest, inum, ino, t, buf);
      PutInode(inum, ino);
      forest := forest[inum := t];
    }

    method WriteBuffer(inum: nat, buf: seq<Byte>) returns (ok: bool)
      requires Valid() && Root(forest, inum)
      modifies this, bm.d.blocks
      ensures Valid()
      ensures KeptBut(old(forest), forest, if ok then {inum} else {})
      ensures Spent(old(disk), old(forest), disk, forest, ok, BlockCost(|buf|), InodeCost(|buf|))
      ensures ok ==> Wrote(old(disk), old(forest), disk, forest, inum, buf) && Root(forest, inum)
      ensures !ok ==> Exhausted(old(disk), old(forest), disk, forest)
      decreases |buf|, 8
    {
      var ino;
      ghost var t;
      ok, ino, t := BuildFile(inum, buf);
      if ok {
        KeptThroughPut(old(forest), forest, inum, t);
        PutBuilt(inum, ino, buf, old(disk), old(forest), t);
      }
    }

    /** write_file: the buffer goes to new direct blocks and, beyond CHUNK bytes, to new
        sub-inodes; the blocks the inode had before are not given back. */
    method WriteFile(inum: nat, buf: seq<Byte>, size: int) returns (ok: bool)
      requires Valid() && Root(forest, inum)
      requires if size < 0 then buf == [] else |buf| == size
      modifies this, bm.d.blocks
      ensures Valid()
      ensures KeptBut(old(forest), forest, if ok then {inum} else {})
      ensures size < 0 ==> ok && disk == old(disk) && forest == old(forest)
      ensures Spent(old(disk), old(forest), disk, forest, ok, BlockCost(|buf|), InodeCost(|buf|))
      ensures ok && size >= 0 ==> Wrote(old(disk), old(forest), disk, forest, inum, buf)
      ensures ok ==> Root(forest, inum)
      ensures !ok ==> Exhausted(old(disk), old(forest), disk, forest)
      decreases |buf|, 9
    {
      RoomLeft(disk, forest);
      CostParts(|buf|);
      if size < 0 {
        return true;
      }
      ok := WriteBuffer(inum, buf);
    }

    // -------------------------------------------------------------- readers

    method ReadData(id: nat) returns (b: Block)
      requires Synced() && id in disk.data
      ensures b == disk.data[id]
    {
      b := bm.ReadBlock(id);
    }

    /** What the readers need of Valid(). */
    ghost predicate Readable()
      reads this, bm.d.blocks
    {
      Synced() && Mapped(disk, forest)
    }

    /** The entries of the table block of an inode whose table is in use. */
    method ReadTable(ino: Inode, ghost t: File) returns (inums: seq<nat>)
      requires Synced() && NodeOf(disk, ino, t) && ino.size > NDIRECT
      ensures Listed(inums, t.kids) && |inums| == TABLE_LEN
    {
      var buf := ReadData(ino.blocks[NDIRECT]);
      inums := Unpack(buf, 0, TABLE_LEN);
    }

    /** The record of an inode with the tree it stands for; an inode not in use is empty. */
    method GetFile(inum: nat) returns (ino: Inode, ghost t: File)
      requires Readable() && 1 <= inum <= INODE_NUM
      ensures ino == disk.ino[inum] && t == TreeAt(forest, inum)
      ensures inum in forest ==> NodeOf(disk, ino, t) && KidsIn(forest, t.kids)
      ensures inum !in forest ==> ino.size == 0
    {
      var r := GetInode(inum);
      ino := r.value;
      t := TreeAt(forest, inum);
      assert inum in forest <==> inum in Live(disk);
    }

    method ReadDirect(ino: Inode, ghost t: File) returns (out: seq<Byte>)
      requires Synced() && NodeOf(disk, ino, t)
      ensures out == Flat(t.blocks, |t.blocks|)
    {
      out := [];
      var i := 0;
      while i < Min(ino.size, NDIRECT)
        invariant 0 <= i <= |t.blocks|
        invariant out == Flat(t.blocks, i)
      {
        assert t.ids[i] == ino.blocks[i];
        var buf := ReadData(ino.blocks[i]);
        out := out + buf;
        i := i + 1;
      }
    }

    /** Drops trailing zero bytes. */
    method Adjust(buf: seq<Byte>) returns (out: seq<Byte>)
      ensures out == Strip(buf)
    {
      var size := |buf|;
      while size > 0 && buf[size - 1] == 0
        invariant 0 <= size <= |buf|
        invariant Significant(buf, |buf|) == Significant(buf, size)
      {
        size := size - 1;
      }
      out := buf[..size];
    }

    /** read_file: the bytes of a file without trailing zeros; empty for an inode not in use. */
    method ReadFile(inum: nat) returns (out: seq<Byte>)
      requires Readable()
      ensures out == Read(TreeAt(forest, inum))
      decreases TreeAt(forest, inum), 1
    {
      if inum < 1 || inum > INODE_NUM {
        assert inum !in Live(disk);
        EmptyFile(inum, 0);
        return [];
      }
      var ino;
      ghost var t;
      ino, t := GetFile(inum);
      if ino.size == 0 {
        EmptyTree(disk, forest, inum);
        return [];
      }
      out := ReadDirect(ino, t);
      if ino.size > NDIRECT {
        var inums := ReadTable(ino, t);
        var indirect := ReadIndirect(inums, t);
        out := out + indirect;
      } else {
        assert ReadKids(t, 0) == [];
        assert out + [] == out;
      }
      out := Adjust(out);
    }

    /** Every listed sub-inode, one after the other. */
    method ReadIndirect(inums: seq<nat>, ghost t: File) returns (out: seq<Byte>)
      requires Readable() && KidsIn(forest, t.kids) && Listed(inums, t.kids) && |inums| == TABLE_LEN
      ensures out == ReadKids(t, |t.kids|)
      decreases t, 0
    {
      hide Abs, Mapped, KidsIn, TreeAt, Listed, NodeOf, FileTree.Read;
      ListedLen(inums, t.kids);
      out := [];
      var i := 0;
      while i < TABLE_LEN
        invariant 0 <= i <= |t.kids|
        invariant out == ReadKids(t, i)
        decreases TABLE_LEN - i
      {
        ListedAt(inums, t.kids, i);
        if inums[i] == 0 {
          break;
        }
        KidTree(disk, forest, t, i);
        var one := ReadFile(inums[i]);
        out := out + one;
        i := i + 1;
      }
    }

    /** Index of the last non-zero byte of a block, 0 when it is all zero. */
    method LastNonZeroIndex(id: nat) returns (i: nat)
      requires Synced() && id in disk.data
      ensures i == LastNonZero(disk.data[id])
    {
      var block := ReadData(id);
      var j := BLOCK_SIZE;
      while j > 0
        invariant 0 <= j <= BLOCK_SIZE
        invariant Significant(block, BLOCK_SIZE) == Significant(block, j)
      {
        if block[j - 1] != 0 {
          return j - 1;
        }
        j := j - 1;
      }
      i := 0;
    }

    /** get_file_size */
    method GetFileSize(inum: nat) returns (size: nat)
      requires Readable() && 1 <= inum <= INODE_NUM
      ensures size == FileSize(TreeAt(forest, inum))
      decreases TreeAt(forest, inum), 1
    {
      hide Abs, Mapped, KidsIn, Listed, KidSizes, LastNonZero;
      var ino;
      ghost var t;
      ino, t := GetFile(inum);
      if ino.size == 0 {
        size := 0;
      } else if ino.size < NDIRECT + 1 {
        assert t.ids[ino.size - 1] == ino.blocks[ino.size - 1];
        var last := LastNonZeroIndex(ino.blocks[ino.size - 1]);
        size := BlockAt(ino.size - 1) + last + 1;
      } else {
        var inums := ReadTable(ino, t);
        var indirect := GetKidSizes(inums, t);
        size := CHUNK + indirect;
      }
    }

    method GetKidSizes(inums: seq<nat>, ghost t: File) returns (size: nat)
      requires Readable() && KidsIn(forest, t.kids) && Listed(inums, t.kids) && |inums| == TABLE_LEN
      ensures size == KidSizes(t, |t.kids|)
      decreases t, 0
    {
      hide Abs, Mapped, KidsIn, TreeAt, Listed, NodeOf, FileSize;
      ListedLen(inums, t.kids);
      size := 0;
      var i := 0;
      while i < TABLE_LEN
        invariant 0 <= i <= |t.kids|
        invariant size == KidSizes(t, i)
        decreases TABLE_LEN - i
      {
        ListedAt(inums, t.kids, i);
        if inums[i] == 0 {
          break;
        }
        KidTree(disk, forest, t, i);
        var one := GetFileSize(inums[i]);
        size := size + one;
        i := i + 1;
      }
    }

    /** get_file_block_num */
    method GetFileBlockNum(inum: nat) returns (num: nat)
      requires Readable() && 1 <= inum <= INODE_NUM
      ensures num == BlockNum(TreeAt(forest, inum))
      decreases TreeAt(forest, inum), 1
    {
      var ino;
      ghost var t;
      ino, t := GetFile(inum);
      if ino.size < NDIRECT + 1 {
        num := ino.size;
      } else {
        var inums := ReadTable(ino, t);
        var indirect := GetKidBlockNums(inums, t);
        num := NDIRECT + indirect;
      }
    }

    method GetKidBlockNums(inums: seq<nat>, ghost t: File) returns (num: nat)
      requires Readable() && KidsIn(forest, t.kids) && Listed(inums, t.kids) && |inums| == TABLE_LEN
      ensures num == KidBlockNums(t, |t.kids|)
      decreases t, 0
    {
      hide Abs, Mapped, KidsIn, TreeAt, Listed, NodeOf, BlockNum;
      ListedLen(inums, t.kids);
      num := 0;
      var i := 0;
      while i < TABLE_LEN
        invariant 0 <= i <= |t.kids|
        invariant num == KidBlockNums(t, i)
        decreases TABLE_LEN - i
      {
        ListedAt(inums, t.kids, i);
        if inums[i] == 0 {
          break;
        }
        KidTree(disk, forest, t, i);
        var one := GetFileBlockNum(inums[i]);
        num := num + one;
        i := i + 1;
      }
    }

    /** read_blockid: the data blocks in order; nothing for a number that is no inode. */
    method ReadBlockIds(inum: nat) returns (ids: seq<nat>)
      requires Readable()
      ensures ids == BlockIds(TreeAt(forest, inum))
      decreases TreeAt(forest, inum), 1
    {
      ids := [];
      if inum < 1 || inum > INODE_NUM {
        assert inum !in Live(disk);
        assert KidBlockIds(NewFile(inum, 0), 0) == [];
        return;
      }
      var ino;
      ghost var t;
      ino, t := GetFile(inum);
      if ino.size == 0 {
        EmptyTree(disk, forest, inum);
        return;
      }
      ids := ReadDirectIds(ino, t);
      if ino.size > NDIRECT {
        var inums := ReadTable(ino, t);
        var indirect := ReadKidBlockIds(inums, t);
        ids := ids + indirect;
      } else {
        assert KidBlockIds(t, 0) == [];
      }
    }

    method ReadDirectIds(ino: Inode, ghost t: File) returns (ids: seq<nat>)
      requires NodeOf(disk, ino, t)
      ensures ids == t.ids
    {
      ids := [];
      var i := 0;
      while i < Min(ino.size, NDIRECT)
        invariant 0 <= i <= |t.ids|
        invariant ids == t.ids[..i]
      {
        ids := ids + [ino.blocks[i]];
        i := i + 1;
      }
    }

    method ReadKidBlockIds(inums: seq<nat>, ghost t: File) returns (ids: seq<nat>)
      requires Readable() && KidsIn(forest, t.kids) && Listed(inums, t.kids) && |inums| == TABLE_LEN
      ensures ids == KidBlockIds(t, |t.kids|)
      decreases t, 0
    {
      hide Abs, Mapped, KidsIn, TreeAt, Listed, NodeOf, BlockIds;
      ListedLen(inums, t.kids);
      ids := [];
      var i := 0;
      while i < TABLE_LEN
        invariant 0 <= i <= |t.kids|
        invariant ids == KidBlockIds(t, i)
        decreases TABLE_LEN - i
      {
        ListedAt(inums, t.kids, i);
        if inums[i] == 0 {
          break;
        }
        KidTree(disk, forest, t, i);
        var one := ReadBlockIds(inums[i]);
        ids := ids + one;
        i := i + 1;
      }
    }

    /** ino_next_block: on a packed tree, block i by index is entry i of the listing. */
    method InoNextBlock(inum: nat, iter: nat) returns (id: nat)
      requires Readable() && inum in forest && Packed(forest[inum]) && iter < |BlockIds(forest[inum])|
      ensures id == BlockIds(forest[inum])[iter]
      decreases TreeAt(forest, inum)
    {
      hide Abs, Mapped, KidsIn, Listed, Packed, BlockIds;
      MappedRange(disk, forest, inum);
      var ino;
      ghost var t;
      ino, t := GetFile(inum);
      if iter < NDIRECT {
        FrontIds(t, iter);
        id := ino.blocks[iter];
      } else {
        NextSlot(disk, forest, t, iter);
        var inums := ReadTable(ino, t);
        var slot := Min((iter - 100) / 100, LAST);
        ListedAt(inums, t.kids, slot);
        id := InoNextBlock(inums[slot], iter - 100 * (slot + 1));
      }
    }

    // -------------------------------------------------------------- remove_file

    method FreeBlock(id: nat, ghost s0: Store, ghost I: set<nat>, ghost B: set<nat>)
      requires Synced() && disk == Erase(s0, I, B) && id in s0.data && id !in s0.free
      modifies this`disk, bm.d.blocks
      ensures Synced() && disk == Erase(s0, I, B + {id})
    {
      assert id in disk.data;
      FreeOne(s0, I, B, id);
      bm.FreeBlock(id);
      disk := bm.View();
    }

    /** Frees the direct blocks of an inode up to its first zero pointer. */
    method RemoveDirect(inum: nat, ino: Inode, ghost s0: Store, ghost f0: Forest, ghost I: set<nat>, ghost B: set<nat>)
      requires Synced() && disk == Erase(s0, I, B)
      requires Inv(s0, f0) && inum in f0 && inum <= INODE_NUM && ino == s0.ino[inum]
      modifies this`disk, bm.d.blocks
      ensures Synced() && disk == Erase(s0, I, B + Released(ino))
    {
      hide Abs, Inv, Erase, Released, ReleasedUpTo;
      var i := 0;
      NoneReleased(ino, B);
      while i < NDIRECT
        invariant 0 <= i <= NDIRECT
        invariant RunLen(ino.blocks, 0) == RunLen(ino.blocks, i)
        invariant Synced() && disk == Erase(s0, I, B + ReleasedUpTo(ino, i))
      {
        if ino.blocks[i] == 0 {
          break;
        }
        FreeNext(inum, ino, i, s0, f0, I, B);
        i := i + 1;
      }
      RunEnds(ino, i);
    }

    method FreeNext(inum: nat, ino: Inode, i: nat, ghost s0: Store, ghost f0: Forest, ghost I: set<nat>, ghost B: set<nat>)
      requires Synced() && i < NDIRECT && disk == Erase(s0, I, B + ReleasedUpTo(ino, i))
      requires Inv(s0, f0) && inum in f0 && inum <= INODE_NUM && ino == s0.ino[inum] && ino.blocks[i] != 0
      modifies this`disk, bm.d.blocks
      ensures Synced() && disk == Erase(s0, I, B + ReleasedUpTo(ino, i + 1))
      ensures RunLen(ino.blocks, i) == RunLen(ino.blocks, i + 1)
    {
      hide Abs, Inv, Erase, RunLen;
      PointerInUse(s0, f0, inum, i);
      RunGoesOn(ino, i);
      assert B + ReleasedUpTo(ino, i) + {ino.blocks[i]} == B + ReleasedUpTo(ino, i + 1);
      FreeBlock(ino.blocks[i], s0, I, B + ReleasedUpTo(ino, i));
    }

    /** remove_file. The removal started in state (s0, f0); the inodes I and the blocks B are gone
        already, and the tree of inum is untouched. */
    method RemoveFile(inum: nat, ghost s0: Store, ghost f0: Forest, ghost I: set<nat>, ghost B: set<nat>)
      requires Synced() && disk == Erase(s0, I, B)
      requires Inv(s0, f0) && B <= ReleasedBy(s0, f0.Keys)
      requires 1 <= inum <= INODE_NUM && (inum in f0 ==> Inums(f0[inum]) !! I)
      modifies this`disk, bm.d.blocks
      ensures Synced()
      ensures inum in f0 ==> disk == Gone(s0, I, B, Inums(f0[inum]))
      ensures inum !in f0 ==> disk == old(disk)
      decreases TreeAt(f0, inum), 1
    {
      if inum in f0 {
        NotYetGone(s0, f0, I, B, inum);
      }
      var r := GetInode(inum);
      var ino := r.value;
      if ino.kind == 0 {
        return;
      }
      LiveStill(s0, f0, I, B, inum);
      RemoveDirect(inum, ino, s0, f0, I, B);
      ghost var C := B + Released(ino);
      KidsReady(s0, f0, I, B, inum);
      if ino.size > NDIRECT {
        var buf := ReadData(ino.blocks[NDIRECT]);
        RemoveKids(inum, Unpack(buf, 0, TABLE_LEN), s0, f0, I, C);
      }
      ParentUntouched(f0, inum);
      RemovalAddsUp(s0, f0, inum, I, B);
      FreeInode(inum);
    }

    method RemoveKids(inum: nat, inums: seq<nat>, ghost s0: Store, ghost f0: Forest, ghost I: set<nat>, ghost B: set<nat>)
      requires Synced() && inum in f0 && disk == Gone(s0, I, B, KidInums(f0[inum], 0))
      requires Inv(s0, f0) && B <= ReleasedBy(s0, f0.Keys)
      requires Inums(f0[inum]) !! I
      requires Listed(inums, f0[inum].kids) && |inums| == TABLE_LEN
      modifies this`disk, bm.d.blocks
      ensures Synced()
      ensures disk == Gone(s0, I, B, KidInums(f0[inum], |f0[inum].kids|))
      decreases TreeAt(f0, inum), 0
    {
      hide Abs, Inv, Gone, NodeOf, Inums, KidInums, ReleasedBy;
      ghost var t := f0[inum];
      var i := 0;
      while i < TABLE_LEN
        invariant 0 <= i <= |t.kids|
        invariant Synced()
        invariant disk == Gone(s0, I, B, KidInums(t, i))
        decreases TABLE_LEN - i
      {
        ListedAt(inums, t.kids, i);
        if inums[i] == 0 {
          break;
        }
        KidsLive(s0, f0, inum, i);
        RemoveKid(inum, i, inums[i], s0, f0, I, B);
        i := i + 1;
      }
    }

    /** Sub-inode i, after the ones before it. */
    method RemoveKid(inum: nat, i: nat, kid: nat, ghost s0: Store, ghost f0: Forest, ghost I: set<nat>, ghost B: set<nat>)
      requires Inv(s0, f0) && B <= ReleasedBy(s0, f0.Keys)
      requires inum in f0 && Inums(f0[inum]) !! I && i < |f0[inum].kids| && kid == f0[inum].kids[i].inum
      requires Synced()
      requires disk == Gone(s0, I, B, KidInums(f0[inum], i))
      modifies this`disk, bm.d.blocks
      ensures Synced()
      ensures disk == Gone(s0, I, B, KidInums(f0[inum], i + 1))
      decreases TreeAt(f0, kid), 2
    {
      ghost var K := KidInums(f0[inum], i);
      KidUntouched(f0, inum, i, I);
      KidsLive(s0, f0, inum, i);
      ReleasedByGrows(s0, K, f0.Keys);
      RemoveFile(kid, s0, f0, I + K, B + ReleasedBy(s0, K));
      GoneTrans(s0, I, B, K, Inums(f0[kid]));
    }

    /** extent_server::remove: the file of a root goes, with all its sub-inodes; an inode that is
        not in use is left alone. */
    method Remove(inum: nat)
      requires Valid() && 1 <= inum <= INODE_NUM && (inum in forest ==> Root(forest, inum))
      modifies this, bm.d.blocks
      ensures Valid()
      ensures inum in old(forest) ==>
                && disk == Removed(old(disk), old(forest)[inum])
                && forest == old(forest) - Inums(old(forest)[inum])
                && forall q :: Root(old(forest), q) && q != inum ==> Root(forest, q)
      ensures inum !in old(forest) ==> disk == old(disk) && forest == old(forest)
    {
      EraseNothing(disk);
      if inum in forest {
        RemovalIsGone(disk, forest, inum);
      }
      RemoveFile(inum, disk, forest, {}, {});
      if inum in forest {
        forest := forest - Inums(forest[inum]);
      }
    }

    // -------------------------------------------------------------- set_attr

    /** set_attr for a size within the direct blocks and not above the reported one: nothing when
        it is the reported size, else padding_file, which keeps whole blocks. */
    method SetAttr(inum: nat, size: nat)
      requires Valid() && Root(forest, inum)
      requires size <= FileSize(forest[inum]) && size <= CHUNK
      modifies this, bm.d.blocks
      ensures Valid()
      ensures Pieces(size) <= |old(forest)[inum].ids| && |old(forest)[inum].blocks| == |old(forest)[inum].ids|
      ensures forest == if size < FileSize(old(forest)[inum])
                        then old(forest)[inum := CutFile(old(forest)[inum], Pieces(size))] else old(forest)
      ensures inum <= INODE_NUM
      ensures disk == if size < FileSize(old(forest)[inum]) then Resized(old(disk), inum, Pieces(size)) else old(disk)
      ensures forall r :: Root(old(forest), r) ==> Root(forest, r)
    {
      hide Abs, Inv, Mapped, Formed, FileSize, NodeOf, Unlisted;
      NodeAt(disk, forest, inum);
      InvMapped(disk, forest);
      TreeFormed(disk, forest, inum);
      CutFits(forest[inum], size);
      var attrSize := GetFileSize(inum);
      if attrSize > size {
        PaddingFile(inum, size);
      }
    }

    /** padding_file where no block has to be added: only `size` changes. */
    method PaddingFile(inum: nat, size: nat)
      requires Valid() && Root(forest, inum) && Pieces(size) <= |forest[inum].ids|
      modifies this, bm.d.blocks
      ensures Valid() && Pieces(size) <= |old(forest)[inum].blocks|
      ensures forest == old(forest)[inum := CutFile(old(forest)[inum], Pieces(size))]
      ensures inum <= INODE_NUM && disk == Resized(old(disk), inum, Pieces(size))
      ensures forall r :: Root(old(forest), r) ==> Root(forest, r)
    {
      assert inum in Live(disk);
      CutKeepsInv(disk, forest, inum, Pieces(size));
      var r := GetInode(inum);
      PutInode(inum, r.value.(size := Pieces(size)));
      forest := forest[inum := CutFile(forest[inum], Pieces(size))];
    }

    // -------------------------------------------------------------- directories

    /** add_to_dir below NDIRECT entries; nothing for a number that is no directory. */
    method AddToDir(parent: nat, inum: nat, name: seq<Byte>) returns (ok: bool, ghost id: nat)
      requires Valid() && inum < U32_LIMIT
      requires parent in forest && forest[parent].kind == T_DIR ==>
                 Root(forest, parent) && forest[parent].size < NDIRECT && |name| <= BLOCK_SIZE - 4
      modifies this, bm.d.blocks
      ensures Valid()
      ensures parent in old(forest) && old(forest)[parent].kind == T_DIR ==>
                && (ok <==> old(disk).free != {})
                && (ok ==> id in old(disk).free && parent <= INODE_NUM && Appended(old(disk), disk, parent, id))
                && (ok ==> forest == old(forest)[parent := AppendEntry(old(forest)[parent], id, EntryBlock(inum, name))])
                && (!ok ==> disk == old(disk) && forest == old(forest))
      ensures !(parent in old(forest) && old(forest)[parent].kind == T_DIR) ==> ok && disk == old(disk) && forest == old(forest)
      ensures forall r :: Root(old(forest), r) ==> Root(forest, r)
    {
      if parent < 1 || parent > INODE_NUM {
        assert parent !in Live(disk);
        return true, 0;
      }
      var ino;
      ghost var t;
      ino, t := GetFile(parent);
      if ino.kind != T_DIR {
        assert parent in Live(disk) ==> forest[parent].kind == ino.kind;
        return true, 0;
      }
      assert parent in Live(disk);
      var got := AppendBlock(parent, ino, EntryBlock(inum, name));
      ok, id := got != 0, got;
    }

    /** A new block with the given contents that nothing points at yet. */
    method TakeBlock(b: Block) returns (id: nat)
      requires Valid()
      modifies this`disk, bm.d.blocks
      ensures Valid()
      ensures id == 0 <==> old(disk).free == {}
      ensures id == 0 ==> disk == old(disk)
      ensures id != 0 ==>
                && id in old(disk).free && id in old(disk).data
                && disk == old(disk).(free := old(disk).free - {id}, data := old(disk).data[id := b])
                && Reserved(disk, {id})
    {
      id := bm.AllocBlock();
      disk := bm.View();
      if id != 0 {
        TakeAndFill(old(disk), forest, id, b);
        bm.WriteBlock(id, b);
        disk := bm.View();
      }
    }

    method AppendBlock(parent: nat, ino: Inode, b: Block) returns (id: nat)
      requires Valid() && Root(forest, parent) && parent <= INODE_NUM && ino == disk.ino[parent] && forest[parent].size < NDIRECT
      modifies this, bm.d.blocks
      ensures Valid()
      ensures id == 0 <==> old(disk).free == {}
      ensures id == 0 ==> disk == old(disk) && forest == old(forest)
      ensures id != 0 ==> id in old(disk).free && Appended(old(disk), disk, parent, id)
      ensures id != 0 ==> forest == old(forest)[parent := AppendEntry(old(forest)[parent], id, b)]
      ensures forall r :: Root(old(forest), r) ==> Root(forest, r)
    {
      hide Abs, Inv, AppendSlot, AppendEntry, Reserved, Storable, Unlisted;
      NodeAt(disk, forest, parent);
      id := TakeBlock(b);
      if id != 0 {
        AppendKeepsInv(disk, forest, parent, id, b);
        PutInode(parent, AppendSlot(ino, id));
        forest := forest[parent := AppendEntry(forest[parent], id, b)];
      }
    }

    /** read_dir: the entries of a directory; nothing for what is no directory. */
    method ReadDir(inum: nat) returns (l: seq<Entry>)
      requires Readable()
      ensures l == Listing(TreeAt(forest, inum))
      decreases TreeAt(forest, inum), 1
    {
      hide Abs, Mapped, KidsIn, Listed, EntryOf;
      MappedRange(disk, forest, inum);
      if inum < 1 || inum > INODE_NUM {
        return [];
      }
      var ino;
      ghost var t;
      ino, t := GetFile(inum);
      KindOf(disk, forest, inum);
      if ino.kind != T_DIR {
        return [];
      }
      l := ReadEntries(ino, t);
      if ino.size > NDIRECT {
        var inums := ReadTable(ino, t);
        var indirect := ReadKidDirs(inums, t);
        l := l + indirect;
      } else {
        assert ListKids(t, 0) == [];
      }
    }

    method ReadEntries(ino: Inode, ghost t: File) returns (l: seq<Entry>)
      requires Synced() && NodeOf(disk, ino, t)
      ensures l == ListBlocks(t.blocks, |t.blocks|)
    {
      l := [];
      var i := 0;
      while i < Min(ino.size, NDIRECT)
        invariant 0 <= i <= |t.blocks|
        invariant l == ListBlocks(t.blocks, i)
      {
        assert t.ids[i] == ino.blocks[i];
        var buf := ReadData(ino.blocks[i]);
        l := l + [EntryOf(buf)];
        i := i + 1;
      }
    }

    method ReadKidDirs(inums: seq<nat>, ghost t: File) returns (l: seq<Entry>)
      requires Readable() && KidsIn(forest, t.kids) && Listed(inums, t.kids) && |inums| == TABLE_LEN
      ensures l == ListKids(t, |t.kids|)
      decreases t, 0
    {
      hide Abs, Mapped, KidsIn, TreeAt, Listed, NodeOf, Listing;
      ListedLen(inums, t.kids);
      l := [];
      var i := 0;
      while i < TABLE_LEN
        invariant 0 <= i <= |t.kids|
        invariant l == ListKids(t, i)
        decreases TABLE_LEN - i
      {
        ListedAt(inums, t.kids, i);
        if inums[i] == 0 {
          break;
        }
        KidTree(disk, forest, t, i);
        var one := ReadDir(inums[i]);
        l := l + one;
        i := i + 1;
      }
    }

    /** The search loop of free_and_find_last. */
    method FindEntry(blockIds: seq<nat>, inum: nat, ghost l: seq<Entry>) returns (index: nat)
      requires Synced() && EntriesAt(disk, blockIds, l)
      ensures index == FirstIndex(l, inum)
    {
      index := 0;
      while index < |blockIds|
        invariant 0 <= index <= |blockIds|
        invariant forall j :: 0 <= j < index ==> l[j].inum != inum
      {
        var buf := ReadData(blockIds[index]);
        assert EntryOf(buf) == l[index];
        if WordValue(buf[0..4]) == inum {
          break;
        }
        index := index + 1;
      }
      FirstIndexIs(l, inum, index);
    }

    method LocateEntry(parent: nat, inum: nat) returns (blockIds: seq<nat>, index: nat)
      requires Valid() && parent in forest && FlatDir(forest[parent])
      ensures blockIds == forest[parent].ids && |blockIds| == forest[parent].size
      ensures index == FirstIndex(Listing(forest[parent]), inum) && index <= |blockIds|
      ensures forall k :: 0 <= k < |blockIds| ==> blockIds[k] in disk.data && blockIds[k] !in disk.free
    {
      blockIds := ReadBlockIds(parent);
      FlatBlockIds(forest[parent]);
      DirEntries(disk, forest, parent);
      index := FindEntry(blockIds, inum, Listing(forest[parent]));
    }

    /** free_and_find_last for a directory within its direct blocks: frees the block of the first
        entry for inum, if there is one, and reports it and the last entry. */
    method FreeAndFindLast(parent: nat, inum: nat) returns (index: nat, lastId: nat, lastIndex: nat)
      requires Valid() && parent in forest && FlatDir(forest[parent]) && 0 < forest[parent].size
      modifies this`disk, bm.d.blocks
      ensures Synced()
      ensures var t := forest[parent];
              && index == FirstIndex(Listing(t), inum) && index <= |t.ids|
              && lastIndex == t.size - 1 && lastId == t.ids[lastIndex]
              && disk == Erase(old(disk), {}, ItemAt(t.ids, index))
    {
      hide Abs, Inv, FlatDir, Listing, ItemAt, Erase;
      var blockIds;
      blockIds, index := LocateEntry(parent, inum);
      lastIndex := |blockIds| - 1;
      lastId := blockIds[lastIndex];
      FreeFound(blockIds, index);
    }

    method FreeFound(blockIds: seq<nat>, index: nat)
      requires Synced() && forall k :: 0 <= k < |blockIds| ==> blockIds[k] in disk.data && blockIds[k] !in disk.free
      modifies this`disk, bm.d.blocks
      ensures Synced()
      ensures disk == Erase(old(disk), {}, ItemAt(blockIds, index))
    {
      EraseNothing(disk);
      if index < |blockIds| {
        assert {} + {blockIds[index]} == {blockIds[index]};
        FreeBlock(blockIds[index], disk, {}, {});
      }
    }

    /** set_ino_block_id for an inode within its direct blocks. */
    method SetInoBlockId(parent: nat, index: nat, id: nat) returns (done: bool)
      requires Synced() && 1 <= parent <= INODE_NUM && Storable(disk.ino[parent]) && id < U32_LIMIT
      requires disk.ino[parent].size <= NDIRECT
      modifies this`disk, bm.d.blocks
      ensures Synced()
      ensures done == (old(disk).ino[parent].kind == T_DIR && index < old(disk).ino[parent].size)
      ensures disk == if done then old(disk).(ino := old(disk).ino[parent := SlotReplaced(old(disk).ino[parent], index, id)])
                      else old(disk)
    {
      var r := GetInode(parent);
      var ino := r.value;
      if ino.kind != T_DIR {
        return false;
      }
      if index < Min(ino.size, NDIRECT) {
        assert Storable(SlotReplaced(ino, index, id));
        PutInode(parent, SlotReplaced(ino, index, id));
        return true;
      }
      done := false;
    }

    /** The two pointer updates of remove_from_dir. */
    method MoveLast(parent: nat, index: nat, lastId: nat, lastIndex: nat)
      requires Synced() && 1 <= parent <= INODE_NUM
      requires SlotsMove(disk.ino[parent], index, lastId, lastIndex)
      modifies this`disk, bm.d.blocks
      ensures Synced()
      ensures 0 < old(disk).ino[parent].size <= NDIRECT
      ensures disk == old(disk).(ino := old(disk).ino[parent := DropSlot(old(disk).ino[parent], index)])
    {
      ghost var s, n := disk, disk.ino[parent];
      var done := SetInoBlockId(parent, index, lastId);
      assert s.ino[parent := disk.ino[parent]] == disk.ino;
      done := SetInoBlockId(parent, lastIndex, 0);
      assert disk.ino == s.ino[parent := DropSlot(n, index)];
    }

    /** remove_from_dir within NDIRECT entries, as written. An entry that is not there costs the
        directory its last entry. The directory must not be empty. */
    method RemoveFromDir(parent: nat, inum: nat)
      requires Valid() && Root(forest, parent) && FlatDir(forest[parent]) && 0 < forest[parent].size
      modifies this, bm.d.blocks
      ensures Valid()
      ensures var t := old(forest)[parent];
              var k := FirstIndex(Listing(t), inum);
              && k <= |t.ids|
              && forest == old(forest)[parent := DropEntry(t, k)]
              && parent <= INODE_NUM && 0 < old(disk).ino[parent].size <= NDIRECT && k <= old(disk).ino[parent].size
              && disk == Dropped(old(disk), parent, k)
      ensures forall r :: Root(old(forest), r) ==> Root(forest, r)
    {
      hide Abs, Inv, Erase, DropSlot, DropEntry, Listing, SlotsMove, NodeOf, Unlisted;
      ghost var s0, t := disk, forest[parent];
      NodeAt(disk, forest, parent);
      var index, lastId, lastIndex := FreeAndFindLast(parent, inum);
      DirShape(s0, forest, parent, index);
      SameIno(s0, ItemAt(t.ids, index));
      DroppedKeepsInv(s0, forest, parent, index);
      MoveLast(parent, index, lastId, lastIndex);
      forest := forest[parent := DropEntry(t, index)];
    }
  }
}
