/** Inode records, and the abstract state a disk image stands for. */
module Stores {
  import opened Layout
  import opened Bytes

  // ---------------------------------------------------------------- inode records

  /** An inode without its timestamps; `blocks` has NDIRECT direct pointers and one table pointer. */
  datatype Inode = Inode(kind: nat, size: nat, blocks: Pointers)

  type Pointers = p: seq<nat> | |p| == NDIRECT + 1 witness seq(NDIRECT + 1, _ => 0)

  function NoBlocks(): Pointers {
    seq(NDIRECT + 1, _ => 0)
  }

  const FREE_INODE: Inode := Inode(0, 0, NoBlocks())

  /** The record with pointer j set. */
  function SetSlot(n: Inode, j: nat, b: nat): Inode
    requires j <= NDIRECT
  {
    n.(blocks := n.blocks[j := b])
  }

  /** The record fits the C struct. */
  predicate Storable(n: Inode) {
    n.kind < 0x1_0000 && n.size < U32_LIMIT && AllWords(n.blocks)
  }

  /** struct inode: a 16-bit type, then 32-bit size, three 32-bit times, and the pointers. */
  function DecodeInode(b: Block): (n: Inode)
    ensures Storable(n)
  {
    var lo: int, hi: int := b[0], b[1];
    Inode(lo + 0x100 * hi, WordValue(b[4..8]), Unpack(b, 20, NDIRECT + 1))
  }

  /** The block `b` with the struct at its front replaced. */
  function EncodeInode(b: Block, n: Inode): Block
    requires Storable(n)
  {
    [n.kind % 0x100, n.kind / 0x100, 0, 0] + Word(n.size) + Zeros(12) + Pack(n.blocks) + b[20 + 4 * (NDIRECT + 1)..]
  }

  lemma InodeRoundTrip(b: Block, n: Inode)
    requires Storable(n)
    ensures DecodeInode(EncodeInode(b, n)) == n
  {
    var e := EncodeInode(b, n);
    assert e[4..8] == Word(n.size);
    WordRoundTrip(n.size);
    assert e[20..20 + 4 * |n.blocks|] == Pack(n.blocks);
    PackRoundTrip(n.blocks, e, 20);
  }

  /** Where the fields are in the block: the type at byte 0, the size at 4, pointer j at 20 + 4 * j;
      what lies behind the struct stays. */
  lemma InodeFields(b: Block, n: Inode)
    requires Storable(n)
    ensures var e := EncodeInode(b, n);
            && n.kind == e[0] + 0x100 * (e[1] as int) && n.size == WordValue(e[4..8])
            && (forall j :: 0 <= j <= NDIRECT ==> n.blocks[j] == WordValue(e[20 + 4 * j..24 + 4 * j]))
            && e[424..] == b[424..]
  {
    hide EncodeInode, Word, WordValue, Pack;
    InodeBytes(b, n);
    WordRoundTrip(n.size);
    var e := EncodeInode(b, n);
    PackRoundTrip(n.blocks, e, 20);
    forall j | 0 <= j <= NDIRECT ensures n.blocks[j] == WordValue(e[20 + 4 * j..24 + 4 * j]) {
      assert Unpack(e, 20, NDIRECT + 1)[j] == n.blocks[j];
    }
  }

  lemma InodeBytes(b: Block, n: Inode)
    requires Storable(n)
    ensures var e := EncodeInode(b, n);
            && n.kind == e[0] + 0x100 * (e[1] as int) && e[4..8] == Word(n.size)
            && e[20..424] == Pack(n.blocks) && e[424..] == b[424..]
  {
  }

  lemma ZeroBlockIsFreeInode()
    ensures DecodeInode(ZERO_BLOCK) == FREE_INODE
  {
    assert DecodeInode(ZERO_BLOCK).blocks == FREE_INODE.blocks;
  }

  // ---------------------------------------------------------------- abstract state

  /** What the layers above the block layer see of a disk of n blocks: the free data blocks,
      the contents of the data blocks, and the inodes (slot 0 is not an inode). */
  datatype Store = Store(n: nat, free: set<nat>, data: map<nat, Block>, ino: InodeTable)

  type InodeTable = t: seq<Inode> | |t| == INODE_NUM + 1 witness seq(INODE_NUM + 1, _ => FREE_INODE)

  type Image = seq<Block>

  /** The bitmap bit of block id. */
  predicate Marked(img: Image, id: nat)
    requires Fits(|img|) && id < |img|
  {
    BitOf(img[BBlock(id)][id % BPB / 8], id % BPB % 8)
  }

  ghost function Abs(img: Image): Store
    requires Fits(|img|)
  {
    Store(|img|,
          set id | FirstData(|img|) <= id < |img| && !Marked(img, id),
          map id | FirstData(|img|) <= id < |img| :: img[id],
          seq(INODE_NUM + 1, i requires 0 <= i <= INODE_NUM =>
            if i == 0 then FREE_INODE else DecodeInode(img[IBlock(i, |img|)])))
  }

  function MarkImage(img: Image, id: nat): Image
    requires Fits(|img|) && id < |img|
  {
    var b := img[BBlock(id)];
    img[BBlock(id) := b[id % BPB / 8 := SetBit(b[id % BPB / 8], id % BPB % 8)]]
  }

  function UnmarkImage(img: Image, id: nat): Image
    requires Fits(|img|) && id < |img|
  {
    var b := img[BBlock(id)];
    img[BBlock(id) := b[id % BPB / 8 := ClearBit(b[id % BPB / 8], id % BPB % 8)]]
  }

  /** The bitmap is a set: marking and unmarking one block changes the status of that block only,
      for every pair of block ids, and no block outside the bitmap. */
  lemma BitmapIsSet(img: Image, id: nat, other: nat)
    requires Fits(|img|) && id < |img| && other < |img|
    ensures Marked(MarkImage(img, id), other) == (other == id || Marked(img, other))
    ensures Marked(UnmarkImage(img, id), other) == (other != id && Marked(img, other))
    ensures other != BBlock(id) ==> MarkImage(img, id)[other] == img[other] == UnmarkImage(img, id)[other]
  {
    OneBit(img[BBlock(id)][id % BPB / 8], id % BPB % 8);
    if BBlock(other) == BBlock(id) && other % BPB / 8 == id % BPB / 8 && other % BPB % 8 == id % BPB % 8 {
      assert other == id;
    }
  }

  /** The bitmap is one string of bits that starts with block 2: bit id is bit id % 8 of its byte id / 8. */
  lemma BitmapIsFlat(img: Image, id: nat)
    requires Fits(|img|) && id < |img|
    ensures 2 + id / 8 / 512 < |img|
    ensures Marked(img, id) == BitOf(img[2 + id / 8 / 512][id / 8 % 512], id % 8)
  {
    assert id / 8 / 512 == id / BPB && id / 8 % 512 == id % BPB / 8 && id % BPB % 8 == id % 8;
  }

  /** A write to a bitmap block that changes the status of `id` only. */
  lemma AbsBitmapWrite(img: Image, after: Image, id: nat)
    requires Fits(|img|) && FirstData(|img|) <= id < |img| && |after| == |img|
    requires forall x: nat :: x < |img| && x != BBlock(id) ==> after[x] == img[x]
    requires forall x: nat :: x < |img| && x != id ==> Marked(after, x) == Marked(img, x)
    ensures Abs(after) == Abs(img).(free := if Marked(after, id) then Abs(img).free - {id} else Abs(img).free + {id})
  {
    SameInodes(img, after, BBlock(id));
    assert Abs(after).data == Abs(img).data;
  }

  /** Marking a data block takes it from the free set; nothing else of the abstract state moves. */
  lemma AbsMark(img: Image, id: nat)
    requires Fits(|img|) && FirstData(|img|) <= id < |img|
    ensures Abs(MarkImage(img, id)) == Abs(img).(free := Abs(img).free - {id})
  {
    forall x: nat | x < |img| {
      BitmapIsSet(img, id, x);
    }
    AbsBitmapWrite(img, MarkImage(img, id), id);
  }

  lemma AbsUnmark(img: Image, id: nat)
    requires Fits(|img|) && FirstData(|img|) <= id < |img|
    ensures Abs(UnmarkImage(img, id)) == Abs(img).(free := Abs(img).free + {id})
  {
    forall x: nat | x < |img| {
      BitmapIsSet(img, id, x);
    }
    AbsBitmapWrite(img, UnmarkImage(img, id), id);
  }

  /** A write outside the inode table leaves the inodes alone. */
  lemma SameInodes(img: Image, after: Image, at: nat)
    requires Fits(|img|) && |after| == |img|
    requires forall x: nat :: x < |img| && x != at ==> after[x] == img[x]
    requires at < IBlock(1, |img|) || FirstData(|img|) <= at
    ensures Abs(after).ino == Abs(img).ino
  {
    forall i | 1 <= i <= INODE_NUM ensures IBlock(i, |img|) != at && after[IBlock(i, |img|)] == img[IBlock(i, |img|)] {
    }
  }

  /** Writing a data block cannot reach the bitmap or the inode table. */
  lemma AbsWriteData(img: Image, id: nat, b: Block)
    requires Fits(|img|) && FirstData(|img|) <= id < |img|
    ensures Abs(img[id := b]) == Abs(img).(data := Abs(img).data[id := b])
  {
    var after := img[id := b];
    forall x: nat | x < |img| ensures Marked(after, x) == Marked(img, x) {
      assert BBlock(x) < FirstData(|img|);
    }
    SameInodes(img, after, id);
  }

  /** Writing an inode block changes that inode only. */
  lemma AbsWriteInode(img: Image, i: nat, n: Inode)
    requires Fits(|img|) && 1 <= i <= INODE_NUM && Storable(n)
    ensures var at := IBlock(i, |img|);
            Abs(img[at := EncodeInode(img[at], n)]) == Abs(img).(ino := Abs(img).ino[i := n])
  {
    var at := IBlock(i, |img|);
    var after := img[at := EncodeInode(img[at], n)];
    InodeRoundTrip(img[at], n);
    forall x: nat | x < |img| ensures Marked(after, x) == Marked(img, x) {
      assert BBlock(x) < at;
    }
    assert forall j :: 1 <= j <= INODE_NUM && j != i ==> IBlock(j, |img|) != at;
    assert Abs(after).ino == Abs(img).ino[i := n];
  }

  /** Ids of the data region. */
  predicate IsData(n: nat, b: nat) {
    FirstData(n) <= b < n
  }

  function Region(n: nat): set<nat> {
    set b: nat | b < n && IsData(n, b)
  }

  /** Inodes in use. */
  function Live(s: Store): set<nat> {
    set i: nat | 1 <= i <= INODE_NUM && s.ino[i].kind != 0
  }

  /** s with the inodes in I cleared and the blocks in B freed and zeroed. */
  ghost function Erase(s: Store, I: set<nat>, B: set<nat>): Store {
    s.(free := s.free + B,
       data := map b | b in s.data :: if b in B then ZERO_BLOCK else s.data[b],
       ino := seq(INODE_NUM + 1, i requires 0 <= i <= INODE_NUM => if i in I then FREE_INODE else s.ino[i]))
  }

  lemma EraseNothing(s: Store)
    ensures Erase(s, {}, {}) == s
  {
    assert Erase(s, {}, {}).ino == s.ino;
    assert Erase(s, {}, {}).data == s.data;
  }

  lemma EraseTwice(s: Store, I: set<nat>, B: set<nat>, J: set<nat>, C: set<nat>)
    ensures Erase(Erase(s, I, B), J, C) == Erase(s, I + J, B + C)
  {
    assert Erase(Erase(s, I, B), J, C).ino == Erase(s, I + J, B + C).ino;
  }
}
