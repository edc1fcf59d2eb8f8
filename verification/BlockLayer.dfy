/** Disk and block manager: raw blocks, the bitmap inside them, first-fit allocation. */
module BlockLayer {
  import opened Layout
  import opened Bytes
  import opened Stores
  import opened BlockRuns

  class Disk {
    const blocks: array<Block>

    constructor (n: nat)
      ensures fresh(blocks) && blocks.Length == n
      ensures forall i :: 0 <= i < n ==> blocks[i] == ZERO_BLOCK
    {
      blocks := new Block[n](_ => ZERO_BLOCK);
    }

    method ReadBlock(id: nat) returns (b: Block)
      requires id < blocks.Length
      ensures b == blocks[id]
    {
      b := blocks[id];
    }

    method WriteBlock(id: nat, b: Block)
      requires id < blocks.Length
      modifies blocks
      ensures blocks[..] == old(blocks[..])[id := b]
    {
      blocks[id] := b;
    }
  }

  datatype Superblock = Superblock(size: nat, nblocks: nat, ninodes: nat)

  class BlockManager {
    const d: Disk
    const sb: Superblock

    ghost predicate Valid() {
      Fits(sb.nblocks) && sb.ninodes == INODE_NUM && d.blocks.Length == sb.nblocks
    }

    /** The abstract state of the disk. */
    ghost function View(): Store
      requires Valid()
      reads d.blocks
    {
      Abs(d.blocks[..])
    }

    /** A formatted disk of n blocks: everything free and zero. */
    constructor (n: nat)
      requires Fits(n)
      ensures Valid() && fresh(d.blocks) && sb.nblocks == n
      ensures View().free == View().data.Keys
      ensures forall b :: b in View().data ==> View().data[b] == ZERO_BLOCK
      ensures forall i :: 0 <= i <= INODE_NUM ==> View().ino[i] == FREE_INODE
    {
      d := new Disk(n);
      sb := Superblock(BLOCK_SIZE * n, n, INODE_NUM);
      new;
      FormattedImage(d.blocks[..]);
    }

    method ReadBlock(id: nat) returns (b: Block)
      requires Valid() && id < sb.nblocks
      ensures b == d.blocks[id]
    {
      b := d.ReadBlock(id);
    }

    method WriteBlock(id: nat, b: Block)
      requires Valid() && id < sb.nblocks
      modifies d.blocks
      ensures d.blocks[..] == old(d.blocks[..])[id := b]
      ensures id in old(View().data) ==> Next(old(View()), Write(id, b), View())
    {
      d.WriteBlock(id, b);
      if FirstData(sb.nblocks) <= id {
        AbsWriteData(old(d.blocks[..]), id, b);
      }
    }

    method IsFree(id: nat) returns (free: bool)
      requires Valid() && id < sb.nblocks
      ensures free == !Marked(d.blocks[..], id)
    {
      var buf := ReadBlock(id / BPB + 2);
      free := !BitOf(buf[id % BPB / 8], id % BPB % 8);
    }

    method MarkBit(id: nat)
      requires Valid() && id < sb.nblocks
      modifies d.blocks
      ensures d.blocks[..] == MarkImage(old(d.blocks[..]), id)
    {
      var buf := ReadBlock(id / BPB + 2);
      var at := id % BPB / 8;
      buf := buf[at := SetBit(buf[at], id % BPB % 8)];
      WriteBlock(id / BPB + 2, buf);
    }

    method UnmarkBit(id: nat)
      requires Valid() && id < sb.nblocks
      modifies d.blocks
      ensures d.blocks[..] == UnmarkImage(old(d.blocks[..]), id)
    {
      var buf := ReadBlock(id / BPB + 2);
      var at := id % BPB / 8;
      buf := buf[at := ClearBit(buf[at], id % BPB % 8)];
      WriteBlock(id / BPB + 2, buf);
    }

    /** First fit over the data region; 0 when nothing is free. */
    method AllocBlock() returns (id: nat)
      requires Valid()
      modifies d.blocks
      ensures Next(old(View()), Alloc(id), View())
    {
      id := IBlock(sb.ninodes, sb.nblocks) + 1;
      while id < sb.nblocks
        invariant FirstData(sb.nblocks) <= id <= sb.nblocks
        invariant forall b :: FirstData(sb.nblocks) <= b < id ==> b !in View().free
        invariant d.blocks[..] == old(d.blocks[..])
      {
        var free := IsFree(id);
        if free {
          assert id in View().free;
          MarkBit(id);
          AbsMark(old(d.blocks[..]), id);
          return;
        }
        id := id + 1;
      }
      assert forall b :: b in View().free ==> FirstData(sb.nblocks) <= b < sb.nblocks;
      assert View().free == {};
      id := 0;
    }

    /** Unmarks and zeroes a marked data block; any other id is ignored. */
    method FreeBlock(id: nat)
      requires Valid() && id < sb.nblocks
      modifies d.blocks
      ensures Next(old(View()), Free(id), View())
    {
      var free := true;
      if id > IBlock(sb.ninodes, sb.nblocks) {
        free := IsFree(id);
      }
      if !free {
        ghost var before := View();
        UnmarkBit(id);
        AbsUnmark(old(d.blocks[..]), id);
        WriteBlock(id, ZERO_BLOCK);
        EraseOne(before, id);
      }
    }
  }

  /** Unmarking and zeroing a block erases it. */
  lemma EraseOne(s: Store, id: nat)
    requires id in s.data
    ensures Erase(s, {}, {id}) == s.(free := s.free + {id}, data := s.data[id := ZERO_BLOCK])
  {
    assert Erase(s, {}, {id}).ino == s.ino;
    assert Erase(s, {}, {id}).data == s.data[id := ZERO_BLOCK];
  }

  lemma FormattedImage(img: Image)
    requires Fits(|img|)
    requires forall i :: 0 <= i < |img| ==> img[i] == ZERO_BLOCK
    ensures Abs(img).free == Abs(img).data.Keys
    ensures forall i :: 0 <= i <= INODE_NUM ==> Abs(img).ino[i] == FREE_INODE
  {
    ZeroBlockIsFreeInode();
    assert forall k: nat :: k < 8 ==> !BitOf(0, k);
  }
}
