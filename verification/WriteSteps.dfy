/** The steps of write_file, as lemmas about the state before and after each. */
module WriteSteps {
  import opened Layout
  import opened Bytes
  import opened Stores
  import opened FileTree
  import opened FileFormat
  import opened Accounting
  import opened Forests
  import opened Growth

  lemma ElemsAppend(ids: seq<nat>, b: nat)
    ensures Elems(ids + [b]) == Elems(ids) + {b}
  {
  }

  /** A block is allocated and filled. */
  lemma AllocWriteStep(s0: Store, f0: Forest, s: Store, f: Forest, I: set<nat>, B: set<nat>, R: set<nat>, b: nat, x: Block)
    requires Inv(s0, f0) && Inv(s, f) && Grown(s0, f0, s, f, I, B) && Reserved(s, R) && b in s.free
    ensures var s' := s.(free := s.free - {b}, data := s.data[b := x]);
            && Inv(s', f) && Grown(s0, f0, s', f, I, B + {b}) && Reserved(s', R + {b}) && b !in R
  {
    var m := s.(free := s.free - {b});
    GrownAlloc(s, f, b);
    ReservedKept(s, f, m, f, {}, {b}, R);
    InvWriteReserved(m, f, b, x);
    GrownTrans(s0, f0, s, f, m, f, I, B, {}, {b});
    assert I + {} == I;
  }

  /** The blocks ids were free, are set aside now, and hold the first pieces of buf. */
  ghost predicate DirectDone(s0: Store, f: Forest, s: Store, ids: seq<nat>, buf: seq<Byte>) {
    && |ids| <= Pieces(|buf|)
    && NoRepeat(ids)
    && Reserved(s, Elems(ids))
    && Grown(s0, f, s, f, {}, Elems(ids))
    && (forall j :: 0 <= j < |ids| ==> ids[j] in s.data)
    && (forall j :: 0 <= j < |ids| ==> s.data[ids[j]] == Piece(buf, j))
  }

  lemma DirectNone(s: Store, f: Forest, buf: seq<Byte>)
    requires Inv(s, f)
    ensures DirectDone(s, f, s, [], buf)
  {
    GrownRefl(s, f);
    assert Elems([]) == {};
  }

  /** The record with its first direct pointers replaced by ids. */
  function FillSlots(n: Inode, ids: seq<nat>): Inode
    requires |ids| <= NDIRECT
  {
    n.(blocks := ids + n.blocks[|ids|..])
  }

  lemma FillNone(n: Inode)
    ensures FillSlots(n, []) == n
  {
    assert [] + n.blocks[0..] == n.blocks;
  }

  lemma FillStep(n: Inode, ids: seq<nat>, b: nat)
    requires |ids| < NDIRECT
    ensures SetSlot(FillSlots(n, ids), |ids|, b) == FillSlots(n, ids + [b])
  {
    assert SetSlot(FillSlots(n, ids), |ids|, b).blocks == FillSlots(n, ids + [b]).blocks;
  }

  lemma DirectStep(s0: Store, f: Forest, s: Store, ids: seq<nat>, buf: seq<Byte>, b: nat)
    requires Inv(s0, f) && Inv(s, f) && DirectDone(s0, f, s, ids, buf)
    requires |ids| < Pieces(|buf|) && b in s.free
    ensures var s' := s.(free := s.free - {b}, data := s.data[b := Piece(buf, |ids|)]);
            Inv(s', f) && DirectDone(s0, f, s', ids + [b], buf)
  {
    AllocWriteStep(s0, f, s, f, {}, Elems(ids), Elems(ids), b, Piece(buf, |ids|));
    ElemsAppend(ids, b);
    PiecesStep(s, ids, buf, b);
  }

  lemma PiecesStep(s: Store, ids: seq<nat>, buf: seq<Byte>, b: nat)
    requires NoRepeat(ids) && b !in Elems(ids) && |ids| < Pieces(|buf|)
    requires forall j :: 0 <= j < |ids| ==> ids[j] in s.data
    requires forall j :: 0 <= j < |ids| ==> s.data[ids[j]] == Piece(buf, j)
    ensures var all, data := ids + [b], s.data[b := Piece(buf, |ids|)];
            && NoRepeat(all)
            && (forall j :: 0 <= j < |all| ==> all[j] in data)
            && (forall j :: 0 <= j < |all| ==> data[all[j]] == Piece(buf, j))
  {
    assert forall j :: 0 <= j < |ids| ==> ids[j] in Elems(ids);
  }

  /** A tree for buf was made under the new root k, out of free inodes and blocks alone. */
  ghost predicate KidMade(s: Store, f: Forest, s': Store, f': Forest, k: nat, buf: seq<Byte>) {
    && 1 <= k <= INODE_NUM && k !in f && Root(f', k)
    && f'[k].inum == k && Holds(f'[k], buf)
    && Grown(s, f, s', f', Inums(f'[k]), Blocks(f'[k]))
  }

  /** After alloc_inode and write_file on the new inode k, the disk has grown by the tree of k. */
  lemma KidStep(s: Store, f: Forest, k: nat, s2: Store, f2: Forest, buf: seq<Byte>)
    requires Inv(s2, f2) && 1 <= k <= INODE_NUM && k !in f
    requires Wrote(s.(ino := s.ino[k := NewInode(T_FILE)]), f[k := NewFile(k, T_FILE)], s2, f2, k, buf)
    requires Root(f2, k)
    ensures KidMade(s, f, s2, f2, k, buf)
  {
    hide Inv, Blocks, KidSet, NewNode, Grown;
    var s1, f1 := s.(ino := s.ino[k := NewInode(T_FILE)]), f[k := NewFile(k, T_FILE)];
    NodeAt(s2, f2, k);
    assert k in Inums(f2[k]) && Holds(f2[k], buf);
    hide Holds, Wrote, Inums;
    KidNodes(s1, f1, k, s2, f2, buf);
    WroteInodes(s1, f1, s2, f2, k, buf);
    WroteBlocks(s1, f1, s2, f2, k, buf);
    GrownByKid(s, f, k, s2, f2);
  }

  lemma KidNodes(s: Store, f: Forest, k: nat, s2: Store, f2: Forest, buf: seq<Byte>)
    requires Inv(s2, f2) && Wrote(s, f, s2, f2, k, buf) && s.ino[k] == NewInode(T_FILE)
    ensures Inums(f2[k]) <= f2.Keys
    ensures forall i :: i in Inums(f2[k]) && i <= INODE_NUM ==> NewNode(s2.ino[i], f2[i], Inums(f2[k]), Blocks(f2[k]))
  {
    hide *;
    WroteInodes(s, f, s2, f2, k, buf);
    KidNode(s, f, k, s2, f2, buf);
    forall i | i in Inums(f2[k]) && i <= INODE_NUM ensures NewNode(s2.ino[i], f2[i], Inums(f2[k]), Blocks(f2[k])) {
      if i != k {
        NewNodeWider(s2.ino[i], f2[i], Inums(f2[k]) - {k}, Inums(f2[k]), Blocks(f2[k]));
      }
    }
  }

  lemma NewNodeWider(n: Inode, t: File, I: set<nat>, J: set<nat>, B: set<nat>)
    requires NewNode(n, t, I, B) && I <= J
    ensures NewNode(n, t, J, B)
  {
  }

  lemma KidNode(s: Store, f: Forest, k: nat, s2: Store, f2: Forest, buf: seq<Byte>)
    requires Inv(s2, f2) && Wrote(s, f, s2, f2, k, buf) && s.ino[k] == NewInode(T_FILE)
    ensures k in f2 && k in Inums(f2[k]) && Inums(f2[k]) <= f2.Keys
    ensures NewNode(s2.ino[k], f2[k], Inums(f2[k]), Blocks(f2[k]))
  {
    hide Inv, Blocks, Clean, KidSet, Ptrs, Grown, Holds;
    WroteInodes(s, f, s2, f2, k, buf);
    NodeAt(s2, f2, k);
    assert k in Inums(f2[k]) && s2.ino[k].kind == T_FILE;
    hide Wrote, Inums;
    NewTreeClean(s, f, s2, f2, k, buf);
    TreeLive(s2, f2, k);
    PtrsOfNode(s2, s2.ino[k], f2[k]);
  }

  lemma TreeLive(s: Store, f: Forest, i: nat)
    requires Inv(s, f) && i in f
    ensures Inums(f[i]) <= f.Keys
  {
    hide Inums, KidSet, NodeOf, PointersDisjoint, Shape, KidsDisjoint;
    ClosedTree(f, i);
  }

  lemma GrownByKid(s: Store, f: Forest, k: nat, s2: Store, f2: Forest)
    requires k !in f && 1 <= k <= INODE_NUM && k in f2 && k in Inums(f2[k])
    requires var I := Inums(f2[k]) - {k};
             && I !! f.Keys + {k} && f2.Keys == f.Keys + {k} + I
             && (forall i :: i in Inums(f2[k]) && i <= INODE_NUM ==> NewNode(s2.ino[i], f2[i], Inums(f2[k]), Blocks(f2[k])))
    requires forall i :: i in f ==> f2[i] == f[i] && (i <= INODE_NUM ==> s2.ino[i] == s.ino[i])
    requires s2.n == s.n && s2.data.Keys == s.data.Keys && Blocks(f2[k]) <= s.free && s2.free == s.free - Blocks(f2[k])
    requires forall b :: b in s.data && b !in Blocks(f2[k]) ==> s2.data[b] == s.data[b]
    ensures Grown(s, f, s2, f2, Inums(f2[k]), Blocks(f2[k]))
  {
    hide Inums, Blocks, NewNode;
  }

  /** The pointers of a node without left-overs are blocks of its tree. */
  lemma PtrsOfNode(s: Store, n: Inode, t: File)
    requires NodeOf(s, n, t) && Clean(n)
    ensures Ptrs(n) <= Blocks(t)
  {
    forall b | b in Ptrs(n) ensures b in Blocks(t) {
      var j: nat :| j <= NDIRECT && Active(n, j) && n.blocks[j] == b;
      if j < NDIRECT {
        assert j < |t.ids|;
        assert BlockIds(t)[j] == b;
      }
    }
  }

  /** The inode record that write_file puts back: new pointers in front, old ones behind. */
  ghost predicate PutBack(before: Inode, n: Inode, t: File) {
    && n.kind == before.kind && n.size == t.size
    && |t.ids| <= NDIRECT
    && (forall j :: 0 <= j < |t.ids| ==> n.blocks[j] == t.ids[j])
    && (forall j :: |t.ids| <= j < NDIRECT ==> n.blocks[j] == before.blocks[j])
    && n.blocks[NDIRECT] == if t.size > NDIRECT then t.table else before.blocks[NDIRECT]
  }

  ghost predicate NoRepeat(ids: seq<nat>) {
    forall j, k :: 0 <= j < k < |ids| ==> ids[j] != ids[k]
  }

  function OwnBlocks(t: File): set<nat> {
    Elems(t.ids) + if t.size > NDIRECT then {t.table} else {}
  }

  lemma PutBackPtrs(before: Inode, n: Inode, t: File)
    requires PutBack(before, n, t) && NoRepeat(t.ids) && Distinct(before)
    requires t.size > NDIRECT ==> t.table !in t.ids && |t.ids| == NDIRECT
    requires OwnBlocks(t) !! Ptrs(before)
    ensures Distinct(n) && Ptrs(n) <= Ptrs(before) + OwnBlocks(t)
  {
    forall j: nat | j <= NDIRECT && Active(n, j)
      ensures if j < |t.ids| then n.blocks[j] == t.ids[j]
              else if j < NDIRECT || t.size <= NDIRECT then Active(before, j) && n.blocks[j] == before.blocks[j]
              else n.blocks[j] == t.table
    {
    }
    forall j, k | 0 <= j < k <= NDIRECT && Active(n, j) && Active(n, k) ensures n.blocks[j] != n.blocks[k] {
      if j < |t.ids| && k >= |t.ids| && k < NDIRECT {
        assert before.blocks[k] in Ptrs(before);
        assert n.blocks[j] in OwnBlocks(t);
      }
    }
  }

  lemma BlocksOfTree(t: File)
    ensures Blocks(t) == OwnBlocks(t) + KidBlocks(t, |t.kids|)
  {
    var ids, kid := t.ids, KidBlockIds(t, |t.kids|);
    assert Elems(ids + kid) == Elems(ids) + Elems(kid);
  }

  /** The new blocks and sub-inodes are in place; all that is left is to put inode i back. */
  ghost predicate Ready(s0: Store, f0: Forest, s: Store, f: Forest, i: nat, n: Inode, t: File, buf: seq<Byte>) {
    && i in f0 && i <= INODE_NUM && s.ino[i] == s0.ino[i] && Root(f, i) && i in Live(s)
    && Grown(s0, f0, s, f, KidInums(t, |t.kids|), Blocks(t))
    && Reserved(s, OwnBlocks(t)) && NoRepeat(t.ids)
    && (t.size > NDIRECT ==> t.table !in t.ids)
    && t.inum == i && PutBack(s0.ino[i], n, t) && NodeOf(s, n, t)
    && KidsPlaced(f0, f, t.kids, buf) && Holds(t, buf)
  }

  lemma FinishWrite(s0: Store, f0: Forest, s: Store, f: Forest, i: nat, n: Inode, t: File, buf: seq<Byte>)
    requires Inv(s, f) && Ready(s0, f0, s, f, i, n, t, buf)
    ensures Storable(n) && 1 <= i <= INODE_NUM && i in f
    ensures Inv(s.(ino := s.ino[i := n]), f[i := t])
    ensures Wrote(s0, f0, s.(ino := s.ino[i := n]), f[i := t], i, buf)
    ensures Root(f[i := t], i)
  {
    FinishAttach(s, f, i, n, t);
    FinishWrote(s0, f0, s, f, i, n, t, buf);
  }

  lemma FinishAttach(s: Store, f: Forest, i: nat, n: Inode, t: File)
    requires Inv(s, f) && Root(f, i) && i in Live(s)
    requires Reserved(s, OwnBlocks(t)) && NoRepeat(t.ids)
    requires t.size > NDIRECT ==> t.table !in t.ids
    requires t.inum == i && PutBack(s.ino[i], n, t) && NodeOf(s, n, t)
    requires KidsIn(f, t.kids) && KidsDistinct(t.kids)
    requires forall k :: 0 <= k < |t.kids| ==> t.kids[k].inum != i && Root(f, t.kids[k].inum)
    ensures Storable(n)
    ensures Inv(s.(ino := s.ino[i := n]), f[i := t])
  {
    PutBackPtrs(s.ino[i], n, t);
    PutBackStorable(s, s.ino[i], n, t);
    Attach(s, f, i, n, t, OwnBlocks(t));
  }

  lemma PutBackStorable(s: Store, before: Inode, n: Inode, t: File)
    requires Shape(s) && Storable(before) && PutBack(before, n, t) && NodeOf(s, n, t)
    ensures Storable(n)
  {
    forall j | 0 <= j <= NDIRECT ensures n.blocks[j] < U32_LIMIT {
      if j < |t.ids| {
        assert t.ids[j] in s.data;
      }
    }
  }

  lemma FinishWrote(s0: Store, f0: Forest, s: Store, f: Forest, i: nat, n: Inode, t: File, buf: seq<Byte>)
    requires i in f0 && i <= INODE_NUM && s.ino[i] == s0.ino[i] && Root(f, i)
    requires Grown(s0, f0, s, f, KidInums(t, |t.kids|), Blocks(t))
    requires t.inum == i && PutBack(s0.ino[i], n, t) && Holds(t, buf)
    requires forall k :: 0 <= k < |t.kids| ==> t.kids[k].inum !in f0
    ensures Wrote(s0, f0, s.(ino := s.ino[i := n]), f[i := t], i, buf)
    ensures Root(f[i := t], i)
  {
    var s', f' := s.(ino := s.ino[i := n]), f[i := t];
    var I := KidInums(t, |t.kids|);
    assert i !in I;
    assert Inums(t) - {i} == I;
    assert s'.(ino := s'.ino[i := s0.ino[i]]) == s;
    assert f'[i := f0[i]] == f;
    forall c | c in KidSet(t) ensures c in I {
      var k :| 0 <= k < |t.kids| && t.kids[k].inum == c;
      InKidInums(t, |t.kids|, c);
      assert c in Inums(t.kids[k]);
    }
    assert i !in KidSet(t);
  }

  /** Every file of f outside x is in g as it was. */
  ghost predicate KeptBut(f: Forest, g: Forest, x: set<nat>) {
    forall i :: i in f && i !in x ==> i in g && g[i] == f[i]
  }

  lemma KeptTrans(f: Forest, g: Forest, h: Forest, x: set<nat>)
    requires KeptBut(f, g, {}) && KeptBut(g, h, x)
    ensures KeptBut(f, h, x)
  {
  }

  lemma KeptThroughPut(f: Forest, g: Forest, i: nat, t: File)
    requires KeptBut(f, g, {}) && i in g
    ensures KeptBut(f, g[i := t], {i}) && |g[i := t]| == |g|
  {
    assert g[i := t].Keys == g.Keys;
  }

  // ---------------------------------------------------------------- what it costs

  /** The operation succeeded exactly when the blocks and inodes it needs were free,
      and then it took exactly that many. */
  ghost predicate Spent(s: Store, f: Forest, s': Store, f': Forest, ok: bool, blocks: int, inodes: int) {
    && (ok <==> |s.free| >= blocks && INODE_NUM - |f| >= inodes)
    && (ok ==> |s'.free| == |s.free| - blocks && |f'| == |f| + inodes)
  }

  /** The first k sub-inodes of a file of n bytes are paid for. */
  ghost predicate Paid(s0: Store, f0: Forest, s: Store, f: Forest, n: nat, k: nat) {
    && k <= KidCount(n)
    && |s.free| == |s0.free| - KidBlockCost(n, k)
    && |f| == |f0| + KidInodeCost(n, k)
  }

  /** There is not enough room for the sub-inodes of a file of n bytes. */
  ghost predicate Short(s: Store, f: Forest, n: nat) {
    |s.free| < KidBlockCost(n, KidCount(n)) || INODE_NUM - |f| < KidInodeCost(n, KidCount(n))
  }

  /** What is spent after the direct blocks. */
  function RestCost(n: nat): nat {
    if n <= CHUNK then 0 else 1 + KidBlockCost(n, KidCount(n))
  }

  lemma CostParts(n: nat)
    ensures BlockCost(n) == Min(Pieces(n), NDIRECT) + RestCost(n)
    ensures n <= CHUNK ==> InodeCost(n) == 0
    ensures InodeCost(n) == KidInodeCost(n, KidCount(n))
  {
  }

  lemma SpentJoin(s: Store, f: Forest, s1: Store, f1: Forest, s2: Store, f2: Forest, ok1: bool, ok2: bool,
                  a: nat, b: nat, c: nat, d: nat)
    requires |f| <= INODE_NUM && Spent(s, f, s1, f1, ok1, a, b)
    requires ok1 ==> Spent(s1, f1, s2, f2, ok2, c, d)
    ensures Spent(s, f, s2, f2, ok1 && ok2, a + c, b + d)
  {
  }

  lemma PaidStep(s0: Store, f0: Forest, s: Store, f: Forest, s': Store, f': Forest, ok: bool, n: nat, k: nat)
    requires k < KidCount(n) && Paid(s0, f0, s, f, n, k)
    requires Spent(s, f, s', f', ok, BlockCost(ChunkLen(n, k)), 1 + InodeCost(ChunkLen(n, k)))
    ensures if ok then Paid(s0, f0, s', f', n, k + 1) else Short(s0, f0, n)
  {
    KidCostsGrow(n, k + 1, KidCount(n));
  }

  // ---------------------------------------------------------------- running out of space

  /** An operation that ran out of space: what it took stays taken, everything that was there
      before is as it was, and no block or no inode is left. */
  ghost predicate Exhausted(s0: Store, f0: Forest, s: Store, f: Forest) {
    && Grown(s0, f0, s, f, f.Keys - f0.Keys, s0.free - s.free)
    && (s.free == {} || |f| >= INODE_NUM)
  }

  lemma ExhaustedNow(s: Store, f: Forest)
    requires s.free == {} || |f| >= INODE_NUM
    ensures Exhausted(s, f, s, f)
  {
    GrownRefl(s, f);
    assert f.Keys - f.Keys == {} && s.free - s.free == {};
  }

  lemma ExhaustedAfter(s0: Store, f0: Forest, s1: Store, f1: Forest, s: Store, f: Forest, I: set<nat>, B: set<nat>)
    requires Grown(s0, f0, s1, f1, I, B) && Exhausted(s1, f1, s, f)
    ensures Exhausted(s0, f0, s, f)
  {
    GrownTrans(s0, f0, s1, f1, s, f, I, B, f.Keys - f1.Keys, s1.free - s.free);
    assert I + (f.Keys - f1.Keys) == f.Keys - f0.Keys;
    assert B + (s1.free - s.free) == s0.free - s.free;
  }

  lemma GrownNew(s: Store, f: Forest, k: nat)
    requires 1 <= k <= INODE_NUM && k !in f
    ensures Grown(s, f, s.(ino := s.ino[k := NewInode(T_FILE)]), f[k := NewFile(k, T_FILE)], {k}, {})
  {
    assert Ptrs(NewInode(T_FILE)) == {} && KidSet(NewFile(k, T_FILE)) == {};
    assert NewNode(NewInode(T_FILE), NewFile(k, T_FILE), {k}, {});
    assert s.free - {} == s.free;
  }

  /** alloc_inode for a sub-inode finds none. */
  lemma NoKid(s: Store, f: Forest, blocks: nat, inodes: nat)
    requires |f| >= INODE_NUM
    ensures Exhausted(s, f, s, f) && KeptBut(f, f, {}) && Spent(s, f, s, f, false, blocks, 1 + inodes)
  {
    hide Grown;
    ExhaustedNow(s, f);
  }

  /** alloc_inode, and then a write_file that succeeds or runs out. */
  lemma KidWritten(s: Store, f: Forest, s1: Store, f1: Forest, s2: Store, f2: Forest, k: nat, ok: bool,
                   buf: seq<Byte>, size: int)
    requires Allotted(s, f, s1, f1, k, T_FILE) && Inv(s2, f2)
    requires if !ok then Exhausted(s1, f1, s2, f2)
             else if size < 0 then buf == [] && s2 == s1 && f2 == f1
             else Wrote(s1, f1, s2, f2, k, buf)
    requires ok ==> Root(f2, k)
    ensures if ok then KidMade(s, f, s2, f2, k, buf) else Exhausted(s, f, s2, f2)
  {
    hide Inv, Wrote, Grown, KidMade, Unlisted;
    if ok {
      if size < 0 {
        WroteNothing(s1, f1, k);
      }
      KidStep(s, f, k, s2, f2, buf);
    } else {
      GrownNew(s, f, k);
      ExhaustedAfter(s, f, s1, f1, s2, f2, {k}, {});
    }
  }

  lemma KidSpent(s: Store, f: Forest, s1: Store, f1: Forest, s2: Store, f2: Forest, k: nat, ok: bool, blocks: nat, inodes: nat)
    requires Allotted(s, f, s1, f1, k, T_FILE)
    requires Spent(s1, f1, s2, f2, ok, blocks, inodes) && KeptBut(f1, f2, if ok then {k} else {})
    ensures Spent(s, f, s2, f2, ok, blocks, 1 + inodes) && KeptBut(f, f2, {})
  {
    assert |f1| == |f| + 1;
  }

  lemma DirectExhausted(s0: Store, f: Forest, s1: Store, ids: seq<nat>, buf: seq<Byte>, s: Store, g: Forest)
    requires DirectDone(s0, f, s1, ids, buf) && Exhausted(s1, f, s, g)
    ensures Exhausted(s0, f, s, g)
  {
    ExhaustedAfter(s0, f, s1, f, s, g, {}, Elems(ids));
  }

  /** The inodes made on the way are plain files, and the roots there were are roots still. */
  lemma ExhaustedFiles(s0: Store, f0: Forest, s: Store, f: Forest)
    requires Inv(s, f) && Exhausted(s0, f0, s, f)
    ensures forall i :: i in f && i !in f0 ==> f[i].kind == T_FILE
    ensures forall r :: Root(f0, r) ==> Root(f, r)
  {
    forall i | i in f && i !in f0 ensures f[i].kind == T_FILE {
      assert i in Live(s) && NewNode(s.ino[i], f[i], f.Keys - f0.Keys, s0.free - s.free);
      assert NodeOf(s, s.ino[i], f[i]);
    }
    forall r | Root(f0, r) ensures Root(f, r) {
      GrownRoots(s0, f0, s, f, f.Keys - f0.Keys, s0.free - s.free, r);
    }
  }

  // ---------------------------------------------------------------- the table

  /** Trees for the first chunks of buf were made out of free inodes and blocks since (s0, f0). */
  ghost predicate KidsDone(s0: Store, f0: Forest, s: Store, f: Forest, kids: seq<File>, buf: seq<Byte>) {
    && Grown(s0, f0, s, f, KidInums(Hub(kids), |kids|), KidBlocks(Hub(kids), |kids|))
    && KidsPlaced(f0, f, kids, buf)
  }

  ghost predicate KidsPlaced(f0: Forest, f: Forest, kids: seq<File>, buf: seq<Byte>) {
    && KidsIn(f, kids) && KidsDistinct(kids)
    && (forall k :: 0 <= k < |kids| ==> kids[k].inum !in f0 && Root(f, kids[k].inum))
    && KidsHold(kids, buf)
  }

  ghost predicate KidsHold(kids: seq<File>, buf: seq<Byte>) {
    && |kids| <= KidCount(|buf|)
    && (forall k :: 0 <= k < |kids| ==> Holds(kids[k], Chunk(buf, k)))
  }

  lemma KidsNone(s: Store, f: Forest, buf: seq<Byte>)
    ensures KidsDone(s, f, s, f, [], buf)
  {
    GrownRefl(s, f);
    assert KidInums(Hub([]), 0) == {};
    assert KidBlocks(Hub([]), 0) == {} by {
      assert KidBlockIds(Hub([]), 0) == [];
      assert KidTables(Hub([]), 0) == {};
    }
  }

  lemma HubGrows(kids: seq<File>, t: File)
    ensures KidInums(Hub(kids + [t]), |kids| + 1) == KidInums(Hub(kids), |kids|) + Inums(t)
    ensures KidBlocks(Hub(kids + [t]), |kids| + 1) == KidBlocks(Hub(kids), |kids|) + Blocks(t)
  {
    var n := |kids|;
    KidsPrefix(Hub(kids + [t]), Hub(kids), n);
    var a, b := KidBlockIds(Hub(kids), n), BlockIds(t);
    assert KidBlockIds(Hub(kids + [t]), n + 1) == a + b;
    assert Elems(a + b) == Elems(a) + Elems(b);
  }

  lemma KidsStep(s0: Store, f0: Forest, s: Store, f: Forest, kids: seq<File>, buf: seq<Byte>,
                 s': Store, f': Forest, i: nat)
    requires KidsDone(s0, f0, s, f, kids, buf) && |kids| < KidCount(|buf|)
    requires KidMade(s, f, s', f', i, Chunk(buf, |kids|)) && f'.Keys <= Live(s')
    ensures 1 <= i <= INODE_NUM && i in f' && f'[i].inum == i
    ensures KidsDone(s0, f0, s', f', kids + [f'[i]], buf)
  {
    hide Grown, Inums, KidInums, Blocks, KidBlocks, KidsHold, Holds, Chunk, KidCount, Unlisted, KidsDistinct;
    var t := f'[i];
    var n := |kids|;
    HubGrows(kids, t);
    GrownKeys(s0, f0, s, f, KidInums(Hub(kids), n), KidBlocks(Hub(kids), n));
    GrownTrans(s0, f0, s, f, s', f', KidInums(Hub(kids), n), KidBlocks(Hub(kids), n), Inums(t), Blocks(t));
    KidsKept(s, f, kids, s', f', t);
    KidHeld(kids, t, buf);
    KidPlaced(f0, f, f', kids, t, buf);
  }

  lemma KidsExhausted(s0: Store, f0: Forest, s1: Store, f1: Forest, kids: seq<File>, buf: seq<Byte>, s: Store, f: Forest)
    requires KidsDone(s0, f0, s1, f1, kids, buf) && Exhausted(s1, f1, s, f)
    ensures Exhausted(s0, f0, s, f)
  {
    ExhaustedAfter(s0, f0, s1, f1, s, f, KidInums(Hub(kids), |kids|), KidBlocks(Hub(kids), |kids|));
  }

  lemma KidHeld(kids: seq<File>, t: File, buf: seq<Byte>)
    requires KidsHold(kids, buf) && |kids| < KidCount(|buf|) && Holds(t, Chunk(buf, |kids|))
    ensures KidsHold(kids + [t], buf)
  {
    var all := kids + [t];
    forall k | 0 <= k < |all| ensures Holds(all[k], Chunk(buf, k)) {
      if k == |kids| {
        assert all[k] == t;
      } else {
        assert all[k] == kids[k];
      }
    }
  }

  lemma KidPlaced(f0: Forest, f: Forest, f': Forest, kids: seq<File>, t: File, buf: seq<Byte>)
    requires KidsPlaced(f0, f, kids, buf) && KidsHold(kids + [t], buf)
    requires KidsIn(f', kids) && forall k :: 0 <= k < |kids| ==> Root(f', kids[k].inum)
    requires t.inum in f' && f'[t.inum] == t && Root(f', t.inum) && t.inum !in f && t.inum !in f0
    ensures KidsPlaced(f0, f', kids + [t], buf)
  {
    KidsAppend(kids, t);
  }

  lemma KidsAppend(kids: seq<File>, t: File)
    requires KidsDistinct(kids) && forall k :: 0 <= k < |kids| ==> kids[k].inum != t.inum
    ensures KidsDistinct(kids + [t])
  {
  }

  lemma KidsKept(s: Store, f: Forest, kids: seq<File>, s': Store, f': Forest, t: File)
    requires Grown(s, f, s', f', Inums(t), Blocks(t)) && f'.Keys <= Live(s')
    requires KidsIn(f, kids) && forall k :: 0 <= k < |kids| ==> Root(f, kids[k].inum)
    ensures KidsIn(f', kids) && forall k :: 0 <= k < |kids| ==> Root(f', kids[k].inum)
  {
    forall k | 0 <= k < |kids| ensures Root(f', kids[k].inum) {
      GrownRoots(s, f, s', f', Inums(t), Blocks(t), kids[k].inum);
    }
  }

  /** An empty file is what writing nothing leaves. */
  lemma WroteNothing(s: Store, f: Forest, k: nat)
    requires 1 <= k <= INODE_NUM && k in f && f[k] == NewFile(k, T_FILE)
    ensures Wrote(s, f, s, f, k, [])
  {
    var t := f[k];
    assert KidInums(t, 0) == {} && KidTables(t, 0) == {} && KidBlockIds(t, 0) == [];
    assert Inums(t) - {k} == {} && Blocks(t) == {};
    assert s.ino[k := s.ino[k]] == s.ino;
    assert f[k := f[k]] == f;
    GrownRefl(s, f);
  }

  function Numbers(kids: seq<File>): (ws: seq<nat>)
    ensures |ws| == |kids|
  {
    if kids == [] then [] else Numbers(kids[..|kids| - 1]) + [kids[|kids| - 1].inum]
  }

  lemma NumbersStep(kids: seq<File>, t: File)
    ensures Numbers(kids + [t]) == Numbers(kids) + [t.inum]
  {
    assert (kids + [t])[..|kids|] == kids;
  }

  lemma {:induction false} NumbersAt(kids: seq<File>, k: nat)
    requires k < |kids|
    ensures Numbers(kids)[k] == kids[k].inum
  {
    if k < |kids| - 1 {
      NumbersAt(kids[..|kids| - 1], k);
    }
  }

  /** The table: the given numbers, then zeros. */
  function TableOf(numbers: seq<nat>): (ws: seq<nat>)
    requires |numbers| <= TABLE_LEN
    ensures |ws| == TABLE_LEN
  {
    numbers + seq(TABLE_LEN - |numbers|, _ => 0)
  }

  lemma TableListed(kids: seq<File>)
    requires |kids| <= TABLE_LEN
    requires forall k :: 0 <= k < |kids| ==> 1 <= kids[k].inum <= INODE_NUM
    ensures var ws := TableOf(Numbers(kids));
            AllWords(ws) && |Pack(ws)| == BLOCK_SIZE && Listed(Table(Pack(ws)), kids)
  {
    var ws := TableOf(Numbers(kids));
    forall k | 0 <= k < |kids| ensures ws[k] == kids[k].inum {
      NumbersAt(kids, k);
    }
    assert Pack(ws)[0..4 * |ws|] == Pack(ws);
    PackRoundTrip(ws, Pack(ws), 0);
  }

  /** All sub-inodes of buf are made and listed in block id, which nothing points at yet. */
  ghost predicate TableDone(s0: Store, f0: Forest, s: Store, f: Forest, id: nat, kids: seq<File>, buf: seq<Byte>) {
    && |kids| == KidCount(|buf|)
    && Grown(s0, f0, s, f, KidInums(Hub(kids), |kids|), KidBlocks(Hub(kids), |kids|) + {id})
    && KidsPlaced(f0, f, kids, buf)
    && Reserved(s, {id}) && id in s0.free && id in s.data
    && Listed(Table(s.data[id]), kids)
  }

  lemma TableStored(s0: Store, f0: Forest, s: Store, f: Forest, id: nat, kids: seq<File>, buf: seq<Byte>)
    requires Inv(s0, f0) && Inv(s, f) && id in s0.free
    requires KidsDone(s0.(free := s0.free - {id}), f0, s, f, kids, buf) && |kids| == KidCount(|buf|)
    ensures var ws := TableOf(Numbers(kids));
            && AllWords(ws) && |Pack(ws)| == BLOCK_SIZE && id in s.data
            && var s' := s.(data := s.data[id := Pack(ws)]);
            Inv(s', f) && TableDone(s0, f0, s', f, id, kids, buf)
  {
    hide Inv, Grown, KidInums, KidBlocks, Numbers, TableOf, Pack, Listed, Table, Holds, KidsHold, Unlisted, KidsDistinct, Ptrs;
    var s1 := s0.(free := s0.free - {id});
    GrownAlloc(s0, f0, id);
    ReservedKept(s1, f0, s, f, KidInums(Hub(kids), |kids|), KidBlocks(Hub(kids), |kids|), {id});
    forall k | 0 <= k < |kids| ensures 1 <= kids[k].inum <= INODE_NUM {
      NodeAt(s, f, kids[k].inum);
    }
    TableListed(kids);
    assert id in {id};
    InvWriteReserved(s, f, id, Pack(TableOf(Numbers(kids))));
    TableGrown(s0, f0, s, f, id, Pack(TableOf(Numbers(kids))), KidInums(Hub(kids), |kids|), KidBlocks(Hub(kids), |kids|));
  }

  lemma TableGrown(s0: Store, f0: Forest, s: Store, f: Forest, id: nat, x: Block, I: set<nat>, B: set<nat>)
    requires id in s0.free && Grown(s0.(free := s0.free - {id}), f0, s, f, I, B)
    ensures Grown(s0, f0, s.(data := s.data[id := x]), f, I, B + {id}) || id !in s.data
  {
    var s1 := s0.(free := s0.free - {id});
    forall i | i in I && i <= INODE_NUM ensures NewNode(s.ino[i], f[i], I, B + {id}) {
      assert NewNode(s.ino[i], f[i], I, B);
    }
  }

  /** One block for the table, and then what the sub-inodes take. */
  lemma TableSpent(s0: Store, f0: Forest, id: nat, s: Store, f: Forest, ok: bool, n: nat)
    requires id in s0.free && |f| <= INODE_NUM
    requires var s1 := s0.(free := s0.free - {id});
             if ok then Paid(s1, f0, s, f, n, KidCount(n)) else Short(s1, f0, n)
    ensures Spent(s0, f0, s, f, ok, 1 + KidBlockCost(n, KidCount(n)), KidInodeCost(n, KidCount(n)))
  {
  }

  // ---------------------------------------------------------------- the whole write

  /** The tree of inode i once its direct blocks and its table are in place. */
  ghost function BuiltFile(i: nat, kind: nat, ids: seq<nat>, table: nat, kids: seq<File>, buf: seq<Byte>): File
    requires |ids| <= Pieces(|buf|)
  {
    File(i, kind, Min(Pieces(|buf|), NDIRECT + 1), ids,
         seq(|ids|, j requires 0 <= j < |ids| => Piece(buf, j)),
         if |buf| > CHUNK then table else 0, kids)
  }

  /** A small file is complete after its direct blocks. */
  lemma SmallReady(s0: Store, f: Forest, s: Store, i: nat, n: Inode, ids: seq<nat>, buf: seq<Byte>)
    requires Inv(s0, f) && Inv(s, f) && Root(f, i) && |buf| <= CHUNK
    requires DirectDone(s0, f, s, ids, buf) && |ids| == Pieces(|buf|)
    requires i <= INODE_NUM && n == FillSlots(s0.ino[i], ids).(size := Pieces(|buf|))
    ensures Ready(s0, f, s, f, i, n, BuiltFile(i, n.kind, ids, 0, [], buf), buf)
  {
    hide Inv, KidInums, Blocks, OwnBlocks, Holds, NewNode, Unlisted, Storable, Distinct, Ptrs, Elems, Piece;
    NodeAt(s, f, i);
    NodeAt(s0, f, i);
    SmallParts(i, n.kind, ids, buf);
    SmallNode(s, s0.ino[i], i, ids, buf);
  }

  lemma SmallParts(i: nat, kind: nat, ids: seq<nat>, buf: seq<Byte>)
    requires |buf| <= CHUNK && |ids| == Pieces(|buf|)
    ensures var t := BuiltFile(i, kind, ids, 0, [], buf);
            && KidInums(t, |t.kids|) == {} && Blocks(t) == Elems(ids) == OwnBlocks(t) && Holds(t, buf)
  {
    var t := BuiltFile(i, kind, ids, 0, [], buf);
    assert KidBlockIds(t, 0) == [] && KidTables(t, 0) == {} && KidInums(t, 0) == {};
    BlocksOfTree(t);
  }

  lemma SmallNode(s: Store, before: Inode, i: nat, ids: seq<nat>, buf: seq<Byte>)
    requires |buf| <= CHUNK && |ids| == Pieces(|buf|) && 1 <= before.kind <= 3
    requires forall j :: 0 <= j < |ids| ==> ids[j] in s.data
    requires forall j :: 0 <= j < |ids| ==> s.data[ids[j]] == Piece(buf, j)
    ensures var n := FillSlots(before, ids).(size := Pieces(|buf|));
            var t := BuiltFile(i, before.kind, ids, 0, [], buf);
            NodeOf(s, n, t) && PutBack(before, n, t)
  {
    hide Piece;
  }

  /** A larger one after its table; the table step starts where the direct step ended. */
  lemma LargeReady(s0: Store, f: Forest, s1: Store, s: Store, g: Forest, i: nat, n: Inode,
                   ids: seq<nat>, table: nat, kids: seq<File>, buf: seq<Byte>, t: File)
    requires Inv(s0, f) && Inv(s1, f) && Inv(s, g) && Root(f, i) && |buf| > CHUNK
    requires DirectDone(s0, f, s1, ids, buf) && |ids| == NDIRECT
    requires TableDone(s1, f, s, g, table, kids, buf)
    requires i <= INODE_NUM && n == LargeInode(s0.ino[i], ids, table)
    requires t == BuiltFile(i, n.kind, ids, table, kids, buf)
    ensures Ready(s0, f, s, g, i, n, t, buf)
  {
    LargePutBack(s0.ino[i], ids, table, t);
    LargeGrown(s0, f, s1, s, g, ids, table, kids, buf, t);
    LargeRoot(s0, f, s, g, i, KidInums(t, |t.kids|), Blocks(t));
    LargeNode(s0, f, s1, s, g, i, n, ids, table, kids, buf);
  }

  function LargeInode(n: Inode, ids: seq<nat>, table: nat): Inode
    requires |ids| == NDIRECT
  {
    SetSlot(FillSlots(n, ids), NDIRECT, table).(size := NDIRECT + 1)
  }

  lemma LargePutBack(before: Inode, ids: seq<nat>, table: nat, t: File)
    requires |ids| == NDIRECT && t.ids == ids && t.size == NDIRECT + 1 && t.table == table
    ensures PutBack(before, LargeInode(before, ids, table), t)
  {
  }

  lemma LargeGrown(s0: Store, f: Forest, s1: Store, s: Store, g: Forest,
                   ids: seq<nat>, table: nat, kids: seq<File>, buf: seq<Byte>, t: File)
    requires Inv(s1, f) && Inv(s, g)
    requires DirectDone(s0, f, s1, ids, buf)
    requires TableDone(s1, f, s, g, table, kids, buf)
    requires t.ids == ids && t.size == NDIRECT + 1 && t.table == table && t.kids == kids
    ensures Grown(s0, f, s, g, KidInums(t, |t.kids|), Blocks(t))
    ensures Reserved(s, OwnBlocks(t)) && table !in ids
  {
    var I, B := KidInums(Hub(kids), |kids|), KidBlocks(Hub(kids), |kids|) + {table};
    LargeParts(ids, table, kids, t);
    GrownTrans(s0, f, s1, f, s, g, {}, Elems(ids), I, B);
    ReservedKept(s1, f, s, g, I, B, Elems(ids));
    assert table in B && table !in Elems(ids);
  }

  lemma LargeParts(ids: seq<nat>, table: nat, kids: seq<File>, t: File)
    requires t.ids == ids && t.size == NDIRECT + 1 && t.table == table && t.kids == kids
    ensures KidInums(t, |t.kids|) == {} + KidInums(Hub(kids), |kids|)
    ensures Blocks(t) == Elems(ids) + (KidBlocks(Hub(kids), |kids|) + {table})
    ensures OwnBlocks(t) == Elems(ids) + {table}
  {
    KidsPrefix(t, Hub(kids), |kids|);
    BlocksOfTree(t);
  }

  lemma LargeRoot(s0: Store, f: Forest, s: Store, g: Forest, i: nat, I: set<nat>, B: set<nat>)
    requires Inv(s0, f) && g.Keys == Live(s) && Grown(s0, f, s, g, I, B) && Root(f, i)
    ensures Root(g, i) && i in Live(s) && s.ino[i] == s0.ino[i]
  {
    assert i in Live(s0);
    GrownRoots(s0, f, s, g, I, B, i);
  }

  lemma LargeNode(s0: Store, f: Forest, s1: Store, s: Store, g: Forest, i: nat, n: Inode,
                  ids: seq<nat>, table: nat, kids: seq<File>, buf: seq<Byte>)
    requires Inv(s0, f) && i in f && i <= INODE_NUM && |buf| > CHUNK
    requires DirectDone(s0, f, s1, ids, buf) && |ids| == NDIRECT
    requires TableDone(s1, f, s, g, table, kids, buf)
    requires PutBack(s0.ino[i], n, BuiltFile(i, s0.ino[i].kind, ids, table, kids, buf))
    ensures NodeOf(s, n, BuiltFile(i, n.kind, ids, table, kids, buf))
    ensures Holds(BuiltFile(i, n.kind, ids, table, kids, buf), buf)
  {
    hide Inv, Holds, KidsHold, NewNode, KidInums, KidBlocks, Piece, Table, Listed;
    LargeHolds(i, n.kind, ids, table, kids, buf);
    var B := KidBlocks(Hub(kids), |kids|) + {table};
    NodeAt(s0, f, i);
    forall j | 0 <= j < |ids| ensures ids[j] in s.data && s.data[ids[j]] == Piece(buf, j) {
      assert ids[j] in Elems(ids);
      assert ids[j] !in s1.free;
      assert ids[j] !in B;
    }
  }

  lemma LargeHolds(i: nat, kind: nat, ids: seq<nat>, table: nat, kids: seq<File>, buf: seq<Byte>)
    requires |buf| > CHUNK && |ids| == NDIRECT && KidsHold(kids, buf) && |kids| == KidCount(|buf|)
    ensures |ids| <= Pieces(|buf|) && Holds(BuiltFile(i, kind, ids, table, kids, buf), buf)
  {
  }
}
