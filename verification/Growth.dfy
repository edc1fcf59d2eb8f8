/** What write_file and remove_file may change, and what they give back. */
module Growth {
  import opened Layout
  import opened Bytes
  import opened Stores
  import opened FileTree
  import opened FileFormat
  import opened Accounting
  import opened Forests

  /** Data and table blocks of a tree. */
  function Blocks(t: File): set<nat> {
    Elems(BlockIds(t)) + Tables(t)
  }

  function KidBlocks(t: File, n: nat): set<nat>
    requires n <= |t.kids|
  {
    Elems(KidBlockIds(t, n)) + KidTables(t, n)
  }

  /** No pointer is left over past the blocks in use. */
  ghost predicate Clean(n: Inode)
  {
    forall j :: Min(n.size, NDIRECT) <= j < NDIRECT ==> n.blocks[j] == 0
  }

  /** A sub-inode made on the way: it refers to new blocks and new sub-inodes only. */
  ghost predicate NewNode(n: Inode, t: File, I: set<nat>, B: set<nat>)
  {
    n.kind == T_FILE && Clean(n) && Ptrs(n) <= B && KidSet(t) <= I
  }

  /** From (s, f) to (s', f') exactly the free inodes I and the free blocks B were taken;
      everything that was there is as it was. */
  ghost predicate Grown(s: Store, f: Forest, s': Store, f': Forest, I: set<nat>, B: set<nat>) {
    && s'.n == s.n && s'.data.Keys == s.data.Keys
    && B <= s.free && s'.free == s.free - B
    && (forall b :: b in s.data && b !in B ==> s'.data[b] == s.data[b])
    && I !! f.Keys && f'.Keys == f.Keys + I
    && (forall i :: i in f ==> f'[i] == f[i])
    && (forall i :: i in f && i <= INODE_NUM ==> s'.ino[i] == s.ino[i])
    && (forall i :: i in I && i <= INODE_NUM ==> NewNode(s'.ino[i], f'[i], I, B))
  }

  lemma GrownRefl(s: Store, f: Forest)
    ensures Grown(s, f, s, f, {}, {})
  {
  }

  lemma GrownTrans(s0: Store, f0: Forest, s1: Store, f1: Forest, s2: Store, f2: Forest,
                   I: set<nat>, B: set<nat>, J: set<nat>, C: set<nat>)
    requires Grown(s0, f0, s1, f1, I, B) && Grown(s1, f1, s2, f2, J, C)
    ensures Grown(s0, f0, s2, f2, I + J, B + C)
    ensures B !! C && I !! J
  {
    forall i | i in I + J && i <= INODE_NUM ensures NewNode(s2.ino[i], f2[i], I + J, B + C) {
      if i in I {
        assert NewNode(s1.ino[i], f1[i], I, B);
      }
    }
  }

  lemma GrownKeys(s: Store, f: Forest, s': Store, f': Forest, I: set<nat>, B: set<nat>)
    requires Grown(s, f, s', f', I, B)
    ensures f'.Keys == f.Keys + I
  {
    hide NewNode;
  }

  lemma GrownAlloc(s: Store, f: Forest, b: nat)
    requires Inv(s, f) && b in s.free
    ensures Inv(s.(free := s.free - {b}), f)
    ensures Grown(s, f, s.(free := s.free - {b}), f, {}, {b})
    ensures Reserved(s.(free := s.free - {b}), {b})
  {
    InvAlloc(s, f, b);
  }

  /** Blocks set aside stay set aside while others are taken. */
  lemma ReservedKept(s: Store, f: Forest, s': Store, f': Forest, I: set<nat>, B: set<nat>, R: set<nat>)
    requires Inv(s, f) && Inv(s', f') && Grown(s, f, s', f', I, B) && Reserved(s, R)
    ensures Reserved(s', R)
  {
    forall i | i in Live(s') ensures R !! Ptrs(s'.ino[i]) {
      if i in I {
        assert NewNode(s'.ino[i], f'[i], I, B);
      } else {
        assert i in f;
      }
    }
  }

  lemma GrownRoots(s: Store, f: Forest, s': Store, f': Forest, I: set<nat>, B: set<nat>, r: nat)
    requires Grown(s, f, s', f', I, B) && Root(f, r) && f'.Keys <= Live(s')
    ensures Root(f', r)
  {
    forall p | p in f' ensures r !in KidSet(f'[p]) {
      if p in I {
        assert NewNode(s'.ino[p], f'[p], I, B);
      }
    }
  }

  // ---------------------------------------------------------------- write_file

  /** write_file of buf to inode i: inode i now roots a tree that holds buf, made of i, of inodes
      that were free, and of blocks that were free. With inode i put back as it was, the rest of
      the disk is the old one plus those new parts: nothing else was touched, and nothing that
      inode i held before was given back. */
  ghost predicate Wrote(s: Store, f: Forest, s': Store, f': Forest, i: nat, buf: seq<Byte>) {
    && i in f && i in f' && i <= INODE_NUM
    && var t := f'[i];
    && var I := Inums(t) - {i};
    && Holds(t, buf)
    && Grown(s, f, s'.(ino := s'.ino[i := s.ino[i]]), f'[i := f[i]], I, Blocks(t))
    && s'.ino[i].kind == s.ino[i].kind
    && KidSet(t) <= I
    && (forall j :: |t.ids| <= j < NDIRECT ==> s'.ino[i].blocks[j] == s.ino[i].blocks[j])
  }

  /** The inodes after a write: those that were there, and the sub-inodes it made. */
  lemma WroteInodes(s: Store, f: Forest, s': Store, f': Forest, i: nat, buf: seq<Byte>)
    requires Wrote(s, f, s', f', i, buf)
    ensures i in f && i in f' && i <= INODE_NUM
    ensures var I := Inums(f'[i]) - {i};
            && I !! f.Keys && f'.Keys == f.Keys + I && KidSet(f'[i]) <= I
            && (forall x :: x in I && x <= INODE_NUM ==> NewNode(s'.ino[x], f'[x], I, Blocks(f'[i])))
    ensures forall x :: x in f && x != i ==> f'[x] == f[x] && (x <= INODE_NUM ==> s'.ino[x] == s.ino[x])
  {
    hide Holds, Inums, Blocks, KidSet, NewNode;
    var I := Inums(f'[i]) - {i};
    var m, g := s'.(ino := s'.ino[i := s.ino[i]]), f'[i := f[i]];
    assert Grown(s, f, m, g, I, Blocks(f'[i]));
    assert g.Keys == f'.Keys && i !in I;
    assert forall x :: x in f' && x != i ==> g[x] == f'[x];
    assert forall x :: 0 <= x <= INODE_NUM && x != i ==> m.ino[x] == s'.ino[x];
  }

  /** The blocks after a write: those of the new tree are taken, all others are as they were. */
  lemma WroteBlocks(s: Store, f: Forest, s': Store, f': Forest, i: nat, buf: seq<Byte>)
    requires Wrote(s, f, s', f', i, buf)
    ensures s'.n == s.n && s'.data.Keys == s.data.Keys
    ensures Blocks(f'[i]) <= s.free && s'.free == s.free - Blocks(f'[i])
    ensures forall b :: b in s.data && b !in Blocks(f'[i]) ==> s'.data[b] == s.data[b]
  {
    hide Holds, Inums, Blocks, KidSet, NewNode;
    var m, g := s'.(ino := s'.ino[i := s.ino[i]]), f'[i := f[i]];
    assert Grown(s, f, m, g, Inums(f'[i]) - {i}, Blocks(f'[i]));
  }

  /** Every other file and directory is as it was: contents, size, type, entries. */
  lemma WroteFrame(s: Store, f: Forest, s': Store, f': Forest, i: nat, buf: seq<Byte>)
    requires Wrote(s, f, s', f', i, buf)
    ensures forall j :: j in f && j != i ==> j in f' && f'[j] == f[j]
  {
    hide *;
    WroteInodes(s, f, s', f', i, buf);
  }

  /** The type of the written inode stays, and every inode made on the way is a plain file. */
  lemma WroteKinds(s: Store, f: Forest, s': Store, f': Forest, i: nat, buf: seq<Byte>)
    requires Inv(s, f) && Inv(s', f') && Wrote(s, f, s', f', i, buf)
    ensures forall j :: j in f' && j !in f ==> f'[j].kind == T_FILE
    ensures f'[i].kind == f[i].kind
  {
    assert i in f && i in f' && s'.ino[i].kind == s.ino[i].kind;
    hide Inv, Wrote;
    WroteInodes(s, f, s', f', i, buf);
    forall j | j in f' && j !in f ensures f'[j].kind == T_FILE {
      NodeAt(s', f', j);
    }
    NodeAt(s', f', i);
    NodeAt(s, f, i);
  }

  /** A write lists no inode that was there before, so roots stay roots. */
  lemma WroteRoots(s: Store, f: Forest, s': Store, f': Forest, i: nat, buf: seq<Byte>, r: nat)
    requires Inv(s', f') && Wrote(s, f, s', f', i, buf) && Root(f, r)
    ensures Root(f', r)
  {
    hide Inv, Wrote;
    WroteInodes(s, f, s', f', i, buf);
    forall p | p in f' ensures r !in KidSet(f'[p]) {
      NodeAt(s', f', p);
    }
  }

  // ---------------------------------------------------------------- remove_file

  /** Direct pointers before the first zero one. */
  function RunLen(blocks: Pointers, k: nat): (n: nat)
    requires k <= NDIRECT
    ensures k <= n <= NDIRECT
    ensures forall j :: k <= j < n ==> blocks[j] != 0
    ensures n < NDIRECT ==> blocks[n] == 0
    decreases NDIRECT - k
  {
    if k == NDIRECT || blocks[k] == 0 then k else RunLen(blocks, k + 1)
  }

  /** The blocks remove_file frees for one inode. */
  function Released(n: Inode): set<nat>
  {
    Elems(n.blocks[..RunLen(n.blocks, 0)])
  }

  /** The blocks remove_file frees for the inodes I. */
  ghost function ReleasedBy(s: Store, I: set<nat>): set<nat> {
    set i: nat, b: nat | i in I && i <= INODE_NUM && b in Released(s.ino[i]) :: b
  }

  lemma ReleasedActive(n: Inode)
    ensures Released(n) <= Ptrs(n)
    ensures Distinct(n) && n.size > NDIRECT ==> n.blocks[NDIRECT] !in Released(n)
  {
    var run := n.blocks[..RunLen(n.blocks, 0)];
    forall b | b in Released(n) ensures b in Ptrs(n) && (Distinct(n) && n.size > NDIRECT ==> b != n.blocks[NDIRECT]) {
      var j :| 0 <= j < |run| && run[j] == b;
      assert Active(n, j) && n.blocks[j] == b;
      if n.size > NDIRECT {
        assert Active(n, NDIRECT);
      }
    }
  }

  /** remove_file of root r keeps the invariant, and every other file as it was. */
  lemma RemovedKeepsInv(s: Store, f: Forest, r: nat)
    requires Inv(s, f) && Root(f, r)
    ensures var I := Inums(f[r]);
            && Inv(Erase(s, I, ReleasedBy(s, I)), f - I)
            && (forall q :: Root(f, q) && q != r ==> Root(f - I, q) && (f - I)[q] == f[q])
  {
    var I := Inums(f[r]);
    forall b | b in ReleasedBy(s, I) ensures exists i :: i in I && i < |s.ino| && b in Ptrs(s.ino[i]) {
      var i :| i in I && i <= INODE_NUM && b in Released(s.ino[i]);
      ReleasedActive(s.ino[i]);
    }
    EraseTree(s, f, r, ReleasedBy(s, I));
  }

  // ---------------------------------------------------------------- what a removal gives back

  /** The data blocks of a tree are those of its nodes. */
  lemma {:induction false} TreeIds(f: Forest, i: nat, b: nat)
    requires KidsDisjoint(f) && i in f
    ensures Inums(f[i]) <= f.Keys
    ensures b in BlockIds(f[i]) <==> exists x :: x in Inums(f[i]) && b in f[x].ids
    ensures b in Tables(f[i]) <==> exists x :: x in Inums(f[i]) && f[x].size > NDIRECT && b == f[x].table
    decreases f[i], |f[i].kids| + 1
  {
    ClosedTree(f, i);
    KidTreeIds(f, i, |f[i].kids|, b);
    assert i in Inums(f[i]);
  }

  lemma {:induction false} KidTreeIds(f: Forest, i: nat, n: nat, b: nat)
    requires KidsDisjoint(f) && i in f && n <= |f[i].kids|
    ensures KidInums(f[i], n) <= f.Keys
    ensures b in KidBlockIds(f[i], n) <==> exists x :: x in KidInums(f[i], n) && b in f[x].ids
    ensures b in KidTables(f[i], n) <==>
            exists x :: x in KidInums(f[i], n) && f[x].size > NDIRECT && b == f[x].table
    decreases f[i], n
  {
    hide BlockIds, Tables, Inums, KidsDisjoint;
    if n > 0 {
      KidAt(f, i, n - 1);
      KidTreeIds(f, i, n - 1, b);
      TreeIds(f, f[i].kids[n - 1].inum, b);
    }
  }

  /** On a tree without left-over pointers, remove_file frees exactly the data blocks. */
  lemma CleanReleases(s: Store, f: Forest, r: nat)
    requires Inv(s, f) && r in f
    requires forall x :: x in Inums(f[r]) && x <= INODE_NUM ==> Clean(s.ino[x])
    ensures ReleasedBy(s, Inums(f[r])) == Elems(BlockIds(f[r]))
  {
    forall b ensures b in ReleasedBy(s, Inums(f[r])) <==> b in BlockIds(f[r]) {
      CleanReleasesBlock(s, f, r, b);
    }
  }

  lemma CleanReleasesBlock(s: Store, f: Forest, r: nat, b: nat)
    requires Inv(s, f) && r in f
    requires forall x :: x in Inums(f[r]) && x <= INODE_NUM ==> Clean(s.ino[x])
    ensures b in ReleasedBy(s, Inums(f[r])) <==> b in BlockIds(f[r])
  {
    hide Clean, Released, BlockIds, Tables, Inums, NodeOf;
    assert KidsDisjoint(f) by {
      hide KidsDisjoint, Shape, PointersDisjoint;
    }
    TreeIds(f, r, b);
    hide Inv;
    forall x | x in Inums(f[r]) ensures x <= INODE_NUM && (b in Released(s.ino[x]) <==> b in f[x].ids) {
      NodeAt(s, f, x);
      CleanRun(s, s.ino[x], f[x]);
    }
  }

  /** Whatever the tree, remove_file frees none of its tables. */
  lemma TablesKept(s: Store, f: Forest, r: nat)
    requires Inv(s, f) && r in f
    ensures ReleasedBy(s, Inums(f[r])) !! Tables(f[r])
  {
    forall b | b in Tables(f[r]) ensures b !in ReleasedBy(s, Inums(f[r])) {
      TreeIds(f, r, b);
      var x :| x in Inums(f[r]) && f[x].size > NDIRECT && b == f[x].table;
      TableNotReleased(s, f, Inums(f[r]), x);
    }
  }

  lemma CleanRun(s: Store, n: Inode, t: File)
    requires NodeOf(s, n, t) && Clean(n) && 0 !in s.data
    ensures Released(n) == Elems(t.ids)
  {
    var run := RunLen(n.blocks, 0);
    assert forall j :: 0 <= j < |t.ids| ==> t.ids[j] == n.blocks[j] && n.blocks[j] != 0;
    assert |t.ids| < NDIRECT ==> n.blocks[|t.ids|] == 0;
    assert run == |t.ids|;
    assert n.blocks[..run] == t.ids;
  }

  lemma TableNotReleased(s: Store, f: Forest, I: set<nat>, x: nat)
    requires Inv(s, f) && I <= f.Keys && x in I && f[x].size > NDIRECT
    ensures f[x].table !in ReleasedBy(s, I)
  {
    assert x in Live(s) && NodeOf(s, s.ino[x], f[x]);
    assert Active(s.ino[x], NDIRECT);
    assert f[x].table in Ptrs(s.ino[x]);
    forall y | y in I && y <= INODE_NUM ensures f[x].table !in Released(s.ino[y]) {
      assert y in Live(s);
      ReleasedActive(s.ino[y]);
    }
  }

  /** s with the blocks T taken, holding what they hold in s2. */
  ghost function WithTables(s: Store, s2: Store, T: set<nat>): Store
    requires T <= s2.data.Keys
  {
    s.(free := s.free - T, data := map b | b in s.data :: if b in T then s2.data[b] else s.data[b])
  }

  /** The state after remove_file of the tree t. */
  ghost function Removed(s: Store, t: File): Store {
    Erase(s, Inums(t), ReleasedBy(s, Inums(t)))
  }

  /** Create, write, remove: the disk is back as it was, free blocks and inodes included, except
      that the table blocks of the tree stay marked and keep their contents: one per level. So it
      is back entirely exactly when the buffer fits the direct blocks. */
  lemma WriteRemoveConserves(s: Store, f: Forest, k: nat, s2: Store, f2: Forest, buf: seq<Byte>)
    requires Inv(s, f) && Inv(s2, f2) && 1 <= k <= INODE_NUM && s.ino[k].kind == 0
    requires Wrote(s.(ino := s.ino[k := NewInode(T_FILE)]), f[k := NewFile(k, T_FILE)], s2, f2, k, buf)
    ensures Tables(f2[k]) <= s.free && s.free <= s2.data.Keys
    ensures Removed(s2, f2[k]) == WithTables(s, s2, Tables(f2[k]))
    ensures |Tables(f2[k])| == Levels(|buf|)
    ensures Removed(s2, f2[k]) == s <==> |buf| <= CHUNK
  {
    var s1, f1 := s.(ino := s.ino[k := NewInode(T_FILE)]), f[k := NewFile(k, T_FILE)];
    InvNewInode(s, f, k, T_FILE);
    ConservedBlocks(s1, f1, s2, f2, k, buf);
    ConservedInodes(s, f, k, s2, f2, buf);
    TablesExact(s2, f2, k, buf);
    TraceLeft(s, s2, Tables(f2[k]));
  }

  lemma TraceLeft(s: Store, s2: Store, T: set<nat>)
    requires T <= s.free && s.free <= s2.data.Keys
    ensures WithTables(s, s2, T) == s <==> |T| == 0
    ensures WithTables(s, s2, T).ino == s.ino && s.free - WithTables(s, s2, T).free == T
  {
    if b :| b in T {
      assert b !in WithTables(s, s2, T).free;
    } else {
      assert WithTables(s, s2, T).data == s.data;
    }
  }

  /** A written file has exactly one table block per level. */
  lemma {:induction false} TablesExact(s: Store, f: Forest, i: nat, buf: seq<Byte>)
    requires Inv(s, f) && i in f && Holds(f[i], buf)
    ensures |Tables(f[i])| == Levels(|buf|)
    decreases f[i]
  {
    var t := f[i];
    if |buf| > CHUNK {
      LevelsStep(|buf|);
      TablesOfHeld(t, buf);
      if |t.kids| == TABLE_LEN {
        var rest := t.kids[LAST];
        TablesExact(s, f, rest.inum, Chunk(buf, LAST));
        TableNotBelow(s, f, i, LAST);
        assert |{t.table} + Tables(rest)| == 1 + |Tables(rest)|;
      }
    } else {
      NoTables(t, buf);
    }
  }

  lemma TablesOfHeld(t: File, buf: seq<Byte>)
    requires Holds(t, buf) && |buf| > CHUNK
    ensures Tables(t) == {t.table} + if |t.kids| == TABLE_LEN then Tables(t.kids[LAST]) else {}
  {
    HeldKidTables(t, buf, Min(|t.kids|, LAST));
  }

  /** The table of an inode is no table of a sub-inode. */
  lemma TableNotBelow(s: Store, f: Forest, i: nat, k: nat)
    requires Inv(s, f) && i in f && f[i].size > NDIRECT && k < |f[i].kids|
    ensures f[i].table !in Tables(f[i].kids[k])
  {
    var b := f[i].table;
    TreeIds(f, f[i].kids[k].inum, b);
    if b in Tables(f[i].kids[k]) {
      var x :| x in Inums(f[i].kids[k]) && f[x].size > NDIRECT && b == f[x].table;
      NotBelowItself(f, i, k);
      TablesApart(s, f, i, x);
    }
  }

  lemma TablesApart(s: Store, f: Forest, i: nat, j: nat)
    requires Inv(s, f) && i in f && j in f && i != j && f[i].size > NDIRECT && f[j].size > NDIRECT
    ensures f[i].table != f[j].table
  {
    assert i in Live(s) && NodeOf(s, s.ino[i], f[i]);
    assert j in Live(s) && NodeOf(s, s.ino[j], f[j]);
    assert Active(s.ino[i], NDIRECT) && Active(s.ino[j], NDIRECT);
    assert f[i].table in Ptrs(s.ino[i]) && f[j].table in Ptrs(s.ino[j]);
  }

  /** One byte too many for the direct blocks: a table block stays behind. */
  lemma TableLeftBehind(s: Store, f: Forest, k: nat, s2: Store, f2: Forest, buf: seq<Byte>)
    requires Inv(s, f) && Inv(s2, f2) && 1 <= k <= INODE_NUM && s.ino[k].kind == 0
    requires Wrote(s.(ino := s.ino[k := NewInode(T_FILE)]), f[k := NewFile(k, T_FILE)], s2, f2, k, buf)
    requires |buf| == CHUNK + 1
    ensures Removed(s2, f2[k]) != s && Removed(s2, f2[k]).ino == s.ino
    ensures |s.free - Removed(s2, f2[k]).free| == 1
  {
    WriteRemoveConserves(s, f, k, s2, f2, buf);
    TraceLeft(s, s2, Tables(f2[k]));
  }

  lemma ConservedBlocks(s: Store, f: Forest, s': Store, f': Forest, k: nat, buf: seq<Byte>)
    requires Inv(s, f) && Inv(s', f') && Wrote(s, f, s', f', k, buf) && s.ino[k].blocks == NoBlocks()
    ensures Tables(f'[k]) <= s.free && s'.data.Keys == s.data.Keys && s'.n == s.n
    ensures Removed(s', f'[k]).free == s.free - Tables(f'[k])
    ensures Removed(s', f'[k]).data == WithTables(s, s', Tables(f'[k])).data
  {
    NewTreeClean(s, f, s', f', k, buf);
    CleanReleases(s', f', k);
    TablesKept(s', f', k);
    GivenBack(s, f, s', f', k, buf, ReleasedBy(s', Inums(f'[k])));
  }

  lemma GivenBack(s: Store, f: Forest, s': Store, f': Forest, k: nat, buf: seq<Byte>, R: set<nat>)
    requires Wrote(s, f, s', f', k, buf)
    requires s.free <= s.data.Keys && forall b :: b in s.free ==> s.data[b] == ZERO_BLOCK
    requires R == Elems(BlockIds(f'[k])) && R !! Tables(f'[k])
    ensures Tables(f'[k]) <= s.free && s'.data.Keys == s.data.Keys && s'.n == s.n
    ensures Erase(s', Inums(f'[k]), R).free == s.free - Tables(f'[k])
    ensures Erase(s', Inums(f'[k]), R).data == WithTables(s, s', Tables(f'[k])).data
  {
    var t := f'[k];
    var m, g := s'.(ino := s'.ino[k := s.ino[k]]), f'[k := f[k]];
    assert Grown(s, f, m, g, Inums(t) - {k}, Blocks(t));
    assert m.free == s'.free && m.data == s'.data;
    assert Blocks(t) == R + Tables(t);
  }

  lemma NoTables(t: File, buf: seq<Byte>)
    requires Holds(t, buf) && |buf| <= CHUNK
    ensures Tables(t) == {}
  {
    assert KidTables(t, 0) == {};
  }

  lemma ConservedInodes(s: Store, f: Forest, k: nat, s2: Store, f2: Forest, buf: seq<Byte>)
    requires Inv(s, f) && Inv(s2, f2) && 1 <= k <= INODE_NUM && s.ino[k].kind == 0
    requires Wrote(s.(ino := s.ino[k := NewInode(T_FILE)]), f[k := NewFile(k, T_FILE)], s2, f2, k, buf)
    ensures Removed(s2, f2[k]).ino == s.ino
  {
    var s1, f1 := s.(ino := s.ino[k := NewInode(T_FILE)]), f[k := NewFile(k, T_FILE)];
    InvNewInode(s, f, k, T_FILE);
    forall x | 0 <= x <= INODE_NUM && x != k
      ensures s.ino[x] == if x in Inums(f2[k]) then FREE_INODE else s2.ino[x]
    {
      ConservedInode(s1, f1, s2, f2, k, buf, x);
    }
    assert k in Inums(f2[k]);
  }

  lemma NewTreeClean(s: Store, f: Forest, s': Store, f': Forest, k: nat, buf: seq<Byte>)
    requires Inv(s', f') && Wrote(s, f, s', f', k, buf) && s.ino[k].blocks == NoBlocks()
    ensures forall x :: x in Inums(f'[k]) && x <= INODE_NUM ==> Clean(s'.ino[x])
  {
    hide Inv, Inums, Blocks;
    assert k in f' && |f'[k].ids| <= NDIRECT && forall j :: |f'[k].ids| <= j < NDIRECT ==> s'.ino[k].blocks[j] == 0;
    hide Wrote;
    WroteInodes(s, f, s', f', k, buf);
    NodeAt(s', f', k);
  }

  lemma ConservedInode(s: Store, f: Forest, s': Store, f': Forest, k: nat, buf: seq<Byte>, x: nat)
    requires Inv(s, f) && Inv(s', f') && Wrote(s, f, s', f', k, buf) && x <= INODE_NUM && x != k
    ensures x in Inums(f'[k]) ==> s.ino[x] == FREE_INODE
    ensures x !in Inums(f'[k]) ==> s'.ino[x] == s.ino[x]
  {
    hide Wrote, Inums;
    WroteInodes(s, f, s', f', k, buf);
    LiveKeys(s, f);
    LiveKeys(s', f');
  }
}
