/** What writes and removals lose for good: marked blocks that nothing points at any more, and
    sub-inodes that no table lists any more. */
module Losses {
  import opened Layout
  import opened Bytes
  import opened Stores
  import opened FileTree
  import opened FileFormat
  import opened Forests
  import opened Growth
  import opened Directory

  /** A marked data block that no inode in use points at. */
  ghost predicate IsLost(s: Store, b: nat) {
    b in s.data && b !in s.free && forall i :: i in Live(s) ==> b !in Ptrs(s.ino[i])
  }

  ghost function Lost(s: Store): set<nat> {
    set b | b in s.data && IsLost(s, b)
  }

  /** The inodes that no table lists: files and directories, and sub-inodes left behind. */
  ghost function Roots(f: Forest): set<nat> {
    set r | r in f && Root(f, r)
  }

  /** The pointers of an inode that a write of k blocks replaces or forgets: the non-zero direct
      pointers in front, and the table. */
  function Overwritten(n: Inode, k: nat): set<nat> {
    (set j: nat | j < Min(k, NDIRECT) && n.blocks[j] != 0 :: n.blocks[j])
    + if n.size > NDIRECT then {n.blocks[NDIRECT]} else {}
  }

  lemma OverwrittenPtrs(n: Inode, k: nat)
    ensures Overwritten(n, k) <= Ptrs(n)
  {
    forall b | b in Overwritten(n, k) ensures b in Ptrs(n) {
      if n.size > NDIRECT && b == n.blocks[NDIRECT] {
        assert Active(n, NDIRECT);
      } else {
        var j: nat :| j < Min(k, NDIRECT) && n.blocks[j] == b != 0;
        assert Active(n, j);
      }
    }
  }

  // ---------------------------------------------------------------- the record after a write

  /** The records of a write, before and after: the front of the direct pointers is new. */
  ghost predicate NewFront(n: Inode, m: Inode, t: File) {
    && |t.ids| <= NDIRECT && m.size == t.size
    && (forall j :: 0 <= j < |t.ids| ==> m.blocks[j] == t.ids[j])
    && (forall j :: |t.ids| <= j < NDIRECT ==> m.blocks[j] == n.blocks[j])
    && (t.size > NDIRECT ==> m.blocks[NDIRECT] == t.table)
  }

  /** It points at the blocks of the new tree, and at the old ones that are not overwritten. */
  lemma PtrsAfter(n: Inode, m: Inode, t: File, b: nat)
    requires NewFront(n, m, t) && Distinct(n)
    ensures b in Ptrs(m) ==> b in Blocks(t) || (b in Ptrs(n) && b !in Overwritten(n, |t.ids|))
    ensures b in Ptrs(n) && b !in Overwritten(n, |t.ids|) ==> b in Ptrs(m)
  {
    if b in Ptrs(m) {
      var j: nat :| j <= NDIRECT && Active(m, j) && m.blocks[j] == b;
      if j < |t.ids| {
        assert BlockIds(t)[j] == b;
      } else if j < NDIRECT {
        assert Active(n, j);
        KeptSlot(n, |t.ids|, j);
      }
    }
    if b in Ptrs(n) && b !in Overwritten(n, |t.ids|) {
      var j: nat :| j <= NDIRECT && Active(n, j) && n.blocks[j] == b;
      assert |t.ids| <= j < NDIRECT;
      assert Active(m, j);
    }
  }

  lemma KeptSlot(n: Inode, k: nat, j: nat)
    requires Distinct(n) && k <= j < NDIRECT && n.blocks[j] != 0
    ensures n.blocks[j] !in Overwritten(n, k)
  {
    assert Active(n, j);
    if n.size > NDIRECT {
      assert Active(n, NDIRECT);
    }
    forall i: nat | i < Min(k, NDIRECT) && n.blocks[i] != 0 ensures n.blocks[i] != n.blocks[j] {
      assert Active(n, i);
    }
  }

  /** The data blocks and tables of a tree are pointed at from inside the tree. */
  lemma TreePointed(s: Store, f: Forest, i: nat, b: nat)
    requires Inv(s, f) && i in f && b in Blocks(f[i])
    ensures exists x :: x in Live(s) && b in Ptrs(s.ino[x])
  {
    TreeIds(f, i, b);
    if b in Tables(f[i]) {
      var x :| x in Inums(f[i]) && f[x].size > NDIRECT && b == f[x].table;
      NodePointed(s, f, x, b);
    } else {
      var x :| x in Inums(f[i]) && b in f[x].ids;
      NodePointed(s, f, x, b);
    }
  }

  lemma NodePointed(s: Store, f: Forest, x: nat, b: nat)
    requires Inv(s, f) && x in f && (b in f[x].ids || (f[x].size > NDIRECT && b == f[x].table))
    ensures x in Live(s) && b in Ptrs(s.ino[x])
  {
    var n := s.ino[x];
    assert x in Live(s) && NodeOf(s, n, f[x]);
    if b in f[x].ids {
      var j :| 0 <= j < |f[x].ids| && f[x].ids[j] == b;
      assert b in s.data && b != 0;
      assert Active(n, j) && n.blocks[j] == b;
    } else {
      assert Active(n, NDIRECT);
    }
  }

  // ---------------------------------------------------------------- overwriting

  /** What a write leaves of each inode that was there. */
  lemma WroteRecords(s: Store, f: Forest, s': Store, f': Forest, i: nat, buf: seq<Byte>)
    requires Inv(s, f) && Inv(s', f') && Wrote(s, f, s', f', i, buf)
    ensures i in Live(s) && i in Live(s') && Live(s) <= Live(s')
    ensures NewFront(s.ino[i], s'.ino[i], f'[i]) && |f'[i].ids| == Min(Pieces(|buf|), NDIRECT)
    ensures forall x :: x in Live(s) && x != i ==> s'.ino[x] == s.ino[x]
    ensures forall x :: x in Live(s') && x !in Live(s) ==> Ptrs(s'.ino[x]) <= Blocks(f'[i])
    ensures s'.data.Keys == s.data.Keys && Blocks(f'[i]) <= s.free && s'.free == s.free - Blocks(f'[i])
  {
    hide Inv, Inums, Blocks, Ptrs;
    var t := f'[i];
    assert |t.ids| == Min(Pieces(|buf|), NDIRECT) && forall j :: |t.ids| <= j < NDIRECT ==> s'.ino[i].blocks[j] == s.ino[i].blocks[j];
    hide Wrote;
    WroteInodes(s, f, s', f', i, buf);
    WroteBlocks(s, f, s', f', i, buf);
    LiveKeys(s, f);
    LiveKeys(s', f');
    NodeAt(s', f', i);
  }

  /** A block is lost by a write exactly when inode i, and no other, points at it before and not after. */
  lemma LostByOne(s: Store, s': Store, i: nat, B: set<nat>, O: set<nat>, b: nat)
    requires i in Live(s) && i in Live(s') && Live(s) <= Live(s')
    requires forall x :: x in Live(s) && x != i ==> s'.ino[x] == s.ino[x]
    requires forall x :: x in Live(s') && x !in Live(s) ==> Ptrs(s'.ino[x]) <= B
    requires s'.data.Keys == s.data.Keys && B <= s.free && s'.free == s.free - B
    requires forall x :: x in Live(s) ==> Ptrs(s.ino[x]) <= s.data.Keys - s.free
    requires forall x :: x in Live(s) && x != i ==> Ptrs(s.ino[x]) !! Ptrs(s.ino[i])
    requires O <= Ptrs(s.ino[i])
    requires b in Ptrs(s'.ino[i]) ==> b in B || (b in Ptrs(s.ino[i]) && b !in O)
    requires b in Ptrs(s.ino[i]) && b !in O ==> b in Ptrs(s'.ino[i])
    requires b in B ==> exists x :: x in Live(s') && b in Ptrs(s'.ino[x])
    ensures IsLost(s', b) <==> IsLost(s, b) || b in O
  {
    if IsLost(s, b) || b in O {
      forall x | x in Live(s') ensures b !in Ptrs(s'.ino[x]) {
        assert x in Live(s) || Ptrs(s'.ino[x]) <= B;
      }
    }
  }

  lemma OverwriteLosesBlock(s: Store, f: Forest, s': Store, f': Forest, i: nat, buf: seq<Byte>, b: nat)
    requires Inv(s, f) && Inv(s', f') && Wrote(s, f, s', f', i, buf)
    ensures IsLost(s', b) <==> IsLost(s, b) || b in Overwritten(s.ino[i], Pieces(|buf|))
  {
    var t := f'[i];
    WroteRecords(s, f, s', f', i, buf);
    PtrsAfter(s.ino[i], s'.ino[i], t, b);
    OverwrittenPtrs(s.ino[i], Pieces(|buf|));
    if b in Blocks(t) {
      TreePointed(s', f', i, b);
    }
    LostByOne(s, s', i, Blocks(t), Overwritten(s.ino[i], Pieces(|buf|)), b);
  }

  /** Overwriting a file loses exactly the direct blocks whose slots it fills, and the old table. */
  lemma OverwriteLoses(s: Store, f: Forest, s': Store, f': Forest, i: nat, buf: seq<Byte>)
    requires Inv(s, f) && Inv(s', f') && Wrote(s, f, s', f', i, buf)
    ensures Lost(s') == Lost(s) + Overwritten(s.ino[i], Pieces(|buf|))
    ensures Lost(s) !! Overwritten(s.ino[i], Pieces(|buf|))
  {
    OverwrittenPtrs(s.ino[i], Pieces(|buf|));
    assert i in Live(s);
    forall b ensures b in Lost(s') <==> b in Lost(s) || b in Overwritten(s.ino[i], Pieces(|buf|)) {
      OverwriteLosesBlock(s, f, s', f', i, buf, b);
    }
  }

  /** The sub-inodes the old table listed are left behind, and nothing else becomes a root. */
  lemma OverwriteUnlists(s: Store, f: Forest, s': Store, f': Forest, i: nat, buf: seq<Byte>)
    requires Inv(s, f) && Inv(s', f') && Wrote(s, f, s', f', i, buf)
    ensures Roots(f') == Roots(f) + KidSet(f[i])
  {
    hide *;
    WroteInodes(s, f, s', f', i, buf);
    forall r ensures r in Roots(f') <==> r in Roots(f) || r in KidSet(f[i]) {
      OverwriteUnlistsOne(s, f, s', f', i, buf, r);
      InRoots(f, r);
      InRoots(f', r);
    }
  }

  lemma InRoots(f: Forest, r: nat)
    ensures r in Roots(f) <==> Root(f, r)
  {
  }

  lemma OverwriteUnlistsOne(s: Store, f: Forest, s': Store, f': Forest, i: nat, buf: seq<Byte>, r: nat)
    requires Inv(s, f) && Inv(s', f') && Wrote(s, f, s', f', i, buf)
    ensures Root(f', r) <==> Root(f, r) || r in KidSet(f[i])
  {
    hide Wrote, Inums, KidSet, KidsDisjoint, NodeOf, PointersDisjoint, Shape;
    WroteInodes(s, f, s', f', i, buf);
    var I := Inums(f'[i]) - {i};
    assert KidsDisjoint(f) && KidsDisjoint(f');
    hide Inv, NewNode;
    MadeAreListed(f', i, r);
    WroteKidSets(s, f, s', f', i, buf);
    UnlistsOne(f, f', i, I, r);
  }

  lemma MadeAreListed(f: Forest, i: nat, r: nat)
    requires KidsDisjoint(f) && i in f
    ensures r in Inums(f[i]) - {i} ==> exists p :: p in f && r in KidSet(f[p])
  {
    hide KidsDisjoint, KidSet, Inums;
    ClosedTree(f, i);
    assert r in Inums(f[i]) ==> Linked(f, Inums(f[i]), i, r);
  }

  lemma WroteKidSets(s: Store, f: Forest, s': Store, f': Forest, i: nat, buf: seq<Byte>)
    requires Inv(s', f') && Wrote(s, f, s', f', i, buf)
    ensures i in f && i in f'
    ensures forall p :: p in Inums(f'[i]) - {i} ==> p in f' && KidSet(f'[p]) <= Inums(f'[i]) - {i}
  {
    hide Inv, Inums, KidSet, Grown, Holds, Ptrs, Clean;
    WroteInodes(s, f, s', f', i, buf);
    LiveKeys(s', f');
  }

  lemma UnlistsOne(f: Forest, f': Forest, i: nat, I: set<nat>, r: nat)
    requires KidsDisjoint(f) && i in f && f'.Keys == f.Keys + I && I !! f.Keys
    requires forall p :: p in f && p != i ==> f'[p] == f[p]
    requires KidSet(f'[i]) <= I && forall p :: p in I ==> KidSet(f'[p]) <= I
    requires r in I ==> exists p :: p in f' && r in KidSet(f'[p])
    ensures Root(f', r) <==> Root(f, r) || r in KidSet(f[i])
  {
    if r in KidSet(f[i]) {
      assert KidsIn(f, f[i].kids) && r in f;
    }
    if r in f && r !in KidSet(f[i]) && !Root(f, r) {
      var p :| p in f && r in KidSet(f[p]);
      assert p in f' && r in KidSet(f'[p]);
    }
    if Root(f, r) || r in KidSet(f[i]) {
      forall p | p in f' ensures r !in KidSet(f'[p]) {
        assert p in I || p == i || f'[p] == f[p];
      }
    }
  }

  /** An overwrite loses nothing exactly when the slots it fills were empty and no table was in use. */
  lemma OverwriteLosesNothing(s: Store, f: Forest, s': Store, f': Forest, i: nat, buf: seq<Byte>)
    requires Inv(s, f) && Inv(s', f') && Wrote(s, f, s', f', i, buf)
    ensures Lost(s') == Lost(s) <==>
            s.ino[i].size <= NDIRECT && forall j :: 0 <= j < Min(Pieces(|buf|), NDIRECT) ==> s.ino[i].blocks[j] == 0
  {
    OverwriteLoses(s, f, s', f', i, buf);
    OverwrittenNone(s.ino[i], Pieces(|buf|));
    if b :| b in Overwritten(s.ino[i], Pieces(|buf|)) {
      assert b in Lost(s') && b !in Lost(s);
    }
  }

  lemma OverwrittenNone(n: Inode, k: nat)
    ensures Overwritten(n, k) == {} <==>
            n.size <= NDIRECT && forall j :: 0 <= j < Min(k, NDIRECT) ==> n.blocks[j] == 0
  {
    if n.size > NDIRECT {
      assert n.blocks[NDIRECT] in Overwritten(n, k);
    } else if j :| 0 <= j < Min(k, NDIRECT) && n.blocks[j] != 0 {
      assert n.blocks[j] in Overwritten(n, k);
    }
  }

  /** How many blocks that is, for a record without left-overs: those of the slots both in use and
      filled anew, and one for the table. */
  lemma OverwrittenCount(n: Inode, k: nat)
    requires Distinct(n) && Clean(n) && n.size <= NDIRECT + 1
    requires forall j :: 0 <= j < Min(n.size, NDIRECT) ==> n.blocks[j] != 0
    ensures |Overwritten(n, k)| == Min(Min(n.size, NDIRECT), k) + if n.size > NDIRECT then 1 else 0
  {
    var m := Min(Min(n.size, NDIRECT), k);
    FrontCount(n, m);
    FrontOfRecord(n, k, m);
    if n.size > NDIRECT {
      TableApart(n, m);
    }
  }

  lemma FrontOfRecord(n: Inode, k: nat, m: nat)
    requires m == Min(Min(n.size, NDIRECT), k) && Clean(n)
    requires forall j :: 0 <= j < Min(n.size, NDIRECT) ==> n.blocks[j] != 0
    ensures Overwritten(n, k) == Elems(n.blocks[..m]) + if n.size > NDIRECT then {n.blocks[NDIRECT]} else {}
  {
    var front := n.blocks[..m];
    forall j: nat | j < Min(k, NDIRECT) && n.blocks[j] != 0 ensures n.blocks[j] in Elems(front) {
      assert n.blocks[j] == front[j];
    }
    forall b | b in Elems(front) ensures b in Overwritten(n, k) {
      var j :| 0 <= j < m && front[j] == b;
      assert n.blocks[j] == b;
    }
  }

  lemma TableApart(n: Inode, m: nat)
    requires Distinct(n) && n.size > NDIRECT && m <= NDIRECT
    requires forall j :: 0 <= j < NDIRECT ==> n.blocks[j] != 0
    ensures n.blocks[NDIRECT] !in Elems(n.blocks[..m])
  {
    assert Active(n, NDIRECT);
    assert forall j :: 0 <= j < m ==> Active(n, j);
  }

  lemma {:induction false} FrontCount(n: Inode, m: nat)
    requires Distinct(n) && m <= NDIRECT
    requires forall j :: 0 <= j < m ==> n.blocks[j] != 0
    ensures |Elems(n.blocks[..m])| == m
  {
    if m > 0 {
      hide Elems, Distinct, Active;
      FrontCount(n, m - 1);
      FrontStep(n, m);
    }
  }

  lemma FrontStep(n: Inode, m: nat)
    requires Distinct(n) && 1 <= m <= NDIRECT
    requires forall j :: 0 <= j < m ==> n.blocks[j] != 0
    ensures n.blocks[m - 1] !in Elems(n.blocks[..m - 1])
    ensures Elems(n.blocks[..m]) == Elems(n.blocks[..m - 1]) + {n.blocks[m - 1]}
  {
    assert forall j :: 0 <= j < m ==> Active(n, j);
    assert n.blocks[..m] == n.blocks[..m - 1] + [n.blocks[m - 1]];
  }

  /** Overwriting a file of |was| bytes that has no left-over pointers. */
  lemma OverwriteCount(s: Store, f: Forest, s': Store, f': Forest, i: nat, was: seq<Byte>, buf: seq<Byte>)
    requires Inv(s, f) && Inv(s', f') && Wrote(s, f, s', f', i, buf)
    requires Holds(f[i], was) && Clean(s.ino[i])
    ensures |Lost(s') - Lost(s)| == Min(Min(Pieces(|was|), NDIRECT), Pieces(|buf|)) + if |was| > CHUNK then 1 else 0
  {
    var n := s.ino[i];
    OverwriteLoses(s, f, s', f', i, buf);
    assert Lost(s') - Lost(s) == Overwritten(n, Pieces(|buf|));
    HeldRecord(s, f, i, was);
    OverwrittenCount(n, Pieces(|buf|));
  }

  lemma HeldRecord(s: Store, f: Forest, i: nat, was: seq<Byte>)
    requires Inv(s, f) && i in f && i <= INODE_NUM && Holds(f[i], was)
    ensures var n := s.ino[i];
            && n.size == Min(Pieces(|was|), NDIRECT + 1) && Distinct(n)
            && forall j :: 0 <= j < Min(n.size, NDIRECT) ==> n.blocks[j] != 0
    ensures Pieces(|was|) > NDIRECT <==> |was| > CHUNK
  {
    assert i in Live(s) && NodeOf(s, s.ino[i], f[i]);
    UsedSlots(s, s.ino[i], f[i]);
    PiecesBounds(|was|);
  }

  lemma UsedSlots(s: Store, n: Inode, t: File)
    requires NodeOf(s, n, t) && 0 !in s.data
    ensures forall j :: 0 <= j < Min(n.size, NDIRECT) ==> n.blocks[j] != 0
  {
    assert forall j :: 0 <= j < |t.ids| ==> t.ids[j] == n.blocks[j] && t.ids[j] in s.data;
  }

  /** A new file of ten blocks that is overwritten with three blocks loses three. */
  lemma ThreeBlocksLost(s: Store, f: Forest, s1: Store, f1: Forest, s2: Store, f2: Forest, i: nat, was: seq<Byte>, buf: seq<Byte>)
    requires Inv(s, f) && Inv(s1, f1) && Inv(s2, f2)
    requires Wrote(s, f, s1, f1, i, was) && |was| == 5120 && s.ino[i].blocks == NoBlocks()
    requires Wrote(s1, f1, s2, f2, i, buf) && |buf| == 1536
    ensures |Lost(s2) - Lost(s1)| == 3
  {
    NewTreeClean(s, f, s1, f1, i, was);
    RootRecord(s1, f1, i);
    OverwriteCount(s1, f1, s2, f2, i, was, buf);
  }

  // ---------------------------------------------------------------- cutting a file short, then writing

  /** Lowering the size forgets the table and unlists the sub-inodes, and loses nothing else. */
  lemma CutLoses(s: Store, f: Forest, i: nat, k: nat)
    requires Inv(s, f) && Root(f, i) && i <= INODE_NUM && k <= |f[i].ids| && k <= |f[i].blocks|
    ensures Lost(Resized(s, i, k)) == Lost(s) + Overwritten(s.ino[i], 0)
    ensures Roots(f[i := CutFile(f[i], k)]) == Roots(f) + KidSet(f[i])
  {
    assert i in Live(s) && NodeOf(s, s.ino[i], f[i]);
    OverwrittenPtrs(s.ino[i], 0);
    forall b ensures IsLost(Resized(s, i, k), b) <==> IsLost(s, b) || b in Overwritten(s.ino[i], 0) {
      CutLosesBlock(s, i, k, b);
    }
    forall r ensures Root(f[i := CutFile(f[i], k)], r) <==> Root(f, r) || r in KidSet(f[i]) {
      CutUnlists(f, i, CutFile(f[i], k), r);
    }
  }

  lemma CutPtrs(n: Inode, k: nat, b: nat)
    requires Distinct(n) && k <= NDIRECT
    ensures b in Ptrs(n.(size := k)) <==> b in Ptrs(n) && b !in Overwritten(n, 0)
  {
    var m := n.(size := k);
    if b in Ptrs(m) {
      var j: nat :| j <= NDIRECT && Active(m, j) && m.blocks[j] == b;
      KeptSlot(n, 0, j);
      assert Active(n, j);
    }
    if b in Ptrs(n) && b !in Overwritten(n, 0) {
      var j: nat :| j <= NDIRECT && Active(n, j) && n.blocks[j] == b;
      assert j < NDIRECT && Active(m, j);
    }
  }

  lemma CutLosesBlock(s: Store, i: nat, k: nat, b: nat)
    requires PointersDisjoint(s) && i in Live(s) && i <= INODE_NUM && k <= NDIRECT
    ensures IsLost(Resized(s, i, k), b) <==> IsLost(s, b) || b in Overwritten(s.ino[i], 0)
  {
    var s' := Resized(s, i, k);
    assert Live(s') == Live(s);
    CutPtrs(s.ino[i], k, b);
    OverwrittenPtrs(s.ino[i], 0);
    assert {} <= s.free && s.free - {} == s.free;
    LostByOne(s, s', i, {}, Overwritten(s.ino[i], 0), b);
  }

  lemma CutUnlists(f: Forest, i: nat, t: File, r: nat)
    requires KidsDisjoint(f) && i in f && t.kids == []
    ensures Root(f[i := t], r) <==> Root(f, r) || r in KidSet(f[i])
  {
    assert KidSet(t) == {};
    UnlistsOne(f, f[i := t], i, {}, r);
  }

  /** A file cut to nothing and then written loses what the write alone would lose. */
  lemma LossesAddUp(n: Inode, k: nat)
    ensures Overwritten(n, 0) + Overwritten(n.(size := 0), k) == Overwritten(n, k)
  {
  }

  // ---------------------------------------------------------------- a write that runs out of space

  /** All that the inodes I point at. */
  ghost function PointersOf(s: Store, I: set<nat>): set<nat> {
    set i: nat, b: nat | i in I && i <= INODE_NUM && b in Ptrs(s.ino[i]) :: b
  }

  /** Blocks taken by an operation and not pointed at by an inode it made are lost. */
  lemma GrowthLoses(s: Store, f: Forest, s': Store, f': Forest, I: set<nat>, B: set<nat>)
    requires Inv(s, f) && Inv(s', f') && Grown(s, f, s', f', I, B)
    ensures Lost(s') == Lost(s) + (B - PointersOf(s', I))
  {
    GrowthRecords(s, f, s', f', I, B);
    forall b ensures IsLost(s', b) <==> IsLost(s, b) || (b in B && b !in PointersOf(s', I)) {
      GrowthLosesBlock(s, s', I, B, b);
    }
  }

  lemma GrowthRecords(s: Store, f: Forest, s': Store, f': Forest, I: set<nat>, B: set<nat>)
    requires Inv(s, f) && Inv(s', f') && Grown(s, f, s', f', I, B)
    ensures Live(s') == Live(s) + I && s'.data.Keys == s.data.Keys && B <= s.free && s'.free == s.free - B
    ensures B <= s.data.Keys
    ensures forall i :: i in Live(s) ==> s'.ino[i] == s.ino[i] && Ptrs(s.ino[i]) !! B
    ensures forall i :: i in I ==> i in Live(s') && Ptrs(s'.ino[i]) <= B
  {
    forall i | i in I ensures i in Live(s') && Ptrs(s'.ino[i]) <= B {
      assert i in f';
      assert NewNode(s'.ino[i], f'[i], I, B);
    }
  }

  lemma GrowthLosesBlock(s: Store, s': Store, I: set<nat>, B: set<nat>, b: nat)
    requires Live(s') == Live(s) + I && s'.data.Keys == s.data.Keys && B <= s.free && s'.free == s.free - B
    requires B <= s.data.Keys
    requires forall i :: i in Live(s) ==> s'.ino[i] == s.ino[i] && Ptrs(s.ino[i]) !! B
    requires forall i :: i in I ==> i in Live(s') && Ptrs(s'.ino[i]) <= B
    ensures IsLost(s', b) <==> IsLost(s, b) || (b in B && b !in PointersOf(s', I))
  {
    if IsLost(s', b) {
      forall i | i in Live(s) ensures b !in Ptrs(s.ino[i]) {
        assert i in Live(s');
      }
    }
    if IsLost(s, b) || (b in B && b !in PointersOf(s', I)) {
      forall i | i in Live(s') ensures b !in Ptrs(s'.ino[i]) {
        assert i in I || i in Live(s);
      }
    }
  }

  // ---------------------------------------------------------------- removal

  /** Removing a root loses what its inodes point at and remove_file does not free. */
  lemma RemovalLoses(s: Store, f: Forest, r: nat)
    requires Inv(s, f) && Root(f, r)
    ensures var I := Inums(f[r]);
            && Lost(Removed(s, f[r])) == Lost(s) + (PointersOf(s, I) - ReleasedBy(s, I))
            && Lost(s) !! PointersOf(s, I)
    ensures Roots(f - Inums(f[r])) == Roots(f) - {r}
  {
    var I := Inums(f[r]);
    ClosedTree(f, r);
    ReleasedPointers(s, I);
    assert I <= Live(s) && PointersDisjoint(s) && KidsDisjoint(f);
    forall b ensures IsLost(Removed(s, f[r]), b) <==> IsLost(s, b) || (b in PointersOf(s, I) && b !in ReleasedBy(s, I)) {
      RemovalLosesBlock(s, I, ReleasedBy(s, I), b);
    }
    RemovalRoots(f, r);
  }

  lemma ReleasedPointers(s: Store, I: set<nat>)
    ensures ReleasedBy(s, I) <= PointersOf(s, I)
  {
    forall b | b in ReleasedBy(s, I) ensures b in PointersOf(s, I) {
      var i: nat :| i in I && i <= INODE_NUM && b in Released(s.ino[i]);
      ReleasedActive(s.ino[i]);
    }
  }

  lemma RemovalLosesBlock(s: Store, I: set<nat>, R: set<nat>, b: nat)
    requires PointersDisjoint(s) && I <= Live(s) && R <= PointersOf(s, I)
    ensures IsLost(Erase(s, I, R), b) <==> IsLost(s, b) || (b in PointersOf(s, I) && b !in R)
    ensures IsLost(s, b) ==> b !in PointersOf(s, I)
  {
    var s' := Erase(s, I, R);
    assert Live(s') == Live(s) - I;
    assert s'.data.Keys == s.data.Keys;
    if IsLost(s', b) && b !in PointersOf(s, I) {
      forall i | i in Live(s) ensures b !in Ptrs(s.ino[i]) {
        assert i in I || (i in Live(s') && s'.ino[i] == s.ino[i]);
      }
    }
    if b in PointersOf(s, I) && b !in R {
      var p: nat :| p in I && p <= INODE_NUM && b in Ptrs(s.ino[p]);
      forall i | i in Live(s') ensures b !in Ptrs(s'.ino[i]) {
        assert i != p && s'.ino[i] == s.ino[i];
      }
    }
  }

  lemma RemovalRoots(f: Forest, r: nat)
    requires KidsDisjoint(f) && Root(f, r)
    ensures Roots(f - Inums(f[r])) == Roots(f) - {r}
  {
    var I := Inums(f[r]);
    ClosedTree(f, r);
    EraseKids(f, r);
    assert r in I;
    forall q | Root(f - I, q) ensures Root(f, q) {
      forall p | p in f ensures q !in KidSet(f[p]) {
        if p in I {
          assert Linked(f, I, r, p);
        } else {
          assert p in f - I;
        }
      }
    }
  }

  /** After the first zero pointer there is no other. */
  ghost predicate Gapless(n: Inode) {
    forall j, k :: 0 <= j < k < NDIRECT && n.blocks[j] == 0 ==> n.blocks[k] == 0
  }

  lemma GaplessKeepsTable(n: Inode)
    requires Distinct(n)
    ensures Gapless(n) ==> Ptrs(n) - Released(n) == if n.size > NDIRECT then {n.blocks[NDIRECT]} else {}
    ensures !Gapless(n) || n.size > NDIRECT ==> Ptrs(n) - Released(n) != {}
  {
    if n.size > NDIRECT {
      TableNotInRun(n);
    }
    if Gapless(n) {
      forall b | b in Ptrs(n) && b !in Released(n) ensures n.size > NDIRECT && b == n.blocks[NDIRECT] {
        NotReleased(n, b);
      }
    } else {
      var j: nat, k: nat :| j < k < NDIRECT && n.blocks[j] == 0 && n.blocks[k] != 0;
      PastTheRun(n, k);
    }
  }

  lemma TableNotInRun(n: Inode)
    requires Distinct(n) && n.size > NDIRECT
    ensures n.blocks[NDIRECT] in Ptrs(n) - Released(n)
  {
    ReleasedActive(n);
    assert Active(n, NDIRECT);
  }

  lemma InRun(n: Inode, k: nat)
    requires k < RunLen(n.blocks, 0)
    ensures n.blocks[k] in Released(n)
  {
    assert n.blocks[..RunLen(n.blocks, 0)][k] == n.blocks[k];
  }

  lemma NotReleased(n: Inode, b: nat)
    requires Gapless(n) && b in Ptrs(n) && b !in Released(n)
    ensures n.size > NDIRECT && b == n.blocks[NDIRECT]
  {
    var z := RunLen(n.blocks, 0);
    var k: nat :| k <= NDIRECT && Active(n, k) && n.blocks[k] == b;
    if k < z {
      InRun(n, k);
    }
  }

  lemma PastTheRun(n: Inode, k: nat)
    requires Distinct(n) && RunLen(n.blocks, 0) <= k < NDIRECT && n.blocks[k] != 0
    ensures n.blocks[k] in Ptrs(n) - Released(n)
  {
    var z := RunLen(n.blocks, 0);
    assert Active(n, k) && n.blocks[k] in Ptrs(n);
    forall j: nat | j < z ensures n.blocks[..z][j] != n.blocks[k] {
      assert Active(n, j);
    }
  }

  /** Where no record has a gap, a removal loses exactly the tables of the tree. */
  lemma RemovalLosesTables(s: Store, f: Forest, r: nat)
    requires Inv(s, f) && Root(f, r)
    requires forall x :: x in Inums(f[r]) && x <= INODE_NUM ==> Gapless(s.ino[x])
    ensures Lost(Removed(s, f[r])) == Lost(s) + Tables(f[r])
  {
    RemovalLoses(s, f, r);
    forall b ensures b in PointersOf(s, Inums(f[r])) - ReleasedBy(s, Inums(f[r])) <==> b in Tables(f[r]) {
      KeptAreTables(s, f, r, b);
    }
  }

  lemma KeptAreTables(s: Store, f: Forest, r: nat, b: nat)
    requires Inv(s, f) && r in f
    requires forall x :: x in Inums(f[r]) && x <= INODE_NUM ==> Gapless(s.ino[x])
    ensures b in PointersOf(s, Inums(f[r])) - ReleasedBy(s, Inums(f[r])) <==> b in Tables(f[r])
  {
    hide KidsDisjoint, Shape, PointersDisjoint, NodeOf, Gapless, Tables, Inums, Ptrs, Released, Storable, Distinct;
    var I := Inums(f[r]);
    TreeIds(f, r, b);
    TablesKept(s, f, r);
    if b in Tables(f[r]) {
      var x :| x in I && f[x].size > NDIRECT && b == f[x].table;
      NodePointed(s, f, x, b);
    }
    if b in PointersOf(s, I) && b !in ReleasedBy(s, I) {
      var x: nat :| x in I && x <= INODE_NUM && b in Ptrs(s.ino[x]);
      PointedTable(s, f, x, b);
    }
  }

  lemma PointedTable(s: Store, f: Forest, x: nat, b: nat)
    requires Inv(s, f) && x in f && x <= INODE_NUM && Gapless(s.ino[x])
    requires b in Ptrs(s.ino[x]) && b !in Released(s.ino[x])
    ensures f[x].size > NDIRECT && b == f[x].table
  {
    hide Inv, Gapless, Ptrs, Released, Listed, Storable, Distinct;
    NodeAt(s, f, x);
    GaplessKeepsTable(s.ino[x]);
    assert b in Ptrs(s.ino[x]) - Released(s.ino[x]);
  }

  /** A removal loses nothing exactly when the file has no table and no gap. */
  lemma RemovalLosesNothing(s: Store, f: Forest, r: nat)
    requires Inv(s, f) && Root(f, r) && r <= INODE_NUM
    ensures Lost(Removed(s, f[r])) == Lost(s) <==> s.ino[r].size <= NDIRECT && Gapless(s.ino[r])
  {
    RootRecord(s, f, r);
    if s.ino[r].size <= NDIRECT && Gapless(s.ino[r]) {
      RemovalLosesTables(s, f, r);
    } else {
      RemovalLoses(s, f, r);
      var b :| b in Ptrs(s.ino[r]) - Released(s.ino[r]);
      NotReleasedElsewhere(s, Inums(f[r]), r, b);
      assert b in Lost(Removed(s, f[r])) && b !in Lost(s);
    }
  }

  lemma RootRecord(s: Store, f: Forest, r: nat)
    requires Inv(s, f) && r in f && r <= INODE_NUM
    ensures r in Inums(f[r]) && Inums(f[r]) <= Live(s)
    ensures s.ino[r].size <= NDIRECT ==> Inums(f[r]) == {r} && Tables(f[r]) == {}
    ensures s.ino[r].size > NDIRECT || !Gapless(s.ino[r]) ==> Ptrs(s.ino[r]) - Released(s.ino[r]) != {}
  {
    assert r in Live(s) && NodeOf(s, s.ino[r], f[r]);
    ClosedTree(f, r);
    GaplessKeepsTable(s.ino[r]);
    if s.ino[r].size <= NDIRECT {
      SmallTree(f, r);
    }
  }

  lemma SmallTree(f: Forest, r: nat)
    requires r in f && f[r].inum == r && f[r].kids == [] && f[r].size <= NDIRECT
    ensures Inums(f[r]) == {r} && Tables(f[r]) == {}
  {
    assert KidInums(f[r], 0) == {} && KidTables(f[r], 0) == {};
  }

  lemma NotReleasedElsewhere(s: Store, I: set<nat>, r: nat, b: nat)
    requires PointersDisjoint(s) && I <= Live(s) && r in I && b in Ptrs(s.ino[r]) && b !in Released(s.ino[r])
    ensures b in PointersOf(s, I) && b !in ReleasedBy(s, I)
  {
    forall i | i in I && i <= INODE_NUM ensures b !in Released(s.ino[i]) {
      ReleasedActive(s.ino[i]);
    }
  }

  // ---------------------------------------------------------------- directories and new inodes

  lemma NewLosesNothing(s: Store, i: nat, kind: nat)
    requires 1 <= i <= INODE_NUM && s.ino[i].kind == 0 && kind != 0
    ensures Lost(s.(ino := s.ino[i := NewInode(kind)])) == Lost(s)
  {
    var s' := s.(ino := s.ino[i := NewInode(kind)]);
    assert Live(s') == Live(s) + {i};
    assert Ptrs(NewInode(kind)) == {};
    assert forall x :: x in Live(s) ==> s'.ino[x] == s.ino[x];
    forall b ensures IsLost(s', b) <==> IsLost(s, b) {
      if IsLost(s', b) {
        assert forall x :: x in Live(s) ==> x in Live(s');
      }
    }
  }

  lemma AppendPtrsExact(n: Inode, id: nat, b: nat)
    requires n.size < NDIRECT && n.blocks[n.size] == 0 && id != 0
    ensures b in Ptrs(AppendSlot(n, id)) <==> b in Ptrs(n) || b == id
  {
    var m := AppendSlot(n, id);
    assert Active(m, n.size) && m.blocks[n.size] == id;
    if b in Ptrs(n) {
      var j: nat :| j <= NDIRECT && Active(n, j) && n.blocks[j] == b;
      assert Active(m, j) && m.blocks[j] == b;
    }
    if b in Ptrs(m) && b != id {
      var j: nat :| j <= NDIRECT && Active(m, j) && m.blocks[j] == b;
      assert Active(n, j);
    }
  }

  /** add_to_dir loses nothing. */
  lemma AppendLosesNothing(s: Store, f: Forest, s': Store, d: nat, id: nat)
    requires Inv(s, f) && d in f && d <= INODE_NUM && s.ino[d].size < NDIRECT && Clean(s.ino[d])
    requires id in s.free && Appended(s, s', d, id)
    ensures Lost(s') == Lost(s)
  {
    assert d in Live(s) && 0 < id;
    assert Live(s') == Live(s);
    forall b ensures IsLost(s', b) <==> IsLost(s, b) || b in {} {
      AppendPtrsExact(s.ino[d], id, b);
      LostByOne(s, s', d, {id}, {}, b);
    }
  }

  lemma DropPtrsExact(n: Inode, k: nat, b: nat)
    requires Distinct(n) && k < n.size <= NDIRECT
    requires forall j :: 0 <= j < n.size ==> n.blocks[j] != 0
    ensures b in Ptrs(DropSlot(n, k)) <==> b in Ptrs(n) && b != n.blocks[k]
  {
    DropPtrs(n, k);
    var m, last := DropSlot(n, k), n.size - 1;
    if b in Ptrs(n) && b != n.blocks[k] {
      var j: nat :| j <= NDIRECT && Active(n, j) && n.blocks[j] == b;
      var at := if j == last then k else j;
      assert Active(m, at) && m.blocks[at] == b;
    }
  }

  /** remove_from_dir of an entry that is there loses nothing. */
  lemma DropLosesNothing(s: Store, f: Forest, d: nat, k: nat)
    requires Inv(s, f) && d in f && d <= INODE_NUM && k < s.ino[d].size <= NDIRECT
    ensures Lost(Dropped(s, d, k)) == Lost(s)
  {
    var n := s.ino[d];
    assert d in Live(s) && NodeOf(s, n, f[d]);
    UsedSlots(s, n, f[d]);
    forall b ensures IsLost(Dropped(s, d, k), b) <==> IsLost(s, b) {
      DropPtrsExact(n, k, b);
      DropLosesBlock(s, d, k, b);
    }
  }

  lemma DropLosesBlock(s: Store, d: nat, k: nat, b: nat)
    requires PointersDisjoint(s) && d in Live(s) && k < s.ino[d].size <= NDIRECT && s.ino[d].blocks[k] != 0
    requires b in Ptrs(DropSlot(s.ino[d], k)) <==> b in Ptrs(s.ino[d]) && b != s.ino[d].blocks[k]
    ensures IsLost(Dropped(s, d, k), b) <==> IsLost(s, b)
  {
    var n, s' := s.ino[d], Dropped(s, d, k);
    SameIno(s, {n.blocks[k]});
    assert s'.ino == s.ino[d := DropSlot(n, k)] && Live(s') == Live(s);
    assert s'.data.Keys == s.data.Keys && s'.free == s.free + {n.blocks[k]};
    assert Active(n, k) && n.blocks[k] in Ptrs(n);
    assert forall i :: i in Live(s) && i != d ==> s'.ino[i] == s.ino[i];
  }

  // ---------------------------------------------------------------- records without gaps

  /** No record has a gap, and a directory points at its entries alone. */
  ghost predicate Tidy(s: Store) {
    forall i :: i in Live(s) ==> Gapless(s.ino[i]) && (s.ino[i].kind == T_DIR ==> Clean(s.ino[i]))
  }

  lemma CleanIsGapless(n: Inode)
    requires Clean(n) && forall j :: 0 <= j < Min(n.size, NDIRECT) ==> n.blocks[j] != 0
    ensures Gapless(n)
  {
  }

  lemma TidyNew(s: Store, i: nat, kind: nat)
    requires Tidy(s) && 1 <= i <= INODE_NUM
    ensures Tidy(s.(ino := s.ino[i := NewInode(kind)]))
  {
    var s' := s.(ino := s.ino[i := NewInode(kind)]);
    forall x | x in Live(s') && x != i ensures x in Live(s) && s'.ino[x] == s.ino[x] {
    }
  }

  lemma TidyGrown(s: Store, f: Forest, s': Store, f': Forest, I: set<nat>, B: set<nat>)
    requires Tidy(s) && Inv(s, f) && Inv(s', f') && Grown(s, f, s', f', I, B)
    ensures Tidy(s')
  {
    forall i | i in Live(s') ensures Gapless(s'.ino[i]) && (s'.ino[i].kind == T_DIR ==> Clean(s'.ino[i])) {
      if i in f {
        assert i in Live(s);
      } else {
        assert NewNode(s'.ino[i], f'[i], I, B);
        UsedSlots(s', s'.ino[i], f'[i]);
        CleanIsGapless(s'.ino[i]);
      }
    }
  }

  /** write_file keeps records tidy, and so does the empty write to a new directory. */
  lemma TidyWrote(s: Store, f: Forest, s': Store, f': Forest, i: nat, buf: seq<Byte>)
    requires Tidy(s) && Inv(s, f) && Inv(s', f') && Wrote(s, f, s', f', i, buf)
    requires s.ino[i].kind != T_DIR || s.ino[i].blocks == NoBlocks()
    ensures Tidy(s')
  {
    hide Inv, Inums, Blocks, Ptrs, Gapless, Clean, Grown, Holds;
    WroteRecords(s, f, s', f', i, buf);
    assert s'.ino[i].kind == s.ino[i].kind && i in f';
    hide Wrote, NewFront;
    NewFrontTidy(s, f, s', f', i);
    forall x | x in Live(s') && x !in Live(s) ensures Gapless(s'.ino[x]) && s'.ino[x].kind != T_DIR {
      WroteNewTidy(s, f, s', f', i, buf, x);
    }
  }

  lemma NewFrontTidy(s: Store, f: Forest, s': Store, f': Forest, i: nat)
    requires Tidy(s) && Inv(s', f') && i in Live(s) && i in f' && NewFront(s.ino[i], s'.ino[i], f'[i])
    requires s.ino[i].kind != T_DIR || s.ino[i].blocks == NoBlocks()
    ensures Gapless(s'.ino[i]) && (s.ino[i].blocks == NoBlocks() ==> Clean(s'.ino[i]))
  {
    var n, m := s.ino[i], s'.ino[i];
    assert i in Live(s') && NodeOf(s', m, f'[i]);
    UsedSlots(s', m, f'[i]);
    forall j, k | 0 <= j < k < NDIRECT && m.blocks[j] == 0 ensures m.blocks[k] == 0 {
      assert n.blocks[j] == 0 && Gapless(n);
    }
  }

  lemma WroteNewTidy(s: Store, f: Forest, s': Store, f': Forest, i: nat, buf: seq<Byte>, x: nat)
    requires Inv(s, f) && Inv(s', f') && Wrote(s, f, s', f', i, buf) && x in Live(s') && x !in Live(s)
    ensures Gapless(s'.ino[x]) && s'.ino[x].kind != T_DIR
  {
    hide Inv, Inums, Blocks, Ptrs, Wrote, Clean, Gapless, NodeOf, KidSet;
    WroteInodes(s, f, s', f', i, buf);
    LiveKeys(s, f);
    LiveKeys(s', f');
    NodeAt(s', f', x);
    UsedSlots(s', s'.ino[x], f'[x]);
    CleanIsGapless(s'.ino[x]);
  }

  lemma TidyResized(s: Store, i: nat, k: nat)
    requires Tidy(s) && i <= INODE_NUM && s.ino[i].kind != T_DIR
    ensures Tidy(Resized(s, i, k))
  {
    var s' := Resized(s, i, k);
    forall x | x in Live(s') ensures x in Live(s) && s'.ino[x].blocks == s.ino[x].blocks && s'.ino[x].kind == s.ino[x].kind {
    }
    assert forall x :: x in Live(s') && x != i ==> s'.ino[x] == s.ino[x];
    if i in Live(s') {
      assert Gapless(s.ino[i]);
    }
  }

  lemma TidyErased(s: Store, I: set<nat>, B: set<nat>)
    requires Tidy(s)
    ensures Tidy(Erase(s, I, B))
  {
    var s' := Erase(s, I, B);
    forall x | x in Live(s') ensures x in Live(s) && s'.ino[x] == s.ino[x] {
    }
  }

  lemma TidyAppended(s: Store, f: Forest, s': Store, d: nat, id: nat)
    requires Tidy(s) && Inv(s, f) && d in f && d <= INODE_NUM && f[d].kind == T_DIR && f[d].size < NDIRECT
    requires id != 0 && Appended(s, s', d, id)
    ensures Tidy(s') && Clean(s.ino[d]) && s.ino[d].size < NDIRECT
  {
    assert d in Live(s) && NodeOf(s, s.ino[d], f[d]);
    UsedSlots(s, s.ino[d], f[d]);
    CleanIsGapless(AppendSlot(s.ino[d], id));
    forall x | x in Live(s') && x != d ensures x in Live(s) && s'.ino[x] == s.ino[x] {
    }
  }

  lemma TidyDropped(s: Store, f: Forest, d: nat, k: nat)
    requires Tidy(s) && Inv(s, f) && d in f && d <= INODE_NUM && f[d].kind == T_DIR
    requires 0 < s.ino[d].size <= NDIRECT && k <= s.ino[d].size
    ensures Tidy(Dropped(s, d, k))
  {
    var n, s' := s.ino[d], Dropped(s, d, k);
    assert d in Live(s) && NodeOf(s, n, f[d]);
    UsedSlots(s, n, f[d]);
    CleanIsGapless(DropSlot(n, k));
    SameIno(s, if k < n.size then {n.blocks[k]} else {});
    forall x | x in Live(s') && x != d ensures x in Live(s) && s'.ino[x] == s.ino[x] {
    }
  }

  /** A new disk has lost nothing and has no gaps. */
  lemma NothingLostYet(s: Store)
    requires s.free == s.data.Keys && Live(s) == {1} && s.ino[1] == NewInode(T_DIR)
    ensures Lost(s) == {} && Tidy(s)
  {
  }
}
