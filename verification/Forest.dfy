/** The invariant of the inode layer: the live inodes form a forest of files whose block
    pointers and table entries never collide. */
module Forests {
  import opened Layout
  import opened Bytes
  import opened Stores
  import opened FileTree

  /** The tree under every live inode, sub-inodes included. */
  type Forest = map<nat, File>

  // ---------------------------------------------------------------- pointers of one inode

  /** A non-zero direct pointer counts even when it lies past `size`: remove_file frees it.
      The table pointer counts while the table is in use. */
  predicate Active(n: Inode, j: nat)
    requires j <= NDIRECT
  {
    if j < NDIRECT then n.blocks[j] != 0 else n.size > NDIRECT
  }

  function Ptrs(n: Inode): set<nat>
  {
    set j: nat | j <= NDIRECT && Active(n, j) :: n.blocks[j]
  }

  ghost predicate Distinct(n: Inode)
  {
    forall j, k :: 0 <= j < k <= NDIRECT && Active(n, j) && Active(n, k) ==> n.blocks[j] != n.blocks[k]
  }

  // ---------------------------------------------------------------- tables

  /** The entries of a table up to the first zero are the kids. */
  predicate Listed(ws: seq<nat>, kids: seq<File>) {
    && |kids| <= |ws|
    && (forall k :: 0 <= k < |kids| ==> kids[k].inum == ws[k] != 0)
    && (|kids| < |ws| ==> ws[|kids|] == 0)
  }

  function Table(b: Block): seq<nat> {
    Unpack(b, 0, TABLE_LEN)
  }

  function KidSet(t: File): set<nat> {
    set k | 0 <= k < |t.kids| :: t.kids[k].inum
  }

  ghost predicate KidsDistinct(kids: seq<File>) {
    forall j, k :: 0 <= j < k < |kids| ==> kids[j].inum != kids[k].inum
  }

  /** The tree t is what inode record n stands for, apart from what its kids look like. */
  ghost predicate NodeOf(s: Store, n: Inode, t: File)
  {
    && 1 <= n.kind <= 3 && t.kind == n.kind
    && t.size == n.size <= NDIRECT + 1
    && |t.ids| == |t.blocks| == Min(t.size, NDIRECT)
    && (forall j :: 0 <= j < |t.ids| ==> t.ids[j] == n.blocks[j])
    && (forall j :: 0 <= j < |t.ids| ==> t.ids[j] in s.data && s.data[t.ids[j]] == t.blocks[j])
    && (if n.size > NDIRECT
        then t.table == n.blocks[NDIRECT] && t.table in s.data && Listed(Table(s.data[t.table]), t.kids)
        else t.table == 0 && t.kids == [])
  }

  // ---------------------------------------------------------------- the invariant

  /** Sizes and ranges; free blocks hold zeros and free inodes are blank. */
  ghost predicate Shape(s: Store) {
    && Fits(s.n)
    && s.ino[0] == FREE_INODE
    && (forall i :: 0 <= i <= INODE_NUM ==> Storable(s.ino[i]))
    && s.data.Keys == Region(s.n)
    && s.free <= s.data.Keys
    && (forall b :: b in s.free ==> s.data[b] == ZERO_BLOCK)
    && (forall i :: 0 <= i <= INODE_NUM && s.ino[i].kind == 0 ==> s.ino[i] == FREE_INODE)
  }

  /** Every active pointer is a marked data block, and no two active pointers are equal. */
  ghost predicate PointersDisjoint(s: Store) {
    && (forall i :: i in Live(s) ==> Distinct(s.ino[i]) && Ptrs(s.ino[i]) <= s.data.Keys - s.free)
    && (forall i, j :: i in Live(s) && j in Live(s) && i != j ==> Ptrs(s.ino[i]) !! Ptrs(s.ino[j]))
  }

  /** Every table entry is a live inode, and no inode is listed twice. */
  ghost predicate KidsDisjoint(f: Forest) {
    && (forall i :: i in f ==> f[i].inum == i && KidsIn(f, f[i].kids) && KidsDistinct(f[i].kids))
    && (forall i, j :: i in f && j in f && i != j ==> KidSet(f[i]) !! KidSet(f[j]))
  }

  ghost predicate KidsIn(f: Forest, kids: seq<File>) {
    forall k :: 0 <= k < |kids| ==> kids[k].inum in f && f[kids[k].inum] == kids[k]
  }

  ghost predicate Inv(s: Store, f: Forest) {
    && Shape(s)
    && PointersDisjoint(s)
    && f.Keys == Live(s)
    && (forall i :: i in f ==> NodeOf(s, s.ino[i], f[i]))
    && KidsDisjoint(f)
  }

  /** The part of the invariant that readers rely on: every live inode is what its tree says. */
  ghost predicate Mapped(s: Store, f: Forest) {
    && f.Keys == Live(s)
    && (forall i :: i in f && i <= INODE_NUM ==> NodeOf(s, s.ino[i], f[i]))
    && (forall i :: i in f ==> KidsIn(f, f[i].kids))
    && (forall i :: 0 <= i <= INODE_NUM && s.ino[i].kind == 0 ==> s.ino[i].size == 0)
  }

  /** The tree of a sub-inode is the one the forest has for it. */
  lemma KidAt(f: Forest, i: nat, k: nat)
    requires KidsDisjoint(f) && i in f && k < |f[i].kids|
    ensures f[i].kids[k].inum in f && f[f[i].kids[k].inum] == f[i].kids[k]
  {
    hide KidsDistinct, KidSet;
    assert KidsIn(f, f[i].kids);
  }

  lemma KidOf(s: Store, f: Forest, i: nat, k: nat)
    requires Inv(s, f) && i in f && k < |f[i].kids|
    ensures f[i].kids[k].inum in f && f[f[i].kids[k].inum] == f[i].kids[k]
  {
    hide Shape, PointersDisjoint, NodeOf;
    KidAt(f, i, k);
  }

  /** The forest has a tree for every inode in use; all others are blank. */
  lemma LiveKeys(s: Store, f: Forest)
    requires Inv(s, f)
    ensures f.Keys == Live(s)
    ensures forall i :: 0 <= i <= INODE_NUM && i !in f ==> s.ino[i] == FREE_INODE
  {
    hide Storable, PointersDisjoint, NodeOf, KidsDisjoint;
    assert forall i :: 1 <= i <= INODE_NUM && i !in Live(s) ==> s.ino[i].kind == 0;
  }

  /** A live inode is what its tree says. */
  lemma NodeAt(s: Store, f: Forest, i: nat)
    requires Inv(s, f) && i in f
    ensures 1 <= i <= INODE_NUM && i in Live(s) && NodeOf(s, s.ino[i], f[i]) && f[i].inum == i && 0 !in s.data
    ensures Storable(s.ino[i]) && Distinct(s.ino[i]) && Ptrs(s.ino[i]) <= s.data.Keys - s.free
  {
    hide NodeOf, Storable, Distinct, Ptrs, KidsIn, KidsDistinct, KidSet;
    assert i in Live(s);
  }

  lemma InvMapped(s: Store, f: Forest)
    requires Inv(s, f)
    ensures Mapped(s, f)
  {
    hide NodeOf, KidsDistinct, KidSet, PointersDisjoint, Storable;
  }

  lemma MappedRange(s: Store, f: Forest, i: nat)
    requires Mapped(s, f)
    ensures i in f ==> 1 <= i <= INODE_NUM
  {
    hide NodeOf, KidsIn;
    assert i in f ==> i in Live(s);
  }

  /** A sub-inode on the disk: in range, and with the tree its parent has for it. */
  lemma MappedKid(s: Store, f: Forest, t: File, k: nat)
    requires Mapped(s, f) && KidsIn(f, t.kids) && k < |t.kids|
    ensures var i := t.kids[k].inum;
            1 <= i <= INODE_NUM && i in f && f[i] == t.kids[k]
  {
    hide NodeOf;
    assert t.kids[k].inum in Live(s);
  }

  /** A live inode that no table lists: a file or directory of its own. */
  ghost predicate Root(f: Forest, i: nat) {
    i in f && Unlisted(f, i)
  }

  ghost predicate Unlisted(f: Forest, i: nat) {
    forall p :: p in f ==> i !in KidSet(f[p])
  }

  /** Blocks taken from the free set that no inode points at yet. */
  ghost predicate Reserved(s: Store, R: set<nat>) {
    && R <= s.data.Keys - s.free
    && forall i :: i in Live(s) ==> R !! Ptrs(s.ino[i])
  }

  // ---------------------------------------------------------------- steps that keep the invariant

  /** The formatted disk satisfies the invariant with nothing live. */
  lemma InvFormatted(s: Store)
    requires Fits(s.n)
    requires forall i :: 0 <= i <= INODE_NUM ==> s.ino[i] == FREE_INODE
    requires s.data.Keys == Region(s.n)
    requires s.free == s.data.Keys
    requires forall b :: b in s.data ==> s.data[b] == ZERO_BLOCK
    ensures Inv(s, map[])
  {
    assert Storable(FREE_INODE);
    assert Live(s) == {};
  }

  lemma InvAlloc(s: Store, f: Forest, b: nat)
    requires Inv(s, f) && b in s.free
    ensures Inv(s.(free := s.free - {b}), f)
    ensures Reserved(s.(free := s.free - {b}), {b})
  {
    var s' := s.(free := s.free - {b});
    assert Live(s') == Live(s);
  }

  lemma InvWriteReserved(s: Store, f: Forest, b: nat, x: Block)
    requires Inv(s, f) && Reserved(s, {b})
    ensures Inv(s.(data := s.data[b := x]), f)
  {
    var s' := s.(data := s.data[b := x]);
    assert b in {b};
    assert Live(s') == Live(s);
    forall i | i in f ensures NodeOf(s', s'.ino[i], f[i]) {
      NodeFrame(s, s', s.ino[i], f[i], {b});
    }
  }

  lemma AttachPointers(s: Store, i: nat, n: Inode, R: set<nat>)
    requires Shape(s) && PointersDisjoint(s) && Reserved(s, R) && 1 <= i <= INODE_NUM
    requires Storable(n) && Distinct(n) && n.kind != 0
    requires Ptrs(n) <= Ptrs(s.ino[i]) + R
    ensures var s' := s.(ino := s.ino[i := n]);
            Shape(s') && PointersDisjoint(s') && Live(s') == Live(s) + {i}
  {
    var s' := s.(ino := s.ino[i := n]);
    assert Live(s') == Live(s) + {i};
    if i !in Live(s) {
      assert Ptrs(FREE_INODE) == {};
    }
    forall j | j in Live(s) && j != i ensures Ptrs(s.ino[j]) !! Ptrs(n) {
    }
    forall j | j in Live(s')
      ensures Distinct(s'.ino[j]) && Ptrs(s'.ino[j]) <= s.data.Keys - s.free
    {
    }
  }

  lemma AttachKids(f: Forest, i: nat, t: File)
    requires KidsDisjoint(f) && Unlisted(f, i) && t.inum == i
    requires KidsIn(f, t.kids) && KidsDistinct(t.kids)
    requires forall k :: 0 <= k < |t.kids| ==> t.kids[k].inum != i && Root(f, t.kids[k].inum)
    ensures KidsDisjoint(f[i := t])
  {
    var f' := f[i := t];
    forall p | p in f && p != i
      ensures KidSet(f'[p]) !! KidSet(t)
      ensures KidsIn(f', f'[p].kids)
    {
      assert i !in KidSet(f[p]);
    }
    assert KidsIn(f', t.kids);
  }

  /** An unlisted inode takes new pointers, out of its own and reserved ones, and roots as kids. */
  lemma Attach(s: Store, f: Forest, i: nat, n: Inode, t: File, R: set<nat>)
    requires Inv(s, f) && Unlisted(f, i) && Reserved(s, R) && 1 <= i <= INODE_NUM
    requires Storable(n) && Distinct(n)
    requires Ptrs(n) <= Ptrs(s.ino[i]) + R
    requires t.inum == i && NodeOf(s, n, t)
    requires KidsIn(f, t.kids) && KidsDistinct(t.kids)
    requires forall k :: 0 <= k < |t.kids| ==> t.kids[k].inum != i && Root(f, t.kids[k].inum)
    ensures Inv(s.(ino := s.ino[i := n]), f[i := t])
  {
    AttachPointers(s, i, n, R);
    AttachKids(f, i, t);
  }

  function NewInode(kind: nat): Inode {
    FREE_INODE.(kind := kind)
  }

  function NewFile(i: nat, kind: nat): File {
    File(i, kind, 0, [], [], 0, [])
  }

  /** An inode in use with nothing in it: its record and its tree have the given kind, and no block,
      not even a left-over one, belongs to it. */
  ghost predicate Blank(n: Inode, t: File, i: nat, kind: nat) {
    && n.kind == kind && n.size == 0 && (forall j :: 0 <= j <= NDIRECT ==> n.blocks[j] == 0)
    && t.inum == i && t.kind == kind && t.size == 0 && t.ids == [] && t.blocks == [] && t.kids == []
  }

  lemma NewIsBlank(i: nat, kind: nat)
    ensures Blank(NewInode(kind), NewFile(i, kind), i, kind)
  {
  }

  /** What alloc_inode does when there is a free inode. */
  ghost predicate Allotted(s: Store, f: Forest, s': Store, f': Forest, i: nat, kind: nat) {
    && 1 <= i <= INODE_NUM && s.ino[i].kind == 0 && i !in f
    && s' == s.(ino := s.ino[i := NewInode(kind)]) && f' == f[i := NewFile(i, kind)]
  }

  /** A free inode becomes an empty file or directory, a root like the ones before it. */
  lemma InvNewInode(s: Store, f: Forest, i: nat, kind: nat)
    requires Inv(s, f) && 1 <= i <= INODE_NUM && s.ino[i].kind == 0 && 1 <= kind <= 3
    ensures i !in f
    ensures Inv(s.(ino := s.ino[i := NewInode(kind)]), f[i := NewFile(i, kind)])
    ensures Root(f[i := NewFile(i, kind)], i)
    ensures forall r :: Root(f, r) ==> Root(f[i := NewFile(i, kind)], r)
  {
    assert i !in Live(s);
    assert Unlisted(f, i) by {
      forall p | p in f ensures i !in KidSet(f[p]) {
        assert KidsIn(f, f[p].kids);
      }
    }
    assert Ptrs(NewInode(kind)) == {};
    assert KidSet(NewFile(i, kind)) == {};
    Attach(s, f, i, NewInode(kind), NewFile(i, kind), {});
  }

  // ---------------------------------------------------------------- trees inside the forest

  lemma {:induction false} InKidInums(t: File, n: nat, x: nat)
    requires n <= |t.kids|
    ensures x in KidInums(t, n) <==> exists k :: 0 <= k < n && x in Inums(t.kids[k])
  {
    if n > 0 {
      InKidInums(t, n - 1, x);
    }
  }

  /** x is the root of the tree or has its parent in it, and brings its kids along. */
  ghost predicate Linked(f: Forest, I: set<nat>, root: nat, x: nat)
    requires I <= f.Keys && x in f
  {
    && KidSet(f[x]) <= I
    && (x != root ==> exists p :: p in I && x in KidSet(f[p]))
  }

  /** The inodes of a tree are live, and the tree is closed both ways. */
  lemma {:induction false} ClosedTree(f: Forest, i: nat)
    requires KidsDisjoint(f) && i in f
    ensures Inums(f[i]) <= f.Keys
    ensures forall x :: x in Inums(f[i]) ==> Linked(f, Inums(f[i]), i, x)
    decreases f[i]
  {
    var t := f[i];
    var I := Inums(t);
    forall x | x in I ensures x in f {
      InKidInums(t, |t.kids|, x);
      if x != i {
        var k :| 0 <= k < |t.kids| && x in Inums(t.kids[k]);
        ClosedTree(f, t.kids[k].inum);
      }
    }
    forall x | x in I ensures Linked(f, I, i, x) {
      if x == i {
        forall c | c in KidSet(t) ensures c in I {
          var k :| 0 <= k < |t.kids| && t.kids[k].inum == c;
          InKidInums(t, |t.kids|, c);
        }
      } else {
        InKidInums(t, |t.kids|, x);
        var k :| 0 <= k < |t.kids| && x in Inums(t.kids[k]);
        LinkedThroughKid(f, i, k, x);
      }
    }
  }

  lemma LinkedThroughKid(f: Forest, i: nat, k: nat, x: nat)
    requires KidsDisjoint(f) && i in f && k < |f[i].kids| && x in Inums(f[i].kids[k])
    requires Inums(f[i]) <= f.Keys
    ensures x in f && KidSet(f[x]) <= Inums(f[i])
    ensures exists p :: p in Inums(f[i]) && x in KidSet(f[p])
    decreases f[i], 0
  {
    var t := f[i];
    var kid := t.kids[k];
    ClosedTree(f, kid.inum);
    forall y | y in Inums(kid) ensures y in Inums(t) {
      InKidInums(t, |t.kids|, y);
    }
    if x == kid.inum {
      assert i in Inums(t) && x in KidSet(f[i]);
    } else {
      assert Linked(f, Inums(kid), kid.inum, x);
    }
  }

  function Weight(t: File): nat
    decreases t, |t.kids| + 1
  {
    1 + KidWeights(t, |t.kids|)
  }

  function KidWeights(t: File, n: nat): nat
    requires n <= |t.kids|
    decreases t, n
  {
    if n == 0 then 0 else KidWeights(t, n - 1) + Weight(t.kids[n - 1])
  }

  lemma {:induction false} KidWeighsLess(t: File, k: nat, n: nat)
    requires k < n <= |t.kids|
    ensures Weight(t.kids[k]) <= KidWeights(t, n)
  {
    if k < n - 1 {
      KidWeighsLess(t, k, n - 1);
    }
  }

  lemma {:induction false} WeightInside(f: Forest, i: nat, x: nat)
    requires KidsDisjoint(f) && i in f && x in Inums(f[i])
    ensures x in f && (x == i || Weight(f[x]) < Weight(f[i]))
    decreases f[i]
  {
    var t := f[i];
    InKidInums(t, |t.kids|, x);
    if x != i {
      var k :| 0 <= k < |t.kids| && x in Inums(t.kids[k]);
      WeightInside(f, t.kids[k].inum, x);
      KidWeighsLess(t, k, |t.kids|);
    }
  }

  lemma ParentWeighsMore(f: Forest, p: nat, x: nat)
    requires KidsDisjoint(f) && p in f && x in KidSet(f[p])
    ensures x in f && Weight(f[x]) < Weight(f[p])
  {
    var k :| 0 <= k < |f[p].kids| && f[p].kids[k].inum == x;
    KidWeighsLess(f[p], k, |f[p].kids|);
  }

  /** Two trees that share an inode are one inside the other. */
  lemma {:induction false} Nested(f: Forest, a: nat, b: nat, x: nat)
    requires KidsDisjoint(f) && a in f && b in f
    requires x in Inums(f[a]) && x in Inums(f[b])
    ensures a in Inums(f[b]) || b in Inums(f[a])
    decreases if x in f then Weight(f[a]) - Weight(f[x]) else 0
  {
    WeightInside(f, a, x);
    WeightInside(f, b, x);
    ClosedTree(f, a);
    ClosedTree(f, b);
    if x != a && x != b {
      assert Linked(f, Inums(f[a]), a, x) && Linked(f, Inums(f[b]), b, x);
      var p :| p in Inums(f[a]) && x in KidSet(f[p]);
      var q :| q in Inums(f[b]) && x in KidSet(f[q]);
      assert p == q;
      ParentWeighsMore(f, p, x);
      WeightInside(f, a, p);
      Nested(f, a, b, p);
    }
  }

  /** An inode is not below itself, and the trees of two siblings share nothing. */
  lemma SiblingsDisjoint(f: Forest, i: nat, j: nat, k: nat)
    requires KidsDisjoint(f) && i in f && j < k < |f[i].kids|
    ensures Inums(f[i].kids[j]) !! Inums(f[i].kids[k])
  {
    var a, b := f[i].kids[j].inum, f[i].kids[k].inum;
    if x :| x in Inums(f[a]) && x in Inums(f[b]) {
      Nested(f, a, b, x);
      if a in Inums(f[b]) {
        NotBelowSibling(f, i, a, b);
      } else {
        NotBelowSibling(f, i, b, a);
      }
    }
  }

  lemma NotBelowSibling(f: Forest, i: nat, a: nat, b: nat)
    requires KidsDisjoint(f) && i in f && a in KidSet(f[i]) && b in KidSet(f[i]) && a != b
    ensures b in f && a !in Inums(f[b])
  {
    ParentWeighsMore(f, i, b);
    ClosedTree(f, b);
    if a in Inums(f[b]) {
      assert Linked(f, Inums(f[b]), b, a);
      var p :| p in Inums(f[b]) && a in KidSet(f[p]);
      assert p == i;
      WeightInside(f, b, i);
    }
  }

  lemma NotBelowItself(f: Forest, i: nat, k: nat)
    requires KidsDisjoint(f) && i in f && k < |f[i].kids|
    ensures i !in Inums(f[i].kids[k])
  {
    KidWeighsLess(f[i], k, |f[i].kids|);
    if i in Inums(f[i].kids[k]) {
      WeightInside(f, f[i].kids[k].inum, i);
    }
  }

  /** The trees of two roots share no inode. */
  lemma RootsDisjoint(f: Forest, a: nat, b: nat)
    requires KidsDisjoint(f) && Root(f, a) && Root(f, b) && a != b
    ensures Inums(f[a]) !! Inums(f[b])
  {
    if x :| x in Inums(f[a]) && x in Inums(f[b]) {
      Nested(f, a, b, x);
      RootOutside(f, a, b);
      RootOutside(f, b, a);
    }
  }

  lemma RootOutside(f: Forest, a: nat, b: nat)
    requires KidsDisjoint(f) && Root(f, a) && b in f && a != b
    ensures a !in Inums(f[b])
  {
    ClosedTree(f, b);
  }

  /** The forest is no extra state: the disk determines it. */
  lemma ForestUnique(s: Store, f: Forest, g: Forest)
    requires Inv(s, f) && Inv(s, g)
    ensures f == g
  {
    forall i | i in f ensures f[i] == g[i] {
      TreeUnique(s, f, g, i);
    }
  }

  lemma {:induction false} TreeUnique(s: Store, f: Forest, g: Forest, i: nat)
    requires Inv(s, f) && Inv(s, g) && i in f
    ensures f[i] == g[i]
    decreases f[i]
  {
    hide NodeOf, Storable, Distinct, Ptrs, KidSet, KidsDistinct, PointersDisjoint, Shape;
    assert f.Keys == g.Keys && KidsDisjoint(f) && KidsDisjoint(g);
    hide KidsDisjoint;
    NodeAt(s, f, i);
    NodeAt(s, g, i);
    hide Inv;
    SameNode(s, s.ino[i], f[i], g[i]);
    forall k | 0 <= k < |f[i].kids| ensures f[i].kids[k] == g[i].kids[k] {
      KidAt(f, i, k);
      KidAt(g, i, k);
      TreeUnique(s, f, g, f[i].kids[k].inum);
    }
  }

  /** Two trees of one record differ at most in what is below their kids. */
  lemma SameNode(s: Store, n: Inode, t: File, u: File)
    requires NodeOf(s, n, t) && NodeOf(s, n, u) && t.inum == u.inum
    ensures |t.kids| == |u.kids| && forall k :: 0 <= k < |t.kids| ==> t.kids[k].inum == u.kids[k].inum
    ensures t.kids == u.kids ==> t == u
  {
    assert t.ids == u.ids && t.blocks == u.blocks;
  }

  lemma {:induction false} TreeFormed(s: Store, f: Forest, i: nat)
    requires Inv(s, f) && i in f
    ensures Formed(f[i])
    decreases f[i]
  {
    var t := f[i];
    forall k | 0 <= k < |t.kids| ensures Formed(t.kids[k]) {
      TreeFormed(s, f, t.kids[k].inum);
    }
  }

  // ---------------------------------------------------------------- removal

  /** The tree of a root and blocks that only it points at can be erased. */
  lemma EraseTree(s: Store, f: Forest, r: nat, B: set<nat>)
    requires Inv(s, f) && Root(f, r)
    requires forall b :: b in B ==> exists i :: i in Inums(f[r]) && i <= INODE_NUM && b in Ptrs(s.ino[i])
    ensures Inv(Erase(s, Inums(f[r]), B), f - Inums(f[r]))
    ensures forall q :: Root(f, q) && q != r ==> Root(f - Inums(f[r]), q)
  {
    var I := Inums(f[r]);
    ClosedTree(f, r);
    EraseKids(f, r);
    ErasePointers(s, f, I, B);
    EraseNodes(s, f, I, B);
    assert (f - I).Keys == Live(Erase(s, I, B));
  }

  lemma EraseKids(f: Forest, r: nat)
    requires KidsDisjoint(f) && Root(f, r)
    ensures KidsDisjoint(f - Inums(f[r]))
    ensures forall q :: Root(f, q) && q != r ==> Root(f - Inums(f[r]), q)
  {
    var I := Inums(f[r]);
    var f' := f - I;
    ClosedTree(f, r);
    forall p | p in f && p !in I ensures KidSet(f[p]) !! I && KidsIn(f', f[p].kids) {
      forall k | 0 <= k < |f[p].kids| ensures f[p].kids[k].inum !in I {
        assert f[p].kids[k].inum in KidSet(f[p]);
      }
    }
    forall q | Root(f, q) && q != r ensures q !in I {
      RootOutside(f, q, r);
    }
  }

  lemma ErasePointers(s: Store, f: Forest, I: set<nat>, B: set<nat>)
    requires Inv(s, f) && I <= f.Keys
    requires forall b :: b in B ==> exists i :: i in I && i <= INODE_NUM && b in Ptrs(s.ino[i])
    ensures var s' := Erase(s, I, B);
            Shape(s') && PointersDisjoint(s') && Live(s') == Live(s) - I
    ensures forall i :: i in f && i !in I ==> Ptrs(s.ino[i]) !! B
  {
    var s' := Erase(s, I, B);
    assert Live(s') == Live(s) - I;
    forall i | i in f && i !in I ensures Ptrs(s.ino[i]) !! B {
    }
    assert s'.data.Keys == s.data.Keys;
  }

  lemma EraseNodes(s: Store, f: Forest, I: set<nat>, B: set<nat>)
    requires Inv(s, f) && I <= f.Keys
    requires forall i :: i in f && i !in I ==> Ptrs(s.ino[i]) !! B
    ensures var s' := Erase(s, I, B);
            forall i :: i in f && i !in I ==> s'.ino[i] == s.ino[i] && NodeOf(s', s.ino[i], f[i])
  {
    var s' := Erase(s, I, B);
    forall i | i in f && i !in I ensures NodeOf(s', s.ino[i], f[i]) {
      NodeFrame(s, s', s.ino[i], f[i], B);
    }
  }

  /** A tree node does not notice changes to blocks it has no pointer to. */
  lemma NodeFrame(s: Store, s': Store, n: Inode, t: File, B: set<nat>)
    requires NodeOf(s, n, t) && Ptrs(n) !! B && 0 !in s.data
    requires s'.data.Keys == s.data.Keys
    requires forall b :: b in s.data && b !in B ==> s'.data[b] == s.data[b]
    ensures NodeOf(s', n, t)
  {
    forall j | 0 <= j < |t.ids| ensures t.ids[j] !in B {
      assert Active(n, j);
      assert n.blocks[j] in Ptrs(n);
    }
    if n.size > NDIRECT {
      assert Active(n, NDIRECT);
      assert t.table in Ptrs(n);
    }
  }
}
