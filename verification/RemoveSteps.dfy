/** The steps of remove_file: each erases more of the state that the removal started from. */
module RemoveSteps {
  import opened Layout
  import opened Stores
  import opened FileTree
  import opened Forests
  import opened Growth

  lemma ReleasedByUnion(s: Store, I: set<nat>, J: set<nat>)
    ensures ReleasedBy(s, I + J) == ReleasedBy(s, I) + ReleasedBy(s, J)
  {
  }

  lemma ReleasedByOne(s: Store, i: nat)
    requires i <= INODE_NUM
    ensures ReleasedBy(s, {i}) == Released(s.ino[i])
  {
  }

  /** free_block of a block in use, or of one freed before. */
  lemma FreeOne(s0: Store, I: set<nat>, B: set<nat>, id: nat)
    requires id in s0.data && id !in s0.free
    ensures var s := Erase(s0, I, B);
            Erase(s0, I, B + {id}) == if id in s.data && id !in s.free then Erase(s, {}, {id}) else s
  {
    EraseTwice(s0, I, B, {}, {id});
    assert I + {} == I;
    if id in B {
      assert B + {id} == B;
    }
  }

  /** The blocks freed for one inode, k of them done. */
  function ReleasedUpTo(n: Inode, k: nat): set<nat>
    requires k <= NDIRECT
  {
    Elems(n.blocks[..k])
  }

  lemma NoneReleased(n: Inode, B: set<nat>)
    ensures B + ReleasedUpTo(n, 0) == B
  {
  }

  lemma RunEnds(n: Inode, k: nat)
    requires k <= NDIRECT && RunLen(n.blocks, 0) == RunLen(n.blocks, k)
    requires k == NDIRECT || n.blocks[k] == 0
    ensures ReleasedUpTo(n, k) == Released(n)
  {
  }

  lemma RunGoesOn(n: Inode, k: nat)
    requires k < NDIRECT && n.blocks[k] != 0
    ensures RunLen(n.blocks, k) == RunLen(n.blocks, k + 1)
    ensures ReleasedUpTo(n, k + 1) == ReleasedUpTo(n, k) + {n.blocks[k]}
  {
    assert n.blocks[..k + 1] == n.blocks[..k] + [n.blocks[k]];
  }

  /** Direct pointers of a live inode are blocks in use. */
  lemma PointerInUse(s: Store, f: Forest, i: nat, k: nat)
    requires Inv(s, f) && i in f && i <= INODE_NUM && k < NDIRECT && s.ino[i].blocks[k] != 0
    ensures s.ino[i].blocks[k] in s.data && s.ino[i].blocks[k] !in s.free
  {
    assert i in Live(s);
    assert Active(s.ino[i], k);
    assert s.ino[i].blocks[k] in Ptrs(s.ino[i]);
  }

  /** While only direct blocks of the forest are gone, an inode not yet removed is as it was. */
  lemma NodeStillThere(s0: Store, f0: Forest, I: set<nat>, B: set<nat>, i: nat)
    requires Inv(s0, f0) && B <= ReleasedBy(s0, f0.Keys) && i in f0 && i <= INODE_NUM && i !in I
    ensures var s := Erase(s0, I, B);
            && s.ino[i] == s0.ino[i] && s.ino[i].kind != 0
            && (s.ino[i].size > NDIRECT ==>
                  s.ino[i].blocks[NDIRECT] in s.data && Listed(Table(s.data[s.ino[i].blocks[NDIRECT]]), f0[i].kids))
            && (s.ino[i].size <= NDIRECT ==> f0[i].kids == [])
  {
    assert i in Live(s0) && NodeOf(s0, s0.ino[i], f0[i]);
    if s0.ino[i].size > NDIRECT {
      TableNotReleased(s0, f0, f0.Keys, i);
    }
  }

  /** Sub-inode k has not been touched by the removal of the ones before it. */
  lemma KidUntouched(f: Forest, i: nat, k: nat, I: set<nat>)
    requires KidsDisjoint(f) && i in f && k < |f[i].kids|
    requires Inums(f[i]) !! I
    ensures Inums(f[i].kids[k]) !! I + KidInums(f[i], k)
    ensures f[i].kids[k].inum in f && f[f[i].kids[k].inum] == f[i].kids[k]
  {
    var t := f[i];
    forall x | x in Inums(t.kids[k]) ensures x !in I && x !in KidInums(t, k) {
      InKidInums(t, |t.kids|, x);
      InKidInums(t, k, x);
      if x in KidInums(t, k) {
        var j :| 0 <= j < k && x in Inums(t.kids[j]);
        SiblingsDisjoint(f, i, j, k);
      }
    }
  }

  lemma ParentUntouched(f: Forest, i: nat)
    requires KidsDisjoint(f) && i in f
    ensures i !in KidInums(f[i], |f[i].kids|)
  {
    InKidInums(f[i], |f[i].kids|, i);
    forall k | 0 <= k < |f[i].kids| ensures i !in Inums(f[i].kids[k]) {
      NotBelowItself(f, i, k);
    }
  }

  lemma ReleasedByGrows(s: Store, I: set<nat>, J: set<nat>)
    requires I <= J
    ensures ReleasedBy(s, I) <= ReleasedBy(s, J)
  {
  }

  /** After the inodes I and the blocks B, the inodes K and all they release are gone. */
  ghost function Gone(s0: Store, I: set<nat>, B: set<nat>, K: set<nat>): Store {
    Erase(s0, I + K, B + ReleasedBy(s0, K))
  }

  lemma GoneTrans(s0: Store, I: set<nat>, B: set<nat>, K: set<nat>, J: set<nat>)
    ensures Gone(s0, I + K, B + ReleasedBy(s0, K), J) == Gone(s0, I, B, K + J)
  {
    ReleasedByUnion(s0, K, J);
    assert I + K + J == I + (K + J);
    assert B + ReleasedBy(s0, K) + ReleasedBy(s0, J) == B + ReleasedBy(s0, K + J);
  }

  /** Adding up: the sub-inodes, then the inode itself. */
  lemma RemovalAddsUp(s0: Store, f0: Forest, i: nat, I: set<nat>, B: set<nat>)
    requires i in f0 && f0[i].inum == i && i <= INODE_NUM
    ensures Erase(Gone(s0, I, B + Released(s0.ino[i]), KidInums(f0[i], |f0[i].kids|)), {i}, {})
            == Gone(s0, I, B, Inums(f0[i]))
  {
    var t := f0[i];
    var K := KidInums(t, |t.kids|);
    EraseTwice(s0, I + K, B + Released(s0.ino[i]) + ReleasedBy(s0, K), {i}, {});
    ReleasedByUnion(s0, {i}, K);
    ReleasedByOne(s0, i);
    assert I + K + {i} == I + Inums(t);
    assert B + Released(s0.ino[i]) + ReleasedBy(s0, K) + {} == B + ReleasedBy(s0, Inums(t));
  }

  /** A whole removal, seen from its start. */
  lemma RemovalIsGone(s: Store, f: Forest, r: nat)
    requires Inv(s, f) && Root(f, r)
    ensures Gone(s, {}, {}, Inums(f[r])) == Removed(s, f[r])
    ensures Inv(Removed(s, f[r]), f - Inums(f[r]))
    ensures forall q :: Root(f, q) && q != r ==> Root(f - Inums(f[r]), q)
  {
    RemovedKeepsInv(s, f, r);
    GoneFromStart(s, Inums(f[r]));
  }

  lemma GoneFromStart(s: Store, K: set<nat>)
    ensures Gone(s, {}, {}, K) == Erase(s, K, ReleasedBy(s, K))
  {
    assert {} + K == K;
    assert {} + ReleasedBy(s, K) == ReleasedBy(s, K);
  }

  /** get_inode finds type 0 only for inodes that were not in use when the removal started. */
  lemma NotYetGone(s0: Store, f0: Forest, I: set<nat>, B: set<nat>, i: nat)
    requires Inv(s0, f0) && 1 <= i <= INODE_NUM && i in f0 && Inums(f0[i]) !! I
    ensures Erase(s0, I, B).ino[i].kind != 0
  {
    assert i in Live(s0) && f0[i].inum == i;
    assert i in Inums(f0[i]);
  }

  lemma LiveStill(s0: Store, f0: Forest, I: set<nat>, B: set<nat>, i: nat)
    requires Inv(s0, f0) && 1 <= i <= INODE_NUM && Erase(s0, I, B).ino[i].kind != 0
    ensures i in f0 && f0[i].inum == i && i !in I && Erase(s0, I, B).ino[i] == s0.ino[i]
  {
    assert i in Live(s0);
  }

  lemma NoKids(s0: Store, t: File, I: set<nat>, B: set<nat>)
    ensures Gone(s0, I, B, KidInums(t, 0)) == Erase(s0, I, B)
  {
    assert KidInums(t, 0) == {};
    assert I + {} == I && B + ReleasedBy(s0, {}) == B;
  }

  lemma ListedLen(ws: seq<nat>, kids: seq<File>)
    requires Listed(ws, kids)
    ensures |kids| <= |ws|
  {
  }

  /** A table ends at its first zero. */
  lemma ListedAt(ws: seq<nat>, kids: seq<File>, k: nat)
    requires Listed(ws, kids) && k < |ws| && k <= |kids|
    ensures ws[k] == 0 <==> k == |kids|
    ensures k < |kids| ==> ws[k] == kids[k].inum
  {
  }

  /** With the direct blocks of an inode gone, its table and its sub-inodes are as they were. */
  lemma KidsReady(s0: Store, f0: Forest, I: set<nat>, B: set<nat>, i: nat)
    requires Inv(s0, f0) && B <= ReleasedBy(s0, f0.Keys) && i in f0 && i <= INODE_NUM && i !in I
    ensures var C := B + Released(s0.ino[i]);
            var s := Erase(s0, I, C);
            && C <= ReleasedBy(s0, f0.Keys)
            && Gone(s0, I, C, KidInums(f0[i], 0)) == s
            && (s0.ino[i].size > NDIRECT ==>
                  var id := s0.ino[i].blocks[NDIRECT];
                  id in s.data && Listed(Table(s.data[id]), f0[i].kids))
            && (s0.ino[i].size <= NDIRECT ==> f0[i].kids == [])
  {
    hide Inv, Erase, Listed, Table, Released, ReleasedBy, KidInums;
    var C := B + Released(s0.ino[i]);
    ReleasedByOne(s0, i);
    ReleasedByGrows(s0, {i}, f0.Keys);
    NodeStillThere(s0, f0, I, C, i);
    NoKids(s0, f0[i], I, C);
  }

  lemma KidsLive(s0: Store, f0: Forest, i: nat, k: nat)
    requires Inv(s0, f0) && i in f0 && k < |f0[i].kids|
    ensures 1 <= f0[i].kids[k].inum <= INODE_NUM
    ensures f0[i].kids[k].inum in f0 && f0[f0[i].kids[k].inum] == f0[i].kids[k]
    ensures KidInums(f0[i], k) <= f0.Keys
  {
    hide NodeOf, KidSet, KidsDistinct, PointersDisjoint, Shape, KidInums;
    assert KidsDisjoint(f0);
    hide KidsDisjoint;
    KidAt(f0, i, k);
    assert f0[i].kids[k].inum in Live(s0);
    KidTreeIds(f0, i, k, 0);
  }
}
