/** Directories: one entry per block; appending and removing entries; cutting a file short. */
module Directory {
  import opened Layout
  import opened Bytes
  import opened Stores
  import opened FileTree
  import opened Forests

  datatype Entry = Entry(inum: nat, name: seq<Byte>)

  // ---------------------------------------------------------------- one entry in one block

  /** What strlen finds from byte i on. */
  function StringEnd(x: seq<Byte>, i: nat): (e: nat)
    requires i <= |x|
    ensures i <= e <= |x|
    ensures forall j :: i <= j < e ==> x[j] != 0
    ensures e < |x| ==> x[e] == 0
    decreases |x| - i
  {
    if i == |x| || x[i] == 0 then i else StringEnd(x, i + 1)
  }

  /** The entry a directory block holds: a 32-bit inode number and a C string. */
  function EntryOf(b: Block): Entry {
    Entry(WordValue(b[0..4]), b[4..StringEnd(b, 4)])
  }

  /** Names that fit a block and hold no zero byte: C strings of up to BLOCK_SIZE - 4 bytes. */
  ghost predicate GoodName(name: seq<Byte>) {
    |name| <= BLOCK_SIZE - 4 && forall i :: 0 <= i < |name| ==> name[i] != 0
  }

  function EntryBlock(inum: nat, name: seq<Byte>): Block
    requires inum < U32_LIMIT && |name| <= BLOCK_SIZE - 4
  {
    Word(inum) + name + Zeros(BLOCK_SIZE - 4 - |name|)
  }

  lemma EntryRoundTrip(inum: nat, name: seq<Byte>)
    requires inum < U32_LIMIT && GoodName(name)
    ensures EntryOf(EntryBlock(inum, name)) == Entry(inum, name)
  {
    var b := EntryBlock(inum, name);
    assert b[0..4] == Word(inum);
    WordRoundTrip(inum);
    assert b[4..4 + |name|] == name;
    forall j | 4 <= j < 4 + |name| ensures b[j] != 0 {
      assert b[j] == name[j - 4];
    }
    assert 4 + |name| < BLOCK_SIZE ==> b[4 + |name|] == 0;
    assert StringEnd(b, 4) == 4 + |name|;
  }

  /** Where they are in the block: the number in bytes 0..3, then the name, then a zero byte if the block
      has room for one. */
  lemma EntryFields(inum: nat, name: seq<Byte>)
    requires inum < U32_LIMIT && |name| <= BLOCK_SIZE - 4
    ensures var b := EntryBlock(inum, name);
            && inum == WordValue(b[0..4]) && b[4..4 + |name|] == name
            && forall j :: 4 + |name| <= j < BLOCK_SIZE ==> b[j] == 0
  {
    assert EntryBlock(inum, name)[0..4] == Word(inum);
    WordRoundTrip(inum);
  }

  // ---------------------------------------------------------------- listings

  function ListBlocks(blocks: seq<Block>, n: nat): (l: seq<Entry>)
    requires n <= |blocks|
    ensures |l| == n
    ensures forall k :: 0 <= k < n ==> l[k] == EntryOf(blocks[k])
  {
    if n == 0 then [] else ListBlocks(blocks, n - 1) + [EntryOf(blocks[n - 1])]
  }

  /** read_dir: the entries in the direct blocks, then those of the sub-directories in the table. */
  function Listing(t: File): seq<Entry>
    decreases t, |t.kids| + 1
  {
    if t.kind != T_DIR then [] else ListBlocks(t.blocks, |t.blocks|) + ListKids(t, |t.kids|)
  }

  function ListKids(t: File, n: nat): seq<Entry>
    requires n <= |t.kids|
    decreases t, n
  {
    if n == 0 then [] else ListKids(t, n - 1) + Listing(t.kids[n - 1])
  }

  /** A directory within its direct blocks. */
  ghost predicate FlatDir(t: File) {
    t.kind == T_DIR && t.kids == [] && t.size == |t.ids| == |t.blocks| <= NDIRECT
  }

  lemma FlatListing(t: File)
    requires FlatDir(t)
    ensures Listing(t) == ListBlocks(t.blocks, |t.blocks|)
  {
    assert ListKids(t, 0) == [];
  }

  /** Block ids[k] holds entry l[k]. */
  ghost predicate EntriesAt(s: Store, ids: seq<nat>, l: seq<Entry>) {
    |ids| == |l| && forall k :: 0 <= k < |ids| ==> ids[k] in s.data && EntryOf(s.data[ids[k]]) == l[k]
  }

  /** A directory all of whose sub-inodes are directories too. */
  ghost predicate AllDirs(t: File) {
    t.kind == T_DIR && forall k :: 0 <= k < |t.kids| ==> AllDirs(t.kids[k])
  }

  /** read_dir and read_blockid agree at any depth: entry k of the one is in block k of the other. */
  lemma {:induction false} ListingInOrder(s: Store, f: Forest, d: nat)
    requires Inv(s, f) && d in f && AllDirs(f[d])
    ensures EntriesAt(s, BlockIds(f[d]), Listing(f[d]))
    decreases f[d], |f[d].kids| + 1
  {
    hide Inv, EntryOf, Listed, ListKids, KidBlockIds;
    NodeAt(s, f, d);
    KidsInOrder(s, f, d, |f[d].kids|);
  }

  lemma {:induction false} KidsInOrder(s: Store, f: Forest, d: nat, n: nat)
    requires Inv(s, f) && d in f && AllDirs(f[d]) && n <= |f[d].kids|
    ensures EntriesAt(s, KidBlockIds(f[d], n), ListKids(f[d], n))
    decreases f[d], n
  {
    hide Inv, EntryOf, Listing, BlockIds;
    if n > 0 {
      KidsInOrder(s, f, d, n - 1);
      KidOf(s, f, d, n - 1);
      ListingInOrder(s, f, f[d].kids[n - 1].inum);
    }
  }

  /** Index of the first entry for inum; the length when there is none. */
  function FirstIndex(l: seq<Entry>, inum: nat): (k: nat)
    ensures k <= |l|
    ensures k < |l| ==> l[k].inum == inum
    ensures forall j :: 0 <= j < k ==> l[j].inum != inum
  {
    if l == [] || l[0].inum == inum then 0 else 1 + FirstIndex(l[1..], inum)
  }

  // ---------------------------------------------------------------- trees after a directory operation

  function AppendEntry(t: File, id: nat, b: Block): File {
    t.(size := t.size + 1, ids := t.ids + [id], blocks := t.blocks + [b])
  }

  /** Item k overwritten by the last one, and the last one dropped; any larger k drops the last one. */
  function Without<T>(l: seq<T>, k: nat): seq<T>
    requires l != []
  {
    var last := |l| - 1;
    if k < last then l[k := l[last]][..last] else l[..last]
  }

  /** Item k, if there is one. */
  function ItemAt(ids: seq<nat>, k: nat): set<nat> {
    if k < |ids| then {ids[k]} else {}
  }

  function DropEntry(t: File, k: nat): File
    requires 0 < |t.ids| == |t.blocks| && 0 < t.size
  {
    t.(size := t.size - 1, ids := Without(t.ids, k), blocks := Without(t.blocks, k))
  }

  /** The listing grows at the end. */
  lemma AppendListing(t: File, id: nat, inum: nat, name: seq<Byte>)
    requires FlatDir(t) && t.size < NDIRECT && inum < U32_LIMIT && GoodName(name)
    ensures FlatDir(AppendEntry(t, id, EntryBlock(inum, name)))
    ensures Listing(AppendEntry(t, id, EntryBlock(inum, name))) == Listing(t) + [Entry(inum, name)]
  {
    var u := AppendEntry(t, id, EntryBlock(inum, name));
    FlatListing(t);
    FlatListing(u);
    EntryRoundTrip(inum, name);
  }

  ghost predicate GoodEntry(e: Entry) {
    e.inum < U32_LIMIT && GoodName(e.name)
  }

  /** The directory after a run of appends: entry k goes to block ids[k]. */
  ghost function AppendAll(t: File, ids: seq<nat>, l: seq<Entry>): File
    requires |ids| == |l| && forall k :: 0 <= k < |l| ==> GoodEntry(l[k])
  {
    if l == [] then t
    else
      var last := |l| - 1;
      assert GoodEntry(l[last]);
      AppendEntry(AppendAll(t, ids[..last], l[..last]), ids[last], EntryBlock(l[last].inum, l[last].name))
  }

  /** Any run of appends within NDIRECT entries: the listing is the old one, then all new entries in
      the order in which they were added. */
  lemma {:induction false} AppendAllListing(t: File, ids: seq<nat>, l: seq<Entry>)
    requires FlatDir(t) && t.size + |l| <= NDIRECT
    requires |ids| == |l| && forall k :: 0 <= k < |l| ==> GoodEntry(l[k])
    ensures FlatDir(AppendAll(t, ids, l)) && AppendAll(t, ids, l).size == t.size + |l|
    ensures Listing(AppendAll(t, ids, l)) == Listing(t) + l
  {
    if l == [] {
      assert Listing(t) + l == Listing(t);
    } else {
      var last := |l| - 1;
      var before := AppendAll(t, ids[..last], l[..last]);
      AppendAllListing(t, ids[..last], l[..last]);
      OneMoreListing(before, ids[last], l[last]);
      OneMore(Listing(t), l);
    }
  }

  lemma OneMoreListing(t: File, id: nat, e: Entry)
    requires FlatDir(t) && t.size < NDIRECT && GoodEntry(e)
    ensures var u := AppendEntry(t, id, EntryBlock(e.inum, e.name));
            FlatDir(u) && u.size == t.size + 1 && Listing(u) == Listing(t) + [e]
  {
    AppendListing(t, id, e.inum, e.name);
  }

  lemma OneMore(a: seq<Entry>, l: seq<Entry>)
    requires l != []
    ensures a + l[..|l| - 1] + [l[|l| - 1]] == a + l
  {
  }

  /** The old listing with entry k overwritten by the last one and the last one dropped. */
  lemma DropListing(t: File, k: nat)
    requires FlatDir(t) && 0 < t.size && k <= t.size
    ensures FlatDir(DropEntry(t, k))
    ensures |Listing(t)| == t.size
    ensures Listing(DropEntry(t, k)) == Without(Listing(t), k)
  {
    FlatListing(t);
    FlatListing(DropEntry(t, k));
    ListWithout(t.blocks, k);
  }

  /** Place by place: the last entry is where the removed one was, all others stay where they are. */
  lemma DropMovesLast(t: File, k: nat)
    requires FlatDir(t) && k < t.size
    ensures var l, u := Listing(t), Listing(DropEntry(t, k));
            && |l| == t.size && |u| == t.size - 1
            && forall j :: 0 <= j < |u| ==> u[j] == if j == k then l[|l| - 1] else l[j]
  {
    hide Listing, FlatDir, DropEntry;
    DropListing(t, k);
  }

  lemma ListWithout(blocks: seq<Block>, k: nat)
    requires blocks != []
    ensures ListBlocks(Without(blocks, k), |blocks| - 1) == Without(ListBlocks(blocks, |blocks|), k)
  {
    var last := |blocks| - 1;
    PointwiseWithout(blocks, ListBlocks(blocks, |blocks|), ListBlocks(Without(blocks, k), last), EntryOf, k);
  }

  /** Taking an item out and translating each item commute. */
  lemma PointwiseWithout<A, B>(a: seq<A>, l: seq<B>, u: seq<B>, f: A -> B, k: nat)
    requires 0 < |a| == |l| == |u| + 1
    requires forall j :: 0 <= j < |a| ==> l[j] == f(a[j])
    requires forall j :: 0 <= j < |u| ==> u[j] == f(Without(a, k)[j])
    ensures u == Without(l, k)
  {
  }

  /** One entry at a time: removal takes exactly one occurrence of the entry at k out. */
  lemma DropKeepsOthers(l: seq<Entry>, k: nat)
    requires k < |l|
    ensures multiset(Without(l, k)) == multiset(l) - multiset{l[k]}
  {
    var last := |l| - 1;
    assert l == l[..last] + [l[last]];
    if k < last {
      assert l[k := l[last]][..last] == l[..last][k := l[last]];
    }
  }

  // ---------------------------------------------------------------- the invariant through them

  /** The inode after add_to_dir. */
  function AppendSlot(n: Inode, id: nat): Inode
    requires n.size <= NDIRECT
  {
    SetSlot(n, n.size, id).(size := n.size + 1)
  }

  /** What add_to_dir does to the disk: one free block is taken, and the directory points at it. */
  ghost predicate Appended(s: Store, s': Store, d: nat, id: nat)
    requires d <= INODE_NUM
  {
    && s'.free == s.free - {id} && s'.data.Keys == s.data.Keys && s'.n == s.n
    && s.ino[d].size <= NDIRECT && s'.ino == s.ino[d := AppendSlot(s.ino[d], id)]
  }

  lemma AppendPtrs(n: Inode, id: nat)
    requires n.size < NDIRECT && Distinct(n) && id !in Ptrs(n) && id != 0
    ensures var m := AppendSlot(n, id);
            Distinct(m) && Ptrs(m) <= Ptrs(n) + {id}
  {
    var m := AppendSlot(n, id);
    forall j: nat | j <= NDIRECT && Active(m, j) ensures m.blocks[j] == id || (Active(n, j) && m.blocks[j] == n.blocks[j]) {
    }
    forall j, k | 0 <= j < k <= NDIRECT && Active(m, j) && Active(m, k) ensures m.blocks[j] != m.blocks[k] {
      if j == n.size {
        assert n.blocks[k] in Ptrs(n);
      } else if k == n.size {
        assert n.blocks[j] in Ptrs(n);
      }
    }
  }

  /** add_to_dir below NDIRECT entries: one reserved block becomes the last entry. */
  lemma AppendKeepsInv(s: Store, f: Forest, d: nat, id: nat, b: Block)
    requires Inv(s, f) && Root(f, d) && d <= INODE_NUM && f[d].size < NDIRECT
    requires Reserved(s, {id}) && s.data[id] == b
    ensures s.ino[d].size == f[d].size
    ensures var n := AppendSlot(s.ino[d], id);
            Storable(n) && Inv(s.(ino := s.ino[d := n]), f[d := AppendEntry(f[d], id, b)])
    ensures forall r :: Root(f, r) ==> Root(f[d := AppendEntry(f[d], id, b)], r)
  {
    var before := s.ino[d];
    var n := AppendSlot(before, id);
    assert d in Live(s) && NodeOf(s, before, f[d]);
    assert id in {id};
    AppendPtrs(before, id);
    assert Storable(before);
    AppendNode(s, before, f[d], id);
    Attach(s, f, d, n, AppendEntry(f[d], id, b), {id});
    SameKidsRoots(f, d, AppendEntry(f[d], id, b));
  }

  lemma AppendNode(s: Store, n: Inode, t: File, id: nat)
    requires NodeOf(s, n, t) && n.size < NDIRECT && id in s.data
    ensures NodeOf(s, AppendSlot(n, id), AppendEntry(t, id, s.data[id]))
  {
  }

  lemma SameKidsRoots(f: Forest, d: nat, t: File)
    requires d in f && f[d].kids == [] && t.kids == []
    ensures forall r :: Root(f, r) ==> Root(f[d := t], r)
  {
    assert KidSet(t) == {};
  }

  /** The inode after remove_from_dir. */
  function DropSlot(n: Inode, k: nat): Inode
    requires 0 < n.size <= NDIRECT
  {
    var last := n.size - 1;
    var m := if k < last then SetSlot(n, k, n.blocks[last]) else n;
    SetSlot(m, last, 0).(size := last)
  }

  lemma DropPtrs(n: Inode, k: nat)
    requires 0 < n.size <= NDIRECT && Distinct(n) && k <= n.size
    requires forall j :: 0 <= j < n.size ==> n.blocks[j] != 0
    ensures Distinct(DropSlot(n, k)) && Ptrs(DropSlot(n, k)) <= Ptrs(n)
    ensures k < n.size ==> n.blocks[k] !in Ptrs(DropSlot(n, k))
  {
    var m, last := DropSlot(n, k), n.size - 1;
    forall j: nat | j <= NDIRECT && Active(m, j)
      ensures j != last && if j == k < last then Active(n, last) && m.blocks[j] == n.blocks[last]
                           else Active(n, j) && m.blocks[j] == n.blocks[j]
    {
    }
    assert k < n.size ==> Active(n, k);
  }

  lemma DropNode(s: Store, n: Inode, t: File, k: nat)
    requires NodeOf(s, n, t) && 0 < n.size <= NDIRECT && k <= n.size
    ensures NodeOf(s, DropSlot(n, k), DropEntry(t, k))
  {
  }

  lemma DropStorable(n: Inode, k: nat)
    requires Storable(n) && 0 < n.size <= NDIRECT
    ensures Storable(DropSlot(n, k))
  {
  }

  /** A block nothing points at can be freed. */
  lemma FreeKeepsInv(s: Store, f: Forest, b: nat)
    requires Inv(s, f) && Reserved(s, {b})
    ensures Inv(Erase(s, {}, {b}), f)
  {
    var s' := Erase(s, {}, {b});
    assert s'.ino == s.ino;
    assert Live(s') == Live(s);
    assert s'.data.Keys == s.data.Keys;
    assert b in {b};
    forall i | i in f ensures NodeOf(s', s'.ino[i], f[i]) {
      NodeFrame(s, s', s.ino[i], f[i], {b});
    }
  }

  /** remove_from_dir within NDIRECT entries, as written: the entry's block is freed when the
      entry is there, and the last slot is dropped either way. */
  lemma DropKeepsInv(s: Store, f: Forest, d: nat, k: nat)
    requires Inv(s, f) && Root(f, d) && d <= INODE_NUM && 0 < f[d].size <= NDIRECT && k <= f[d].size
    ensures var m := s.(ino := s.ino[d := DropSlot(s.ino[d], k)]);
            && s.ino[d].size == f[d].size && Storable(DropSlot(s.ino[d], k))
            && Inv(m, f[d := DropEntry(f[d], k)])
            && (k < f[d].size ==> Reserved(m, {f[d].ids[k]}))
    ensures forall r :: Root(f, r) ==> Root(f[d := DropEntry(f[d], k)], r)
  {
    var n := s.ino[d];
    assert d in Live(s) && NodeOf(s, n, f[d]);
    forall j | 0 <= j < n.size ensures n.blocks[j] != 0 {
      assert n.blocks[j] == f[d].ids[j];
    }
    DropPtrs(n, k);
    DropNode(s, n, f[d], k);
    assert Storable(n);
    DropStorable(n, k);
    Attach(s, f, d, DropSlot(n, k), DropEntry(f[d], k), {});
    SameKidsRoots(f, d, DropEntry(f[d], k));
    if k < f[d].size {
      DroppedReserved(s, d, k);
    }
  }

  lemma DroppedReserved(s: Store, d: nat, k: nat)
    requires PointersDisjoint(s) && d in Live(s) && 0 < s.ino[d].size <= NDIRECT && k < s.ino[d].size
    requires s.ino[d].blocks[k] != 0 && s.ino[d].blocks[k] !in Ptrs(DropSlot(s.ino[d], k))
    ensures Reserved(s.(ino := s.ino[d := DropSlot(s.ino[d], k)]), {s.ino[d].blocks[k]})
  {
    var b := s.ino[d].blocks[k];
    var m := s.(ino := s.ino[d := DropSlot(s.ino[d], k)]);
    assert Active(s.ino[d], k);
    assert b in Ptrs(s.ino[d]);
    forall i | i in Live(m) ensures {b} !! Ptrs(m.ino[i]) {
      if i != d {
        assert i in Live(s);
      }
    }
  }

  // ---------------------------------------------------------------- cutting a file short

  /** The first k direct blocks of a file. */
  function CutFile(t: File, k: nat): File
    requires k <= |t.ids| && k <= |t.blocks|
  {
    t.(size := k, ids := t.ids[..k], blocks := t.blocks[..k], table := 0, kids := [])
  }

  /** The disk with the size field of inode i set to k. */
  function Resized(s: Store, i: nat, k: nat): Store
    requires i <= INODE_NUM
  {
    s.(ino := s.ino[i := s.ino[i].(size := k)])
  }

  /** Setting `size` to k within the direct blocks: the pointers stay, as left-overs. */
  lemma CutKeepsInv(s: Store, f: Forest, i: nat, k: nat)
    requires Inv(s, f) && Root(f, i) && i <= INODE_NUM && k <= |f[i].ids|
    ensures k <= |f[i].blocks|
    ensures Storable(s.ino[i].(size := k)) && Inv(Resized(s, i, k), f[i := CutFile(f[i], k)])
    ensures forall r :: Root(f, r) ==> Root(f[i := CutFile(f[i], k)], r)
  {
    var n := s.ino[i].(size := k);
    assert i in Live(s) && NodeOf(s, s.ino[i], f[i]);
    forall j: nat | j <= NDIRECT && Active(n, j) ensures Active(s.ino[i], j) && n.blocks[j] == s.ino[i].blocks[j] {
    }
    assert Distinct(n) && Ptrs(n) <= Ptrs(s.ino[i]);
    assert Storable(s.ino[i]);
    Attach(s, f, i, n, CutFile(f[i], k), {});
    assert KidSet(CutFile(f[i], k)) == {};
  }

  /** Freeing a data block and putting an inode back commute. */
  lemma EraseThenPut(s: Store, B: set<nat>, d: nat, n: Inode)
    requires d <= INODE_NUM
    ensures Erase(s, {}, B).(ino := Erase(s, {}, B).ino[d := n]) == Erase(s.(ino := s.ino[d := n]), {}, B)
  {
    assert Erase(s, {}, B).ino == s.ino;
    assert Erase(s.(ino := s.ino[d := n]), {}, B).ino == s.ino[d := n];
  }

  /** The state after remove_from_dir of entry k. */
  ghost function Dropped(s: Store, d: nat, k: nat): Store
    requires d <= INODE_NUM && 0 < s.ino[d].size <= NDIRECT
  {
    Erase(s, {}, if k < s.ino[d].size then {s.ino[d].blocks[k]} else {})
      .(ino := s.ino[d := DropSlot(s.ino[d], k)])
  }

  lemma DroppedKeepsInv(s: Store, f: Forest, d: nat, k: nat)
    requires Inv(s, f) && Root(f, d) && d <= INODE_NUM && 0 < f[d].size <= NDIRECT && k <= f[d].size
    ensures s.ino[d].size == f[d].size && Storable(DropSlot(s.ino[d], k))
    ensures Inv(Dropped(s, d, k), f[d := DropEntry(f[d], k)])
    ensures forall r :: Root(f, r) ==> Root(f[d := DropEntry(f[d], k)], r)
  {
    hide Inv, Erase, DropSlot, DropEntry, Reserved, Unlisted, Storable;
    DropKeepsInv(s, f, d, k);
    NodeAt(s, f, d);
    if k < f[d].size {
      var m, g := s.(ino := s.ino[d := DropSlot(s.ino[d], k)]), f[d := DropEntry(f[d], k)];
      assert f[d].ids[k] == s.ino[d].blocks[k];
      FreeKeepsInv(m, g, s.ino[d].blocks[k]);
      EraseThenPut(s, {s.ino[d].blocks[k]}, d, DropSlot(s.ino[d], k));
      SameIno(s, {s.ino[d].blocks[k]});
    } else {
      EraseNothing(s);
    }
  }

  lemma SameIno(s: Store, B: set<nat>)
    ensures Erase(s, {}, B).ino == s.ino
  {
  }
}
