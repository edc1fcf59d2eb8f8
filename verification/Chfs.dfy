/** The client: names and byte strings on top of the inode layer. */
module Chfs {
  import opened Layout
  import opened Bytes
  import opened Wrappers
  import opened Stores
  import opened FileTree
  import opened FileFormat
  import opened RoundTrip
  import opened Accounting
  import opened Forests
  import opened Growth
  import opened WriteSteps
  import opened Directory
  import opened Losses
  import opened Names
  import opened InodeLayer

  /** Crash stands for an exception that nobody catches or a NULL dereference. */
  datatype Status = OK | EXIST | Crash

  // ---------------------------------------------------------------- byte strings

  /** content with data written at off; a gap before off is filled with zeros. */
  function Splice(content: seq<Byte>, off: nat, data: seq<Byte>): (r: seq<Byte>)
    ensures |r| == if off + |data| > |content| then off + |data| else |content|
  {
    var base := if off + |data| > |content| then content + Zeros(off + |data| - |content|) else content;
    base[..off] + data + base[off + |data|..]
  }

  /** At most size bytes from off on. */
  function Slice(content: seq<Byte>, off: nat, size: nat): seq<Byte> {
    content[Min(off, |content|)..Min(off + size, |content|)]
  }

  /** data is what content has at off, off + 1, ..., off + size - 1, where it has those bytes. */
  predicate IsRange(content: seq<Byte>, off: nat, size: nat, data: seq<Byte>) {
    && |data| == (if |content| <= off then 0 else if |content| < off + size then |content| - off else size)
    && forall j :: 0 <= j < |data| ==> data[j] == content[off + j]
  }

  /** What is read at the place of the last write is what was written, and nothing before or
      after that place changes. */
  lemma SpliceSlices(content: seq<Byte>, off: nat, data: seq<Byte>)
    ensures Slice(Splice(content, off, data), off, |data|) == data
    ensures forall i :: 0 <= i < |content| && (i < off || off + |data| <= i) ==> Splice(content, off, data)[i] == content[i]
    ensures forall i :: |content| <= i < off ==> Splice(content, off, data)[i] == 0
  {
  }

  /** Trailing zeros are all that a stripped file lacks. */
  lemma SliceOfStripped(x: seq<Byte>, off: nat, size: nat)
    requires off + size <= |x|
    ensures Slice(Strip(x), off, size) + Zeros(size - |Slice(Strip(x), off, size)|) == Slice(x, off, size)
  {
  }

  /** After a write the file is the spliced content without its trailing zeros, exactly when the
      spliced content survives the storage format; the range just written then reads back as
      written, up to zeros at the very end of the file. */
  lemma WriteThenRead(t: File, content: seq<Byte>, off: nat, data: seq<Byte>)
    requires Holds(t, Splice(content, off, data))
    ensures var after := Splice(content, off, data);
            var back := Slice(FileTree.Read(t), off, |data|);
            && (FileTree.Read(t) == Strip(after) <==> Survives(after))
            && |FileTree.Read(t)| <= |Strip(after)|
            && (Survives(after) ==> |back| <= |data| && back + Zeros(|data| - |back|) == data)
  {
    var after := Splice(content, off, data);
    ReadHeld(t, after);
    RoundTripExact(after);
    StrippedSplice(content, off, data);
  }

  lemma StrippedSplice(content: seq<Byte>, off: nat, data: seq<Byte>)
    ensures var back := Slice(Strip(Splice(content, off, data)), off, |data|);
            |back| <= |data| && back + Zeros(|data| - |back|) == data
  {
    SpliceSlices(content, off, data);
    SliceOfStripped(Splice(content, off, data), off, |data|);
  }

  /** set_attr(n) keeps whole blocks: it cuts the file at byte n exactly when nothing but zeros
      follows byte n in its block. */
  lemma {:induction false} CutAtBlock(t: File, n: nat)
    requires Pieces(n) <= |t.ids| == |t.blocks|
    ensures var kept := Flat(t.blocks, Pieces(n));
            && n <= |kept|
            && FileTree.Read(CutFile(t, Pieces(n))) == Strip(kept)
            && (FileTree.Read(CutFile(t, Pieces(n))) == Strip(kept[..n]) <==> forall j :: n <= j < |kept| ==> kept[j] == 0)
  {
    hide Strip, Flat;
    var k := Pieces(n);
    var kept, u := Flat(t.blocks, k), CutFile(t, k);
    FlatPrefix(t.blocks, u.blocks, k);
    assert ReadKids(u, 0) == [];
    assert kept + [] == kept;
    PiecesBounds(n);
    StripCut(kept, n);
  }

  lemma StripCut(x: seq<Byte>, n: nat)
    requires n <= |x|
    ensures Strip(x) == Strip(x[..n]) <==> forall j :: n <= j < |x| ==> x[j] == 0
  {
    hide Strip;
    assert x == x[..n] + x[n..];
    StripAppend(x[..n], x[n..]);
    AllZero(x[n..]);
    assert forall j :: n <= j < |x| ==> x[n..][j - n] == x[j];
  }

  /** A file of two bytes that is cut to one byte still reads as two. */
  lemma CutKeepsTail(t: File, buf: seq<Byte>)
    requires Holds(t, buf) && buf == [1, 1]
    ensures Pieces(1) <= |t.ids| == |t.blocks| && FileTree.Read(CutFile(t, Pieces(1))) == buf
  {
    hide Flat, Strip, CutFile;
    FlatHeld(t.blocks, buf);
    StripWhole(buf);
    CutAtBlock(t, 1);
  }

  lemma {:induction false} FlatPrefix(a: seq<Block>, b: seq<Block>, k: nat)
    requires k <= |a| && k <= |b| && forall i :: 0 <= i < k ==> a[i] == b[i]
    ensures Flat(a, k) == Flat(b, k)
  {
    if k > 0 {
      FlatPrefix(a, b, k - 1);
    }
  }

  // ---------------------------------------------------------------- the first state

  lemma FirstNames(f: Forest)
    requires f == map[1 := NewFile(1, T_DIR)]
    ensures NameSpace(f) && DirsOf(f) == map[1 := map[]] && Root(f, 1)
  {
    EmptyListing(1, T_DIR);
    assert KidSet(f[1]) == {};
    assert forall d :: IsDir(f, d) <==> d == 1;
  }

  /** Writing nothing to the new root directory leaves it empty. */
  lemma EmptyWrite(s: Store, f: Forest, s': Store, f': Forest)
    requires f == map[1 := NewFile(1, T_DIR)] && Inv(s, f) && Inv(s', f') && Wrote(s, f, s', f', 1, [])
    ensures f' == f
  {
    hide Inv, Grown, Inums;
    assert 1 in f' && Holds(f'[1], []);
    hide Wrote;
    WroteKinds(s, f, s', f', 1, []);
    WroteInodes(s, f, s', f', 1, []);
    NodeAt(s', f', 1);
    assert f'[1] == NewFile(1, T_DIR);
    NoKidInums(f'[1]);
  }

  lemma NoKidInums(t: File)
    requires t.kids == []
    ensures Inums(t) == {t.inum}
  {
    assert KidInums(t, 0) == {};
  }

  // ---------------------------------------------------------------- what the operations do to the name space

  ghost predicate Named(f: Forest, parent: nat, name: Name) {
    IsDir(f, parent) && name in DirsOf(f)[parent]
  }

  /** What a listing says of a name is what the name space says. */
  lemma ListingNames(f: Forest, parent: nat, name: Name)
    requires NameSpace(f)
    ensures var l := Listing(TreeAt(f, parent));
            && (!IsDir(f, parent) ==> l == [])
            && (Named(f, parent, name) <==> exists k :: 0 <= k < |l| && l[k].name == name)
            && (forall k :: 0 <= k < |l| && l[k].name == name ==> DirsOf(f)[parent][name] == l[k].inum)
  {
    if IsDir(f, parent) {
      assert DirOk(f, parent);
      DirMapIs(Listing(f[parent]));
    }
  }

  /** The entry stands at the end of the listing of the directory. */
  ghost predicate Extended(f: Forest, g: Forest, parent: nat, e: Entry) {
    parent in f && parent in g && Listing(g[parent]) == Listing(f[parent]) + [e]
  }

  /** The outcome of a successful create, mkdir or ln on the name space and on all other files. */
  ghost predicate Created(f: Forest, g: Forest, parent: nat, name: Name, kind: nat, ino: nat)
    requires IsDir(f, parent)
  {
    && ino !in f && ino in g && g[ino] == NewFile(ino, kind) && g[ino].kind == kind && Root(g, ino)
    && KeptBut(f, g, {parent})
    && Extended(f, g, parent, Entry(ino, name))
    && DirsOf(g) == (if kind == T_DIR then DirsOf(f)[ino := map[]] else DirsOf(f))
                    [parent := Bind(DirsOf(f)[parent], name, ino)]
  }

  /** There is one more inode, an empty one of that kind, and nothing else has changed. */
  ghost predicate NewOnly(f: Forest, g: Forest, kind: nat, ino: nat) {
    ino !in f && g == f[ino := NewFile(ino, kind)] && g[ino].kind == kind
  }

  /** A create that found no inode changed nothing; one that found an inode and then no block for
      the entry leaves the new inode behind without a name. */
  ghost predicate Stranded(f: Forest, g: Forest, kind: nat, ino: nat) {
    if |f| >= INODE_NUM then g == f else NewOnly(f, g, kind, ino)
  }

  /** A create stops when no inode is left, or no block for the entry of a directory. */
  ghost predicate NoRoom(s: Store, f: Forest, parent: nat) {
    |f| >= INODE_NUM || (IsDir(f, parent) && s.free == {})
  }

  /** The entry is there: one more name in the parent, and nothing else. */
  ghost predicate HasEntry(f: Forest, g: Forest, parent: nat, name: Name, ino: nat)
    requires IsDir(f, parent)
  {
    && KeptBut(f, g, {parent}) && Root(g, ino)
    && Extended(f, g, parent, Entry(ino, name))
    && DirsOf(g) == DirsOf(f)[parent := Bind(DirMap(Listing(f[parent])), name, ino)]
  }

  lemma LinkSteps(s: Store, f: Forest, s': Store, g: Forest, parent: nat, ino: nat, name: Name, id: nat)
    requires Inv(s, f) && NameSpace(f) && Tidy(s) && IsDir(f, parent) && parent <= INODE_NUM
    requires f[parent].size < NDIRECT && GoodName(name) && name !in DirMap(Listing(f[parent]))
    requires Root(f, ino) && Nameless(f, ino) && ino <= INODE_NUM
    requires id in s.free && Appended(s, s', parent, id) && g == f[parent := AppendEntry(f[parent], id, EntryBlock(ino, name))]
    requires forall r :: Root(f, r) ==> Root(g, r)
    ensures NameSpace(g) && Tidy(s') && Lost(s') == Lost(s) && HasEntry(f, g, parent, name, ino)
  {
    AppendNames(f, parent, id, ino, name, g);
    LinkExtends(f, g, parent, ino, name, id);
    TidyAppended(s, f, s', parent, id);
    AppendLosesNothing(s, f, s', parent, id);
  }

  lemma LinkExtends(f: Forest, g: Forest, parent: nat, ino: nat, name: Name, id: nat)
    requires NameSpace(f) && IsDir(f, parent) && f[parent].size < NDIRECT && GoodName(name) && ino <= INODE_NUM
    requires g == f[parent := AppendEntry(f[parent], id, EntryBlock(ino, name))]
    ensures Extended(f, g, parent, Entry(ino, name))
  {
    hide Listing, AppendEntry, NamesDistinct, InumsDistinct, InumsOf, Root, EntryBlock;
    assert DirOk(f, parent);
    AppendListing(f[parent], id, ino, name);
  }

  /** What create, mkdir and ln do when they report success. */
  ghost predicate Added(f: Forest, g: Forest, parent: nat, name: Name, kind: nat, ino: nat) {
    if IsDir(f, parent) then Created(f, g, parent, name, kind, ino)
    else NewOnly(f, g, kind, ino)
  }

  lemma CreateSteps(f: Forest, g: Forest, h: Forest, parent: nat, name: Name, kind: nat, i: nat)
    requires parent in f && i !in f && g == f[i := NewFile(i, kind)]
    requires DirsOf(g) == if kind == T_DIR then DirsOf(f)[i := map[]] else DirsOf(f)
    requires IsDir(f, parent) ==> HasEntry(g, h, parent, name, i)
    requires !IsDir(f, parent) ==> h == g
    ensures Added(f, h, parent, name, kind, i)
  {
    assert g[parent] == f[parent] && i != parent;
  }

  /** The file under the name is gone with all its sub-inodes, the name is gone, and nothing else. */
  ghost predicate Unlinked(f: Forest, g: Forest, parent: nat, name: Name)
    requires Named(f, parent, name)
  {
    var i := DirsOf(f)[parent][name];
    && i in f && g.Keys == f.Keys - Inums(f[i])
    && KeptBut(f, g, {parent} + Inums(f[i]))
    && parent in g && Listing(g[parent]) == Unbound(Listing(f[parent]), name)
    && DirsOf(g) == DirsOf(f)[parent := DirsOf(f)[parent] - {name}]
  }

  /** The entry at k, seen through the name space. */
  lemma EntryFacts(f: Forest, parent: nat, name: Name, k: nat, i: nat)
    requires NameSpace(f) && KidsDisjoint(f) && IsDir(f, parent) && !IsDir(f, i)
    requires k < |Listing(f[parent])| && Listing(f[parent])[k] == Entry(i, name)
    ensures name in DirsOf(f)[parent] && DirsOf(f)[parent][name] == i
    ensures FlatDir(f[parent]) && |Listing(f[parent])| == f[parent].size && Root(f, parent)
    ensures Root(f, i) && parent !in Inums(f[i]) && i != parent
    ensures FirstIndex(Listing(f[parent]), i) == k
  {
    assert DirOk(f, parent);
    DirMapIs(Listing(f[parent]));
    FlatListing(f[parent]);
    assert i in InumsOf(Listing(f[parent]));
    RootOutside(f, parent, i);
    FirstIndexUnique(Listing(f[parent]), k);
  }

  lemma UnlinkSteps(f: Forest, g: Forest, h: Forest, parent: nat, name: Name, k: nat, i: nat)
    requires NameSpace(f) && KidsDisjoint(f) && IsDir(f, parent) && !IsDir(f, i)
    requires k < |Listing(f[parent])| && Listing(f[parent])[k] == Entry(i, name)
    requires i in f && g == f - Inums(f[i]) && parent !in Inums(f[i])
    requires forall r :: Root(f, r) && r != i ==> Root(g, r)
    requires 0 < f[parent].size == |f[parent].ids| == |f[parent].blocks|
    requires h == g[parent := DropEntry(g[parent], k)]
    requires forall r :: Root(g, r) ==> Root(h, r)
    ensures NameSpace(h) && name in DirsOf(f)[parent] && Unlinked(f, h, parent, name)
  {
    EntryFacts(f, parent, name, k, i);
    UnlinkNames(f, parent, k, i, h);
    UnlinkUnbinds(f, parent, k);
  }

  lemma UnlinkUnbinds(f: Forest, parent: nat, k: nat)
    requires NameSpace(f) && IsDir(f, parent) && k < |Listing(f[parent])|
    requires 0 < f[parent].size == |f[parent].ids| == |f[parent].blocks|
    ensures Listing(DropEntry(f[parent], k)) == Unbound(Listing(f[parent]), Listing(f[parent])[k].name)
  {
    hide Listing, DropEntry, NamesDistinct, InumsDistinct, InumsOf, Root, Unbound, Without;
    assert DirOk(f, parent);
    FlatListing(f[parent]);
    DropListing(f[parent], k);
    UnboundAt(Listing(f[parent]), k);
  }

  lemma UnlinkLoses(s: Store, f: Forest, i: nat)
    requires Inv(s, f) && Root(f, i) && Tidy(s)
    ensures Tidy(Removed(s, f[i])) && Lost(Removed(s, f[i])) == Lost(s) + Tables(f[i])
  {
    ClosedTree(f, i);
    assert forall x :: x in Inums(f[i]) ==> x in Live(s);
    RemovalLosesTables(s, f, i);
    TidyErased(s, Inums(f[i]), ReleasedBy(s, Inums(f[i])));
  }

  lemma NewKeepsDirs(f: Forest, i: nat, kind: nat, d: nat)
    requires i !in f && d in f
    ensures var g := f[i := NewFile(i, kind)];
            && g[d] == f[d] && (IsDir(g, d) <==> IsDir(f, d))
            && (IsDir(f, d) ==> DirsOf(f)[d] == DirMap(Listing(g[d])))
  {
  }

  lemma KeptTwice(f: Forest, g: Forest, h: Forest, i: nat)
    requires KeptBut(f, g, {i}) && (KeptBut(g, h, {i}) || KeptBut(g, h, {}))
    ensures KeptBut(f, h, {i})
  {
  }

  /** A file whose reported size is 0 has no blocks to begin with. */
  lemma ClearedAlready(s: Store, f: Forest, i: nat)
    requires Inv(s, f) && i in f && i <= INODE_NUM && FileSize(f[i]) == 0
    ensures Resized(s, i, 0) == s && f[i := CutFile(f[i], 0)] == f
  {
    TreeFormed(s, f, i);
    assert i in Live(s) && NodeOf(s, s.ino[i], f[i]);
    assert s.ino[i].(size := 0) == s.ino[i];
    assert s.ino[i := s.ino[i]] == s.ino;
    assert CutFile(f[i], 0) == f[i];
  }

  lemma CutReads(t: File)
    ensures FileTree.Read(CutFile(t, 0)) == []
  {
    assert ReadKids(CutFile(t, 0), 0) == [];
  }

  lemma ClearedNames(f: Forest, i: nat, g: Forest)
    requires NameSpace(f) && Root(f, i) && !IsDir(f, i)
    requires g == f[i := CutFile(f[i], 0)]
    requires forall r :: Root(f, r) ==> Root(g, r)
    ensures NameSpace(g) && DirsOf(g) == DirsOf(f)
    ensures |g| == |f| && KeptBut(f, g, {i}) && Root(g, i) && !IsDir(g, i)
  {
    assert g.Keys == f.Keys;
    assert forall d :: IsDir(g, d) <==> IsDir(f, d);
    SameNames(f, g);
  }

  lemma WroteNames(s: Store, f: Forest, s': Store, f': Forest, i: nat, buf: seq<Byte>)
    requires Inv(s, f) && Inv(s', f') && Wrote(s, f, s', f', i, buf)
    requires NameSpace(f) && Root(f, i) && !IsDir(f, i)
    ensures NameSpace(f') && DirsOf(f') == DirsOf(f)
    ensures i in f' && f'[i].kind == f[i].kind
  {
    hide Inv, Wrote, NameSpace, Root, DirsOf;
    WroteInodes(s, f, s', f', i, buf);
    WroteFrame(s, f, s', f', i, buf);
    WroteKinds(s, f, s', f', i, buf);
    forall r | Root(f, r) ensures Root(f', r) {
      WroteRoots(s, f, s', f', i, buf, r);
    }
    SameNames(f, f');
  }

  /** A write that runs out of space makes nothing but plain files, so no name changes. */
  lemma ExhaustedNames(s: Store, f: Forest, s': Store, f': Forest)
    requires Inv(s', f') && Exhausted(s, f, s', f') && NameSpace(f)
    ensures NameSpace(f') && DirsOf(f') == DirsOf(f)
    ensures forall r :: Root(f, r) ==> Root(f', r)
  {
    ExhaustedFiles(s, f, s', f');
    SameNames(f, f');
  }

  /** What a call of write loses: the blocks it overwrites and the old table, with all its entries
      left behind as roots; or, when it runs out of space, the old table and whatever it took that no
      sub-inode it made points at. */
  ghost predicate WriteLoses(s: Store, f: Forest, s': Store, f': Forest, i: nat, ok: bool, k: nat)
    requires i <= INODE_NUM && i in f
  {
    if ok then Lost(s') == Lost(s) + Overwritten(s.ino[i], k) && Roots(f') == Roots(f) + KidSet(f[i])
    else && (s'.free == {} || |f'| >= INODE_NUM)
         && Lost(s') == Lost(s) + Overwritten(s.ino[i], 0) + (s.free - s'.free - PointersOf(s', f'.Keys - f.Keys))
  }

  lemma PutLoses(s: Store, f: Forest, s': Store, f': Forest, i: nat, ok: bool, buf: seq<Byte>)
    requires Inv(s, f) && Inv(s', f') && i in f && i <= INODE_NUM && s.ino[i].size <= NDIRECT
    requires if ok then Wrote(s, f, s', f', i, buf) else Exhausted(s, f, s', f')
    ensures WriteLoses(s, f, s', f', i, ok, Pieces(|buf|))
  {
    hide Inv, Wrote, Grown, Lost, Overwritten, PointersOf, Roots, KidSet;
    if ok {
      OverwriteLoses(s, f, s', f', i, buf);
      OverwriteUnlists(s, f, s', f', i, buf);
    } else {
      GrowthLoses(s, f, s', f', f'.Keys - f.Keys, s.free - s'.free);
      OverwrittenNone(s.ino[i], 0);
    }
  }

  /** A file cut to nothing and then written loses what the write alone would lose. */
  lemma RewriteLoses(s: Store, f: Forest, s1: Store, f1: Forest, s2: Store, f2: Forest, i: nat, ok: bool, buf: seq<Byte>)
    requires i <= INODE_NUM && i in f && f1 == f[i := CutFile(f[i], 0)] && s1 == Resized(s, i, 0)
    requires Lost(s1) == Lost(s) + Overwritten(s.ino[i], 0) && Roots(f1) == Roots(f) + KidSet(f[i])
    requires Inv(s1, f1) && Inv(s2, f2)
    requires if ok then Wrote(s1, f1, s2, f2, i, buf) else Exhausted(s1, f1, s2, f2)
    ensures WriteLoses(s, f, s2, f2, i, ok, Pieces(|buf|))
  {
    hide Inv, Wrote, Exhausted, Lost, Overwritten, Roots, WriteLoses;
    PutLoses(s1, f1, s2, f2, i, ok, buf);
    RewriteAddsUp(s, f, s1, f1, s2, f2, i, ok, Pieces(|buf|));
  }

  lemma RewriteAddsUp(s: Store, f: Forest, s1: Store, f1: Forest, s2: Store, f2: Forest, i: nat, ok: bool, k: nat)
    requires i <= INODE_NUM && i in f && f1 == f[i := CutFile(f[i], 0)] && s1 == Resized(s, i, 0)
    requires Lost(s1) == Lost(s) + Overwritten(s.ino[i], 0) && Roots(f1) == Roots(f) + KidSet(f[i])
    requires WriteLoses(s1, f1, s2, f2, i, ok, k)
    ensures WriteLoses(s, f, s2, f2, i, ok, k)
  {
    hide Lost, Overwritten, Roots, KidSet, PointersOf;
    var n := s.ino[i];
    assert s1.ino[i] == n.(size := 0) && s1.free == s.free;
    assert f1.Keys == f.Keys;
    NoKidSet(f[i]);
    LossesAddUp(n, k);
    LossesAddUp(n, 0);
  }

  lemma NoKidSet(t: File)
    ensures KidSet(CutFile(t, 0)) == {}
  {
  }

  lemma Rewritten(f: Forest, s1: Store, f1: Forest, s2: Store, f2: Forest, i: nat, ok: bool, off: nat, data: seq<Byte>)
    requires i in f && !IsDir(f, i) && f1 == f[i := CutFile(f[i], 0)] && DirsOf(f1) == DirsOf(f)
    requires Sound(f2) && DirsOf(f2) == DirsOf(f1) && KeptBut(f1, f2, if ok then {i} else {})
    requires ok ==> Wrote(s1, f1, s2, f2, i, Splice(FileTree.Read(f[i]), off, data))
    requires i in f2 && f2[i].kind == f1[i].kind
    ensures Next(f, if ok then Call.Write(i, off, data) else Call.Fail(i), f2)
  {
    CutReads(f[i]);
    KeptTwice(f, f1, f2, i);
  }

  lemma AllocRoots(f: Forest, i: nat, kind: nat)
    requires i !in f
    ensures forall r :: Root(f, r) ==> Root(f[i := NewFile(i, kind)], r)
  {
    assert KidSet(NewFile(i, kind)) == {};
  }

  // ---------------------------------------------------------------- one call

  /** A call, with the inode that create, mkdir or ln returned. Refused stands for calls that change
      nothing, Stray for a create without an entry, because the blocks ran out or the parent is no
      directory, and Fail for a write that ran out of space. */
  datatype Call =
    | Create(parent: nat, name: Name, kind: nat, ino: nat)
    | Stray(kind: nat, ino: nat)
    | Unlink(parent: nat, name: Name)
    | Write(ino: nat, off: nat, data: seq<Byte>)
    | Fail(ino: nat)
    | Refused

  /** What Valid() of the client says of the forest alone. */
  ghost predicate Sound(f: Forest) {
    NameSpace(f) && KidsDisjoint(f)
  }

  /** What the client's methods guarantee of one call. */
  ghost predicate Next(f: Forest, c: Call, g: Forest) {
    Sound(g) && Effect(f, c, g)
  }

  ghost predicate Effect(f: Forest, c: Call, g: Forest) {
    match c
    case Create(parent, name, kind, ino) =>
      IsDir(f, parent) && !Named(f, parent, name) && Created(f, g, parent, name, kind, ino)
    case Stray(kind, ino) => NewOnly(f, g, kind, ino)
    case Unlink(parent, name) => Named(f, parent, name) && Unlinked(f, g, parent, name)
    case Write(ino, off, data) =>
      && ino in f && !IsDir(f, ino) && KeptBut(f, g, {ino}) && DirsOf(g) == DirsOf(f)
      && ino in g && g[ino].kind == f[ino].kind && Holds(g[ino], Splice(Read(f[ino]), off, data))
    case Fail(ino) =>
      && ino in f && !IsDir(f, ino) && KeptBut(f, g, {ino}) && DirsOf(g) == DirsOf(f)
      && ino in g && g[ino].kind == f[ino].kind && Read(g[ino]) == []
    case Refused => g == f
  }

  class ChfsClient {
    const im: InodeManager

    ghost predicate Valid()
      reads im, im.bm.d.blocks
    {
      im.Valid() && NameSpace(im.forest) && Tidy(im.disk)
    }

    /** A new file system on a disk of n blocks: an empty root directory, inode 1. */
    constructor (n: nat)
      requires Fits(n)
      ensures Valid() && fresh(im) && fresh(im.bm.d.blocks)
      ensures DirsOf(im.forest) == map[1 := map[]]
      ensures Lost(im.disk) == {}
    {
      im := new InodeManager(n);
      new;
      FirstNames(im.forest);
      NothingLostYet(im.disk);
      InitRoot(im);
    }

    /** The client's first call: an empty put to the root directory. */
    static method InitRoot(im: InodeManager)
      requires im.Valid() && im.forest == map[1 := NewFile(1, T_DIR)] && Root(im.forest, 1)
      requires im.disk.ino[1] == NewInode(T_DIR) && Tidy(im.disk)
      modifies im, im.bm.d.blocks
      ensures im.Valid() && im.forest == old(im.forest)
      ensures Tidy(im.disk) && Lost(im.disk) == Lost(old(im.disk))
    {
      CostParts(0);
      RoomLeft(im.disk, im.forest);
      var ok := im.WriteFile(1, [], 0);
      EmptyWrite(old(im.disk), old(im.forest), im.disk, im.forest);
      TidyWrote(old(im.disk), old(im.forest), im.disk, im.forest, 1, []);
      OverwriteLosesNothing(old(im.disk), old(im.forest), im.disk, im.forest, 1, []);
    }

    /** lookup: the first entry of that name; nothing is found in what is not a directory. */
    method Lookup(parent: nat, name: Name) returns (found: bool, ino: nat)
      requires Valid()
      ensures found <==> Named(im.forest, parent, name)
      ensures found ==> ino == DirsOf(im.forest)[parent][name]
    {
      var l := im.ReadDir(parent);
      var k := FindName(l, name);
      ListingNames(im.forest, parent, name);
      found, ino := k < |l|, 0;
      if found {
        ino := l[k].inum;
      }
    }

    /** The loop of lookup and unlink over a listing. */
    static method FindName(l: seq<Entry>, name: Name) returns (k: nat)
      ensures k <= |l|
      ensures k < |l| ==> l[k].name == name
      ensures forall j :: 0 <= j < k ==> l[j].name != name
    {
      k := 0;
      while k < |l|
        invariant 0 <= k <= |l|
        invariant forall j :: 0 <= j < k ==> l[j].name != name
      {
        if l[k].name == name {
          break;
        }
        k := k + 1;
      }
    }

    /** create, mkdir and ln: a new inode of the given kind under a name that is not taken. Below an
        inode that is no directory the new inode gets no name. */
    method CreateEntry(parent: nat, name: Name, kind: nat) returns (st: Status, ino: nat)
      requires Valid() && parent in im.forest && 1 <= kind <= 3
      requires IsDir(im.forest, parent) && !Named(im.forest, parent, name) ==> im.forest[parent].size < NDIRECT && GoodName(name)
      modifies im, im.bm.d.blocks
      ensures Valid() && Lost(im.disk) == Lost(old(im.disk))
      ensures st == EXIST <==> Named(old(im.forest), parent, name)
      ensures st == EXIST ==> im.forest == old(im.forest) && im.disk == old(im.disk)
      ensures st == Crash <==> !Named(old(im.forest), parent, name) && NoRoom(old(im.disk), old(im.forest), parent)
      ensures st == Crash ==> Stranded(old(im.forest), im.forest, kind, ino)
      ensures st == OK ==> Next(old(im.forest), if IsDir(old(im.forest), parent) then Call.Create(parent, name, kind, ino)
                                                else Call.Stray(kind, ino), im.forest)
    {
      var found;
      found, ino := Lookup(parent, name);
      if found {
        return EXIST, ino;
      }
      st, ino := AddEntry(parent, name, kind);
    }

    /** The part of create after the look-up. */
    method AddEntry(parent: nat, name: Name, kind: nat) returns (st: Status, ino: nat)
      requires Valid() && parent in im.forest && 1 <= kind <= 3 && !Named(im.forest, parent, name)
      requires IsDir(im.forest, parent) ==> im.forest[parent].size < NDIRECT && GoodName(name)
      modifies im, im.bm.d.blocks
      ensures Valid() && Lost(im.disk) == Lost(old(im.disk))
      ensures st != EXIST
      ensures st == Crash <==> NoRoom(old(im.disk), old(im.forest), parent)
      ensures st == Crash ==> Stranded(old(im.forest), im.forest, kind, ino)
      ensures st == OK ==> Added(old(im.forest), im.forest, parent, name, kind, ino)
    {
      var r := NewEntry(kind);
      if r.None? {
        return Crash, 0;
      }
      ino := r.value;
      ghost var g := im.forest;
      NewKeepsDirs(old(im.forest), ino, kind, parent);
      var ok := LinkEntry(parent, ino, name);
      if !ok {
        return Crash, ino;
      }
      CreateSteps(old(im.forest), g, im.forest, parent, name, kind, ino);
      st := OK;
    }

    method NewEntry(kind: nat) returns (r: Option<nat>)
      requires Valid() && 1 <= kind <= 3
      modifies im, im.bm.d.blocks
      ensures Valid() && Lost(im.disk) == Lost(old(im.disk))
      ensures r.None? <==> |old(im.forest)| >= INODE_NUM
      ensures r.None? ==> im.forest == old(im.forest)
      ensures r.Some? ==>
                && r.value !in old(im.forest) && r.value <= INODE_NUM
                && im.forest == old(im.forest)[r.value := NewFile(r.value, kind)]
                && Root(im.forest, r.value) && Nameless(im.forest, r.value) && im.disk.free == old(im.disk).free
                && DirsOf(im.forest) == if kind == T_DIR then old(DirsOf(im.forest))[r.value := map[]] else old(DirsOf(im.forest))
    {
      r := im.AllocInode(kind);
      if r.Some? {
        AllocRoots(old(im.forest), r.value, kind);
        NewInodeNames(old(im.forest), r.value, kind, im.forest);
        TidyNew(old(im.disk), r.value, kind);
        NewLosesNothing(old(im.disk), r.value, kind);
      }
    }

    /** add_to_dir for a new inode; it does nothing where the parent is no directory. */
    method LinkEntry(parent: nat, ino: nat, name: Name) returns (ok: bool)
      requires Valid() && parent in im.forest
      requires IsDir(im.forest, parent) ==>
                 im.forest[parent].size < NDIRECT && GoodName(name) && name !in DirMap(Listing(im.forest[parent]))
      requires Root(im.forest, ino) && Nameless(im.forest, ino) && ino <= INODE_NUM
      modifies im, im.bm.d.blocks
      ensures Valid() && Lost(im.disk) == Lost(old(im.disk))
      ensures ok <==> old(im.disk).free != {} || !IsDir(old(im.forest), parent)
      ensures !ok || !IsDir(old(im.forest), parent) ==> im.forest == old(im.forest)
      ensures ok && IsDir(old(im.forest), parent) ==> HasEntry(old(im.forest), im.forest, parent, name, ino)
    {
      ghost var s, f := im.disk, im.forest;
      if IsDir(f, parent) {
        assert DirOk(f, parent);
      }
      ghost var id;
      ok, id := im.AddToDir(parent, ino, name);
      if ok && IsDir(f, parent) {
        LinkSteps(s, f, im.disk, im.forest, parent, ino, name, id);
      }
    }

    /** unlink of a name that is not a directory's: the file and its entry go. */
    method Unlink(parent: nat, name: Name)
      requires Valid()
      requires Named(im.forest, parent, name) ==> !IsDir(im.forest, DirsOf(im.forest)[parent][name])
      modifies im, im.bm.d.blocks
      ensures Valid()
      ensures Named(old(im.forest), parent, name) ==>
                Lost(im.disk) == Lost(old(im.disk)) + Tables(TreeAt(old(im.forest), DirsOf(old(im.forest))[parent][name]))
      ensures !Named(old(im.forest), parent, name) ==> im.forest == old(im.forest) && im.disk == old(im.disk)
      ensures Named(old(im.forest), parent, name) ==> Next(old(im.forest), Call.Unlink(parent, name), im.forest)
    {
      var l := im.ReadDir(parent);
      var k := FindName(l, name);
      ListingNames(im.forest, parent, name);
      if k < |l| {
        UnlinkEntry(parent, name, k, l[k].inum);
      }
    }

    method UnlinkEntry(parent: nat, name: Name, k: nat, i: nat)
      requires Valid() && IsDir(im.forest, parent)
      requires k < |Listing(im.forest[parent])| && Listing(im.forest[parent])[k] == Entry(i, name)
      requires !IsDir(im.forest, i)
      modifies im, im.bm.d.blocks
      ensures Valid()
      ensures name in old(DirsOf(im.forest))[parent] && Unlinked(old(im.forest), im.forest, parent, name)
      ensures DirsOf(old(im.forest))[parent][name] == i
      ensures Lost(im.disk) == Lost(old(im.disk)) + Tables(TreeAt(old(im.forest), i))
    {
      EntryFacts(im.forest, parent, name, k, i);
      assert i in Live(im.disk);
      im.Remove(i);
      ghost var s1, g := im.disk, im.forest;
      UnlinkLoses(old(im.disk), old(im.forest), i);
      im.RemoveFromDir(parent, i);
      TidyDropped(s1, g, parent, k);
      DropLosesNothing(s1, g, parent, k);
      UnlinkSteps(old(im.forest), g, im.forest, parent, name, k, i);
    }

    /** read: byte j of the result is byte off + j of the file, as far as both size and the file reach;
        from the end of the file on there is nothing. */
    method Read(ino: nat, size: nat, off: nat) returns (data: seq<Byte>)
      requires im.Readable()
      ensures var content := FileTree.Read(TreeAt(im.forest, ino));
              data == Slice(content, off, size) && IsRange(content, off, size, data)
    {
      var str := im.ReadFile(ino);
      data := CutOut(str, off, size);
    }

    /** The three cases of read. */
    static method CutOut(str: seq<Byte>, off: nat, size: nat) returns (data: seq<Byte>)
      ensures data == Slice(str, off, size) && IsRange(str, off, size, data)
    {
      if |str| < off {
        data := [];
      } else if |str| < off + size {
        data := str[off..];
      } else {
        data := str[off..off + size];
      }
    }

    /** The resize and the copying loop of write. */
    static method SpliceInto(str: seq<Byte>, off: nat, data: seq<Byte>) returns (out: seq<Byte>)
      ensures out == Splice(str, off, data)
    {
      var size := |data|;
      out := str;
      if off + size > |out| {
        out := out + Zeros(off + size - |out|);
      }
      ghost var base := out;
      var i := off;
      while i < off + size
        invariant off <= i <= off + size <= |base| == |out|
        invariant out == base[..off] + data[..i - off] + base[i..]
      {
        out := out[i := data[i - off]];
        i := i + 1;
      }
    }

    /** set_attr to 0, as write uses it: the file is empty, its blocks are not given back, and its
        table is lost. */
    method Clear(ino: nat)
      requires Valid() && Root(im.forest, ino) && !IsDir(im.forest, ino)
      modifies im, im.bm.d.blocks
      ensures Valid() && Root(im.forest, ino) && !IsDir(im.forest, ino) && ino <= INODE_NUM
      ensures im.disk == Resized(old(im.disk), ino, 0)
      ensures im.forest == old(im.forest)[ino := CutFile(old(im.forest)[ino], 0)]
      ensures KeptBut(old(im.forest), im.forest, {ino}) && DirsOf(im.forest) == old(DirsOf(im.forest))
      ensures |im.forest| == |old(im.forest)| && FileTree.Read(im.forest[ino]) == []
      ensures Lost(im.disk) == Lost(old(im.disk)) + Overwritten(old(im.disk).ino[ino], 0)
      ensures Roots(im.forest) == Roots(old(im.forest)) + KidSet(old(im.forest)[ino])
    {
      ghost var s, f := im.disk, im.forest;
      assert ino in Live(s) && NodeOf(s, s.ino[ino], f[ino]);
      CutReads(f[ino]);
      CutLoses(s, f, ino, 0);
      if FileSize(f[ino]) == 0 {
        ClearedAlready(s, f, ino);
      }
      im.SetAttr(ino, 0);
      TidyResized(s, ino, 0);
      ClearedNames(f, ino, im.forest);
    }

    /** put: write_file of the whole string. */
    method Put(ino: nat, buf: seq<Byte>) returns (ok: bool)
      requires Valid() && Root(im.forest, ino) && !IsDir(im.forest, ino)
      modifies im, im.bm.d.blocks
      ensures Valid() && Root(im.forest, ino)
      ensures KeptBut(old(im.forest), im.forest, if ok then {ino} else {})
      ensures DirsOf(im.forest) == old(DirsOf(im.forest))
      ensures im.forest[ino].kind == old(im.forest)[ino].kind
      ensures ok <==> |old(im.disk).free| >= BlockCost(|buf|) && INODE_NUM - |old(im.forest)| >= InodeCost(|buf|)
      ensures if ok then Wrote(old(im.disk), old(im.forest), im.disk, im.forest, ino, buf)
              else Exhausted(old(im.disk), old(im.forest), im.disk, im.forest)
    {
      ghost var s, f := im.disk, im.forest;
      assert ino in Live(s) && NodeOf(s, s.ino[ino], f[ino]);
      ok := im.WriteFile(ino, buf, |buf|);
      if ok {
        WroteNames(s, f, im.disk, im.forest, ino, buf);
        TidyWrote(s, f, im.disk, im.forest, ino, buf);
      } else {
        ExhaustedNames(s, f, im.disk, im.forest);
        TidyGrown(s, f, im.disk, im.forest, im.forest.Keys - f.Keys, s.free - im.disk.free);
      }
    }

    /** write: get, set_attr to 0, splice, put. When the put runs out of space the old content is
        lost with it. */
    method Write(ino: nat, off: nat, data: seq<Byte>) returns (ok: bool, written: nat)
      requires Valid() && Root(im.forest, ino) && !IsDir(im.forest, ino)
      modifies im, im.bm.d.blocks
      ensures Valid() && Root(im.forest, ino) && (ok ==> written == |data|)
      ensures var n := |Splice(FileTree.Read(old(im.forest)[ino]), off, data)|;
              && (ok <==> |old(im.disk).free| >= BlockCost(n) && INODE_NUM - |old(im.forest)| >= InodeCost(n))
              && ino <= INODE_NUM && ino in old(im.forest)
              && WriteLoses(old(im.disk), old(im.forest), im.disk, im.forest, ino, ok, Pieces(n))
      ensures Next(old(im.forest), if ok then Call.Write(ino, off, data) else Call.Fail(ino), im.forest)
    {
      var str := im.ReadFile(ino);
      Clear(ino);
      str := SpliceInto(str, off, data);
      ghost var s, g := im.disk, im.forest;
      ok := Put(ino, str);
      RewriteLoses(old(im.disk), old(im.forest), s, g, im.disk, im.forest, ino, ok, str);
      Rewritten(old(im.forest), s, g, im.disk, im.forest, ino, ok, off, data);
      written := |data|;
    }
  }
}
