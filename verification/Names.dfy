/** The name space: directories as maps from names to inode numbers. */
module Names {
  import opened Layout
  import opened Bytes
  import opened FileTree
  import opened Forests
  import opened Directory

  type Name = seq<Byte>
  type Dirs = map<nat, map<Name, nat>>
  type Lists = map<nat, seq<Entry>>

  function Bind(m: map<Name, nat>, name: Name, i: nat): map<Name, nat> {
    m[name := i]
  }

  ghost predicate NamesDistinct(l: seq<Entry>) {
    forall j, k :: 0 <= j < k < |l| ==> l[j].name != l[k].name
  }

  ghost predicate InumsDistinct(l: seq<Entry>) {
    forall j, k :: 0 <= j < k < |l| ==> l[j].inum != l[k].inum
  }

  function DirMap(l: seq<Entry>): map<Name, nat> {
    if l == [] then map[]
    else Bind(DirMap(l[..|l| - 1]), l[|l| - 1].name, l[|l| - 1].inum)
  }

  /** The map is the listing: same names, and the inode of each. */
  lemma {:induction false} DirMapIs(l: seq<Entry>)
    requires NamesDistinct(l)
    ensures forall k :: 0 <= k < |l| ==> l[k].name in DirMap(l) && DirMap(l)[l[k].name] == l[k].inum
    ensures forall n :: n in DirMap(l) ==> exists k :: 0 <= k < |l| && l[k].name == n
  {
    if l != [] {
      var last := |l| - 1;
      DirMapIs(l[..last]);
      forall n | n in DirMap(l) ensures exists k :: 0 <= k < |l| && l[k].name == n {
        if n != l[last].name {
          var k :| 0 <= k < last && l[..last][k].name == n;
          assert l[k].name == n;
        }
      }
      forall k | 0 <= k < |l| ensures l[k].name in DirMap(l) && DirMap(l)[l[k].name] == l[k].inum {
        if k < last {
          assert l[..last][k] == l[k];
        }
      }
    }
  }

  lemma FreshName(l: seq<Entry>, name: Name)
    requires NamesDistinct(l) && name !in DirMap(l)
    ensures forall k :: 0 <= k < |l| ==> l[k].name != name
  {
    DirMapIs(l);
  }

  /** Listings without repeated names that hold the same entries are the same map. */
  lemma SameEntriesSameMap(l: seq<Entry>, m: map<Name, nat>)
    requires NamesDistinct(l)
    requires forall k :: 0 <= k < |l| ==> l[k].name in m && m[l[k].name] == l[k].inum
    requires forall n :: n in m ==> exists k :: 0 <= k < |l| && l[k].name == n
    ensures DirMap(l) == m
  {
    DirMapIs(l);
  }

  lemma AppendMap(l: seq<Entry>, e: Entry)
    ensures DirMap(l + [e]) == Bind(DirMap(l), e.name, e.inum)
  {
    assert (l + [e])[..|l|] == l;
  }

  /** Moving the last entry into the hole removes exactly the name at k. */
  lemma WithoutMap(l: seq<Entry>, k: nat)
    requires NamesDistinct(l) && k < |l|
    ensures NamesDistinct(Without(l, k))
    ensures DirMap(Without(l, k)) == DirMap(l) - {l[k].name}
  {
    DirMapIs(l);
    WithoutEntries(l, k);
    WithoutNames(l, k, DirMap(l) - {l[k].name});
    SameEntriesSameMap(Without(l, k), DirMap(l) - {l[k].name});
  }

  lemma WithoutEntries(l: seq<Entry>, k: nat)
    requires NamesDistinct(l) && k < |l|
    ensures NamesDistinct(Without(l, k))
    ensures forall j :: 0 <= j < |l| - 1 ==>
              Without(l, k)[j] == (if j == k then l[|l| - 1] else l[j]) && Without(l, k)[j].name != l[k].name
  {
  }

  lemma WithoutNames(l: seq<Entry>, k: nat, m: map<Name, nat>)
    requires k < |l|
    requires forall n :: n in m ==> n != l[k].name && exists j :: 0 <= j < |l| && l[j].name == n
    ensures forall n :: n in m ==> exists j :: 0 <= j < |Without(l, k)| && Without(l, k)[j].name == n
  {
    var u, last := Without(l, k), |l| - 1;
    forall n | n in m ensures exists j :: 0 <= j < |u| && u[j].name == n {
      var j :| 0 <= j < |l| && l[j].name == n;
      var at := if j == last then k else j;
      assert u[at].name == n;
    }
  }

  lemma WithoutInums(l: seq<Entry>, k: nat)
    requires InumsDistinct(l) && k < |l|
    ensures InumsDistinct(Without(l, k))
    ensures forall e :: e in Without(l, k) ==> e in l && e.inum != l[k].inum
  {
    var u, last := Without(l, k), |l| - 1;
    assert forall j :: 0 <= j < last ==> u[j] == if j == k then l[last] else l[j];
  }

  lemma {:induction false} FirstIndexUnique(l: seq<Entry>, k: nat)
    requires InumsDistinct(l) && k < |l|
    ensures FirstIndex(l, l[k].inum) == k
  {
    var j := FirstIndex(l, l[k].inum);
    assert j <= k;
  }

  // ---------------------------------------------------------------- the name space of a disk

  ghost predicate IsDir(f: Forest, d: nat) {
    d in f && f[d].kind == T_DIR
  }

  function InumsOf(l: seq<Entry>): set<nat> {
    set k | 0 <= k < |l| :: l[k].inum
  }

  /** One directory: flat, a root, no name twice, no inode twice, every entry a live root. */
  ghost predicate DirOk(f: Forest, d: nat)
    requires d in f
  {
    && FlatDir(f[d]) && Root(f, d)
    && NamesDistinct(Listing(f[d])) && InumsDistinct(Listing(f[d]))
    && forall i :: i in InumsOf(Listing(f[d])) ==> Root(f, i)
  }

  /** The name space: inode 1 is a directory, every directory is well formed, and no inode is
      listed in two directories. */
  ghost predicate NameSpace(f: Forest) {
    && IsDir(f, 1)
    && (forall d :: IsDir(f, d) ==> DirOk(f, d))
    && (forall d, e :: IsDir(f, d) && IsDir(f, e) && d != e ==>
          InumsOf(Listing(f[d])) !! InumsOf(Listing(f[e])))
  }

  /** The abstract value: what each directory maps names to. */
  ghost function DirsOf(f: Forest): Dirs {
    map d | d in f && f[d].kind == T_DIR :: DirMap(Listing(f[d]))
  }

  /** A change that leaves directories and roots alone leaves the name space alone. */
  lemma SameNames(f: Forest, g: Forest)
    requires NameSpace(f)
    requires forall d :: IsDir(f, d) ==> d in g && g[d] == f[d]
    requires forall d :: IsDir(g, d) ==> IsDir(f, d)
    requires forall r :: Root(f, r) ==> Root(g, r)
    ensures NameSpace(g) && DirsOf(g) == DirsOf(f)
  {
    forall d | IsDir(g, d) ensures DirOk(g, d) {
      assert DirOk(f, d);
    }
  }

  lemma DirOkKept(f: Forest, g: Forest, d: nat)
    requires d in f && d in g && DirOk(f, d) && g[d] == f[d] && Root(g, d)
    requires forall i :: i in InumsOf(Listing(f[d])) ==> Root(g, i)
    ensures DirOk(g, d)
  {
  }

  /** Only directory d changed, to a well formed one that lists nothing another directory lists. */
  lemma OneDirChanged(f: Forest, g: Forest, d: nat)
    requires NameSpace(f) && IsDir(f, d) && IsDir(g, d) && DirOk(g, d)
    requires forall e :: IsDir(g, e) <==> IsDir(f, e)
    requires forall e :: IsDir(g, e) && e != d ==> g[e] == f[e]
    requires forall e :: IsDir(g, e) && e != d ==> DirOk(g, e)
    requires forall e :: IsDir(g, e) && e != d ==> InumsOf(Listing(g[d])) !! InumsOf(Listing(g[e]))
    ensures NameSpace(g)
    ensures DirsOf(g) == DirsOf(f)[d := DirMap(Listing(g[d]))]
  {
    forall e, h | IsDir(g, e) && IsDir(g, h) && e != h ensures InumsOf(Listing(g[e])) !! InumsOf(Listing(g[h])) {
      assert IsDir(f, e) && IsDir(f, h);
    }
    OneDirMap(f, g, d);
  }

  lemma OneDirMap(f: Forest, g: Forest, d: nat)
    requires IsDir(g, d)
    requires forall e :: IsDir(g, e) && e != d ==> IsDir(f, e) && g[e] == f[e]
    requires forall e :: IsDir(f, e) && e != d ==> IsDir(g, e)
    ensures DirsOf(g) == DirsOf(f)[d := DirMap(Listing(g[d]))]
  {
    var before, after := DirsOf(f)[d := DirMap(Listing(g[d]))], DirsOf(g);
    forall e
      ensures e in after <==> e in before
      ensures e in after ==> after[e] == before[e]
    {
      DirAt(f, e);
      DirAt(g, e);
    }
  }

  lemma DirAt(f: Forest, e: nat)
    ensures e in DirsOf(f) <==> IsDir(f, e)
    ensures IsDir(f, e) ==> DirsOf(f)[e] == DirMap(Listing(f[e]))
  {
  }

  /** What readdir lists of each directory. */
  ghost function ListsOf(f: Forest): Lists {
    map d | d in f && f[d].kind == T_DIR :: Listing(f[d])
  }

  lemma ListAt(f: Forest, e: nat)
    ensures e in ListsOf(f) <==> IsDir(f, e)
    ensures IsDir(f, e) ==> ListsOf(f)[e] == Listing(f[e])
  {
  }

  /** Index of the first entry of that name; the length when there is none. */
  function NameIndex(l: seq<Entry>, name: Name): (k: nat)
    ensures k <= |l|
    ensures k < |l| ==> l[k].name == name
    ensures forall j :: 0 <= j < k ==> l[j].name != name
  {
    if l == [] || l[0].name == name then 0 else 1 + NameIndex(l[1..], name)
  }

  /** A listing without that name: the last entry takes its place. */
  function Unbound(l: seq<Entry>, name: Name): seq<Entry> {
    if NameIndex(l, name) < |l| then Without(l, NameIndex(l, name)) else l
  }

  lemma UnboundAt(l: seq<Entry>, k: nat)
    requires NamesDistinct(l) && k < |l|
    ensures Unbound(l, l[k].name) == Without(l, k)
  {
    assert NameIndex(l, l[k].name) == k;
  }

  // ---------------------------------------------------------------- create, mkdir, ln

  /** No directory lists i. */
  ghost predicate Nameless(f: Forest, i: nat) {
    forall d :: IsDir(f, d) ==> i !in InumsOf(Listing(f[d]))
  }

  /** alloc_inode of i: the name space gains an empty directory, or nothing. */
  lemma NewInodeNames(f: Forest, i: nat, kind: nat, g: Forest)
    requires NameSpace(f) && i !in f && g == f[i := NewFile(i, kind)] && Root(g, i)
    requires forall r :: Root(f, r) ==> Root(g, r)
    ensures NameSpace(g) && Nameless(g, i)
    ensures DirsOf(g) == if kind == T_DIR then DirsOf(f)[i := map[]] else DirsOf(f)
  {
    EmptyListing(i, kind);
    forall d | IsDir(g, d) && d != i ensures IsDir(f, d) && g[d] == f[d] && DirOk(g, d) && i !in InumsOf(Listing(g[d])) {
      assert DirOk(f, d);
      DirOkKept(f, g, d);
    }
    NewInodeApart(f, i, kind, g);
    NewInodeMap(f, i, kind, g);
  }

  lemma NewInodeMap(f: Forest, i: nat, kind: nat, g: Forest)
    requires i !in f && g == f[i := NewFile(i, kind)]
    ensures DirsOf(g) == if kind == T_DIR then DirsOf(f)[i := map[]] else DirsOf(f)
  {
    EmptyListing(i, kind);
    if kind == T_DIR {
      OneDirMap(f, g, i);
    } else {
      assert forall e :: e in DirsOf(g) <==> IsDir(g, e);
      assert forall e :: e in DirsOf(f) <==> IsDir(f, e);
    }
  }

  lemma NewInodeApart(f: Forest, i: nat, kind: nat, g: Forest)
    requires forall d, e :: IsDir(f, d) && IsDir(f, e) && d != e ==> InumsOf(Listing(f[d])) !! InumsOf(Listing(f[e]))
    requires i in g && g[i] == NewFile(i, kind)
    requires forall d :: IsDir(g, d) && d != i ==> IsDir(f, d) && g[d] == f[d]
    ensures forall d, e :: IsDir(g, d) && IsDir(g, e) && d != e ==> InumsOf(Listing(g[d])) !! InumsOf(Listing(g[e]))
  {
    EmptyListing(i, kind);
    forall d, e | IsDir(g, d) && IsDir(g, e) && d != e ensures InumsOf(Listing(g[d])) !! InumsOf(Listing(g[e])) {
      assert d != i ==> IsDir(f, d);
      assert e != i ==> IsDir(f, e);
    }
  }

  lemma EmptyListing(i: nat, kind: nat)
    ensures Listing(NewFile(i, kind)) == [] && InumsOf(Listing(NewFile(i, kind))) == {}
  {
    assert ListKids(NewFile(i, kind), 0) == [];
  }

  /** add_to_dir of a fresh name for an unlisted root. */
  lemma AppendNames(f: Forest, d: nat, id: nat, i: nat, name: Name, g: Forest)
    requires NameSpace(f) && IsDir(f, d) && f[d].size < NDIRECT && i < U32_LIMIT && GoodName(name)
    requires Root(f, i) && Nameless(f, i) && name !in DirMap(Listing(f[d]))
    requires g == f[d := AppendEntry(f[d], id, EntryBlock(i, name))]
    requires forall r :: Root(f, r) ==> Root(g, r)
    ensures NameSpace(g) && DirsOf(g) == DirsOf(f)[d := Bind(DirMap(Listing(f[d])), name, i)]
  {
    AppendDirOk(f, d, id, i, name, g);
    forall e | IsDir(g, e) && e != d
      ensures DirOk(g, e) && InumsOf(Listing(g[d])) !! InumsOf(Listing(g[e]))
    {
      assert DirOk(f, e);
      DirOkKept(f, g, e);
      assert InumsOf(Listing(f[d])) !! InumsOf(Listing(f[e]));
    }
    OneDirChanged(f, g, d);
  }

  lemma AppendDirOk(f: Forest, d: nat, id: nat, i: nat, name: Name, g: Forest)
    requires IsDir(f, d) && DirOk(f, d) && f[d].size < NDIRECT && i < U32_LIMIT && GoodName(name)
    requires Root(f, i) && i !in InumsOf(Listing(f[d])) && name !in DirMap(Listing(f[d]))
    requires g == f[d := AppendEntry(f[d], id, EntryBlock(i, name))]
    requires forall r :: Root(f, r) ==> Root(g, r)
    ensures IsDir(g, d) && DirOk(g, d)
    ensures InumsOf(Listing(g[d])) == InumsOf(Listing(f[d])) + {i}
    ensures DirMap(Listing(g[d])) == Bind(DirMap(Listing(f[d])), name, i)
  {
    AppendListing(f[d], id, i, name);
    AppendedOk(g, d, Listing(f[d]), Entry(i, name));
  }

  lemma AppendedOk(g: Forest, d: nat, l: seq<Entry>, e: Entry)
    requires d in g && FlatDir(g[d]) && Root(g, d) && Listing(g[d]) == l + [e]
    requires InumsDistinct(l) && NamesDistinct(l) && e.inum !in InumsOf(l) && e.name !in DirMap(l)
    requires Root(g, e.inum) && forall i :: i in InumsOf(l) ==> Root(g, i)
    ensures DirOk(g, d)
    ensures InumsOf(Listing(g[d])) == InumsOf(l) + {e.inum}
    ensures DirMap(Listing(g[d])) == Bind(DirMap(l), e.name, e.inum)
  {
    hide NamesDistinct, InumsDistinct, DirMap, InumsOf, FlatDir, Listing, Unlisted;
    AppendMap(l, e);
    FreshName(l, e.name);
    AppendInums(l, e);
  }

  lemma AppendInums(l: seq<Entry>, e: Entry)
    requires InumsDistinct(l) && NamesDistinct(l) && e.inum !in InumsOf(l)
    requires forall k :: 0 <= k < |l| ==> l[k].name != e.name
    ensures InumsDistinct(l + [e]) && NamesDistinct(l + [e])
    ensures InumsOf(l + [e]) == InumsOf(l) + {e.inum}
  {
    forall k | 0 <= k < |l| ensures l[k].inum != e.inum {
      assert l[k].inum in InumsOf(l);
    }
    var u := l + [e];
    assert u[|l|] == e;
    forall i | i in InumsOf(l) ensures i in InumsOf(u) {
      var k :| 0 <= k < |l| && l[k].inum == i;
      assert u[k].inum == i;
    }
  }

  // ---------------------------------------------------------------- unlink

  /** After the file i is removed and its entry k taken out, exactly that name is gone. */
  lemma UnlinkNames(f: Forest, d: nat, k: nat, i: nat, g: Forest)
    requires NameSpace(f) && KidsDisjoint(f) && IsDir(f, d) && FlatDir(f[d])
    requires k < |Listing(f[d])| == f[d].size && i == Listing(f[d])[k].inum && !IsDir(f, i) && Root(f, i)
    requires g == (f - Inums(f[i]))[d := DropEntry(f[d], k)]
    requires forall r :: Root(f, r) && r != i ==> Root(g, r)
    ensures NameSpace(g)
    ensures DirsOf(g) == DirsOf(f)[d := DirMap(Listing(f[d])) - {Listing(f[d])[k].name}]
  {
    hide NameSpace, KidsDisjoint, Inums, Root, Listing, Without, DirsOf, DirMap, FlatDir;
    DropListing(f[d], k);
    DirsOutside(f, i);
    UnlinkDirs(f, g, d, k);
  }

  lemma DirsOutside(f: Forest, i: nat)
    requires NameSpace(f) && KidsDisjoint(f) && !IsDir(f, i) && Root(f, i)
    ensures forall e :: IsDir(f, e) ==> e !in Inums(f[i])
  {
    forall e | IsDir(f, e) ensures e !in Inums(f[i]) {
      assert DirOk(f, e);
      RootOutside(f, e, i);
    }
  }

  lemma UnlinkDirs(f: Forest, g: Forest, d: nat, k: nat)
    requires NameSpace(f) && IsDir(f, d) && k < |Listing(f[d])|
    requires IsDir(g, d) && FlatDir(g[d]) && Listing(g[d]) == Without(Listing(f[d]), k)
    requires forall e :: IsDir(f, e) <==> IsDir(g, e)
    requires forall e :: IsDir(g, e) && e != d ==> g[e] == f[e]
    requires forall r :: Root(f, r) && r != Listing(f[d])[k].inum ==> Root(g, r)
    requires !IsDir(f, Listing(f[d])[k].inum)
    ensures NameSpace(g) && DirsOf(g) == DirsOf(f)[d := DirMap(Listing(f[d])) - {Listing(f[d])[k].name}]
  {
    var l, u := Listing(f[d]), Listing(g[d]);
    assert DirOk(f, d);
    WithoutMap(l, k);
    WithoutInums(l, k);
    WithoutInumsOf(l, k);
    assert DirOk(g, d);
    forall e | IsDir(g, e) && e != d
      ensures DirOk(g, e) && InumsOf(u) !! InumsOf(Listing(g[e]))
    {
      assert DirOk(f, e);
      assert InumsOf(l) !! InumsOf(Listing(f[e]));
      DirOkKept(f, g, e);
    }
    OneDirChanged(f, g, d);
  }

  lemma WithoutInumsOf(l: seq<Entry>, k: nat)
    requires InumsDistinct(l) && k < |l|
    ensures InumsOf(Without(l, k)) <= InumsOf(l) - {l[k].inum}
    ensures l[k].inum in InumsOf(l)
  {
    var u := Without(l, k);
    WithoutInums(l, k);
    forall x | x in InumsOf(u) ensures x in InumsOf(l) && x != l[k].inum {
      var j :| 0 <= j < |u| && u[j].inum == x;
      assert u[j] in u;
    }
  }
}
