/** Runs of the client: any sequence of creates, unlinks and writes. */
module Runs {
  import opened Layout
  import opened Bytes
  import opened FileTree
  import opened FileFormat
  import opened RoundTrip
  import opened Contents
  import opened Forests
  import opened WriteSteps
  import opened Directory
  import opened Names
  import opened Chfs

  /** States before and after each of the calls. */
  ghost predicate Run(states: seq<Forest>, calls: seq<Call>) {
    && |states| == |calls| + 1
    && Sound(states[0])
    && (forall k :: 0 <= k < |calls| ==> Next(states[k], calls[k], states[k + 1]))
  }

  lemma RunSound(states: seq<Forest>, calls: seq<Call>, n: nat)
    requires Run(states, calls) && n <= |calls|
    ensures Sound(states[n])
  {
    if n > 0 {
      assert Next(states[n - 1], calls[n - 1], states[n]);
    }
  }

  // ---------------------------------------------------------------- names over a run

  /** What a call does to the names, as a function of the call alone. */
  function Renamed(dirs: Dirs, c: Call): Dirs {
    match c
    case Create(parent, name, kind, ino) =>
      (if kind == T_DIR then dirs[ino := map[]] else dirs)
      [parent := Bind(if parent in dirs then dirs[parent] else map[], name, ino)]
    case Stray(kind, ino) => if kind == T_DIR then dirs[ino := map[]] else dirs
    case Unlink(parent, name) => if parent in dirs then dirs[parent := dirs[parent] - {name}] else dirs
    case Write(_, _, _) => dirs
    case Fail(_) => dirs
    case Refused => dirs
  }

  function Replay(dirs: Dirs, calls: seq<Call>): Dirs {
    if calls == [] then dirs
    else Renamed(Replay(dirs, calls[..|calls| - 1]), calls[|calls| - 1])
  }

  lemma CallRenames(f: Forest, c: Call, g: Forest)
    requires Next(f, c, g)
    ensures DirsOf(g) == Renamed(DirsOf(f), c)
  {
    hide NameSpace, KidsDisjoint, Holds, Splice, KeptBut, DirsOf;
    match c
    case Create(parent, name, kind, ino) =>
      DirAt(f, parent);
    case Stray(kind, ino) =>
      NewInodeMap(f, ino, kind, g);
    case Unlink(parent, name) =>
      DirAt(f, parent);
    case Write(_, _, _) =>
    case Fail(_) =>
    case Refused =>
  }

  /** Over any run, the names are what replaying the calls on a map of maps gives. */
  lemma {:induction false} NamesReplay(states: seq<Forest>, calls: seq<Call>, n: nat)
    requires Run(states, calls) && n <= |calls|
    ensures DirsOf(states[n]) == Replay(DirsOf(states[0]), calls[..n])
  {
    hide Next, Sound, DirsOf, Renamed;
    if n > 0 {
      NamesReplay(states, calls, n - 1);
      CallRenames(states[n - 1], calls[n - 1], states[n]);
      assert calls[..n][..n - 1] == calls[..n - 1];
    }
  }

  /** So a name is found after a run exactly when the replay has it, with the inode it has there. */
  lemma FoundByReplay(states: seq<Forest>, calls: seq<Call>, n: nat, d: nat, name: Name)
    requires Run(states, calls) && n <= |calls|
    ensures var dirs := Replay(DirsOf(states[0]), calls[..n]);
            && (Named(states[n], d, name) <==> d in dirs && name in dirs[d])
            && (Named(states[n], d, name) ==> DirsOf(states[n])[d][name] == dirs[d][name])
  {
    NamesReplay(states, calls, n);
    DirAt(states[n], d);
  }

  // ---------------------------------------------------------------- listings over a run

  /** What a call does to the listings, as a function of the call alone. */
  function Relisted(lists: Lists, c: Call): Lists {
    match c
    case Create(parent, name, kind, ino) =>
      (if kind == T_DIR then lists[ino := []] else lists)
      [parent := (if parent in lists then lists[parent] else []) + [Entry(ino, name)]]
    case Stray(kind, ino) => if kind == T_DIR then lists[ino := []] else lists
    case Unlink(parent, name) => if parent in lists then lists[parent := Unbound(lists[parent], name)] else lists
    case Write(_, _, _) => lists
    case Fail(_) => lists
    case Refused => lists
  }

  function ReplayLists(lists: Lists, calls: seq<Call>): Lists {
    if calls == [] then lists
    else Relisted(ReplayLists(lists, calls[..|calls| - 1]), calls[|calls| - 1])
  }

  /** Directories are the same in both views. */
  lemma ListKeys(f: Forest)
    ensures ListsOf(f).Keys == DirsOf(f).Keys
  {
  }

  lemma CallRelists(f: Forest, c: Call, g: Forest)
    requires Next(f, c, g)
    ensures ListsOf(g) == Relisted(ListsOf(f), c)
  {
    hide NameSpace, KidsDisjoint, Holds, Splice, DirsOf, ListsOf, Listing, Unbound, Inums;
    CallRenames(f, c, g);
    ListKeys(f);
    ListKeys(g);
    forall e | e in ListsOf(g) ensures ListsOf(g)[e] == Relisted(ListsOf(f), c)[e] {
      ListAt(f, e);
      ListAt(g, e);
      if c.Create? || c.Stray? {
        EmptyListing(c.ino, c.kind);
      }
    }
  }

  /** Over any run, readdir lists what replaying the calls on sequences gives: new entries at the end, the
      last entry in the place of a removed one. */
  lemma {:induction false} ListsReplay(states: seq<Forest>, calls: seq<Call>, n: nat)
    requires Run(states, calls) && n <= |calls|
    ensures ListsOf(states[n]) == ReplayLists(ListsOf(states[0]), calls[..n])
  {
    hide Next, Sound, ListsOf, Relisted;
    if n > 0 {
      ListsReplay(states, calls, n - 1);
      CallRelists(states[n - 1], calls[n - 1], states[n]);
      assert calls[..n][..n - 1] == calls[..n - 1];
    }
  }

  // ---------------------------------------------------------------- kinds over a run

  /** No call changes whether an inode is a file, a directory or a link. */
  lemma CallKeepsKind(f: Forest, c: Call, g: Forest, i: nat)
    requires Next(f, c, g) && i in f && i in g
    ensures g[i].kind == f[i].kind
  {
    hide NameSpace, KidsDisjoint, Holds, Splice, DirsOf;
    match c
    case Create(parent, name, kind, ino) =>
      DirAt(g, parent);
    case Stray(kind, ino) =>
    case Unlink(parent, name) =>
      DirAt(f, parent);
      DirAt(g, parent);
    case Write(_, _, _) =>
    case Fail(_) =>
    case Refused =>
  }

  /** Over any run, an inode has the same kind as long as it is in use. */
  lemma {:induction false} KindStays(states: seq<Forest>, calls: seq<Call>, a: nat, b: nat, i: nat)
    requires Run(states, calls) && a <= b <= |calls|
    requires forall k :: a <= k <= b ==> i in states[k]
    ensures states[b][i].kind == states[a][i].kind
  {
    hide Next, Sound;
    if a < b {
      KindStays(states, calls, a, b - 1, i);
      CallKeepsKind(states[b - 1], calls[b - 1], states[b], i);
    }
  }

  /** That kind is the one the call of create, mkdir or ln that made it asked for. */
  lemma KindAsAsked(states: seq<Forest>, calls: seq<Call>, a: nat, b: nat)
    requires Run(states, calls) && a < b <= |calls| && (calls[a].Create? || calls[a].Stray?)
    requires forall k :: a < k <= b ==> calls[a].ino in states[k]
    ensures calls[a].ino !in states[a] && states[b][calls[a].ino].kind == calls[a].kind
  {
    var i := calls[a].ino;
    assert Next(states[a], calls[a], states[a + 1]);
    assert i !in states[a] && states[a + 1][i].kind == calls[a].kind;
    hide Next, Sound;
    KindStays(states, calls, a + 1, b, i);
  }

  // ---------------------------------------------------------------- files over a run

  /** In f, the name belongs to inode i, which is not a directory. */
  ghost predicate FileAt(f: Forest, d: nat, name: Name, i: nat) {
    Named(f, d, name) && DirsOf(f)[d][name] == i && i in f && !IsDir(f, i)
  }

  /** A name in a directory's map is an entry of its listing. */
  lemma EntryOfName(f: Forest, d: nat, name: Name) returns (k: nat)
    requires NameSpace(f) && Named(f, d, name)
    ensures k < |Listing(f[d])| && Listing(f[d])[k] == Entry(DirsOf(f)[d][name], name)
    ensures DirsOf(f)[d][name] in InumsOf(Listing(f[d])) && Root(f, DirsOf(f)[d][name])
  {
    assert DirOk(f, d);
    var l := Listing(f[d]);
    DirMapIs(l);
    k :| 0 <= k < |l| && l[k].name == name;
  }

  /** Two names never belong to one inode. */
  lemma NamesApart(f: Forest, d: nat, name: Name, e: nat, other: Name)
    requires NameSpace(f) && Named(f, d, name) && Named(f, e, other)
    requires d != e || name != other
    ensures DirsOf(f)[d][name] != DirsOf(f)[e][other]
  {
    var j := EntryOfName(f, d, name);
    var k := EntryOfName(f, e, other);
    assert DirOk(f, d);
    if d != e {
      assert InumsOf(Listing(f[d])) !! InumsOf(Listing(f[e]));
    }
  }

  /** The call neither unlinks the name nor writes the file, nor tries to. */
  predicate Spares(c: Call, d: nat, name: Name, i: nat) {
    c != Unlink(d, name) && !(c.Write? && c.ino == i) && !(c.Fail? && c.ino == i)
  }

  lemma CreateKeepsFile(f: Forest, g: Forest, parent: nat, n: Name, kind: nat, ino: nat, d: nat, name: Name, i: nat)
    requires IsDir(f, parent) && !Named(f, parent, n) && Created(f, g, parent, n, kind, ino)
    requires FileAt(f, d, name, i)
    ensures FileAt(g, d, name, i) && g[i] == f[i]
  {
    DirAt(f, d);
    DirAt(f, parent);
    DirAt(g, d);
  }

  lemma StrayKeepsFile(f: Forest, kind: nat, ino: nat, d: nat, name: Name, i: nat)
    requires FileAt(f, d, name, i) && ino !in f
    ensures var g := f[ino := NewFile(ino, kind)];
            FileAt(g, d, name, i) && g[i] == f[i]
  {
    DirAt(f, d);
    DirAt(f[ino := NewFile(ino, kind)], d);
  }

  lemma WriteKeepsFile(f: Forest, g: Forest, ino: nat, d: nat, name: Name, i: nat)
    requires FileAt(f, d, name, i) && KeptBut(f, g, {ino}) && DirsOf(g) == DirsOf(f) && ino != i
    ensures FileAt(g, d, name, i) && g[i] == f[i]
  {
    DirAt(f, d);
    DirAt(g, d);
  }

  /** Such a call leaves both as they are. */
  lemma CallKeepsFile(f: Forest, c: Call, g: Forest, d: nat, name: Name, i: nat)
    requires Sound(f) && Next(f, c, g) && FileAt(f, d, name, i) && Spares(c, d, name, i)
    ensures FileAt(g, d, name, i) && g[i] == f[i]
  {
    hide NameSpace, KidsDisjoint, DirsOf, Holds, Splice, Unlinked, Created, FileAt;
    match c
    case Create(parent, n, kind, ino) =>
      CreateKeepsFile(f, g, parent, n, kind, ino, d, name, i);
    case Stray(kind, ino) =>
      StrayKeepsFile(f, kind, ino, d, name, i);
    case Unlink(parent, n) =>
      UnlinkKeepsFile(f, g, parent, n, d, name, i);
    case Write(ino, off, data) =>
      WriteKeepsFile(f, g, ino, d, name, i);
    case Fail(ino) =>
      WriteKeepsFile(f, g, ino, d, name, i);
    case Refused =>
  }

  lemma UnlinkKeepsFile(f: Forest, g: Forest, parent: nat, n: Name, d: nat, name: Name, i: nat)
    requires Sound(f) && FileAt(f, d, name, i)
    requires Named(f, parent, n) && Unlinked(f, g, parent, n) && (parent != d || n != name)
    ensures FileAt(g, d, name, i) && g[i] == f[i]
  {
    hide Sound, Inums, DirsOf, DirMap, Listing;
    assert IsDir(f, parent) && IsDir(f, d) && i != parent;
    OtherFileOutside(f, parent, n, d, name);
    assert i in g && g[i] == f[i];
    DirAt(f, parent);
    DirAt(f, d);
    DirAt(g, d);
  }

  /** The tree under one name is outside the tree under another. */
  lemma OtherFileOutside(f: Forest, parent: nat, n: Name, d: nat, name: Name)
    requires Sound(f) && Named(f, d, name) && Named(f, parent, n) && (parent != d || n != name)
    ensures DirsOf(f)[parent][n] in f
    ensures DirsOf(f)[d][name] !in Inums(f[DirsOf(f)[parent][n]])
  {
    NamesApart(f, d, name, parent, n);
    var j := EntryOfName(f, d, name);
    var k := EntryOfName(f, parent, n);
    RootOutside(f, DirsOf(f)[d][name], DirsOf(f)[parent][n]);
  }

  lemma CallsKeepFile(d: nat, name: Name, i: nat)
    ensures forall f, c, g :: Sound(f) && Next(f, c, g) && FileAt(f, d, name, i) && Spares(c, d, name, i) ==>
              FileAt(g, d, name, i) && g[i] == f[i]
  {
    forall f, c, g | Sound(f) && Next(f, c, g) && FileAt(f, d, name, i) && Spares(c, d, name, i)
      ensures FileAt(g, d, name, i) && g[i] == f[i]
    {
      CallKeepsFile(f, c, g, d, name, i);
    }
  }

  /** Over any run: what every call of a kind keeps is kept by a stretch of such calls. */
  lemma {:induction false} Carried<S(!new), C(!new)>(states: seq<S>, calls: seq<C>, good: S -> bool, next: (S, C, S) -> bool,
                                                     a: nat, b: nat, spares: C -> bool, p: S -> bool)
    requires a <= b <= |calls| < |states|
    requires forall k :: 0 <= k < |states| ==> good(states[k])
    requires forall k :: 0 <= k < |calls| ==> next(states[k], calls[k], states[k + 1])
    requires forall k :: a <= k < b ==> spares(calls[k])
    requires forall f, c, g :: good(f) && next(f, c, g) && p(f) && spares(c) ==> p(g)
    requires p(states[a])
    ensures p(states[b])
  {
    if a < b {
      Carried(states, calls, good, next, a, b - 1, spares, p);
      assert next(states[b - 1], calls[b - 1], states[b]);
    }
  }

  /** Over any run: a file that is neither unlinked nor written keeps its name and its contents,
      whatever else is created, removed or written meanwhile. */
  lemma FileStays(states: seq<Forest>, calls: seq<Call>, a: nat, b: nat, d: nat, name: Name, i: nat)
    requires Run(states, calls) && a <= b <= |calls| && FileAt(states[a], d, name, i)
    requires forall k :: a <= k < b ==> Spares(calls[k], d, name, i)
    ensures FileAt(states[b], d, name, i) && states[b][i] == states[a][i]
  {
    CallsKeepFile(d, name, i);
    forall k | 0 <= k < |states| ensures Sound(states[k]) {
      RunSound(states, calls, k);
    }
    var t := states[a][i];
    Carried(states, calls, Sound, Next, a, b, (c: Call) => Spares(c, d, name, i),
            (f: Forest) => FileAt(f, d, name, i) && f[i] == t);
  }

  /** The last write counts: until the next write or unlink of the file, it reads as the splice of
      that write, without trailing zeros, exactly when the spliced content survives. */
  lemma LastWriteCounts(states: seq<Forest>, calls: seq<Call>, a: nat, b: nat, d: nat, name: Name, i: nat)
    requires Run(states, calls) && a < b <= |calls| && FileAt(states[a], d, name, i)
    requires calls[a].Write? && calls[a].ino == i
    requires forall k :: a < k < b ==> Spares(calls[k], d, name, i)
    ensures FileAt(states[b], d, name, i)
    ensures var after := Splice(Read(states[a][i]), calls[a].off, calls[a].data);
            Read(states[b][i]) == Strip(after) <==> Survives(after)
  {
    hide *;
    AfterWrite(states, calls, a, d, name, i);
    FileStays(states, calls, a + 1, b, d, name, i);
    WriteThenRead(states[a + 1][i], FileTree.Read(states[a][i]), calls[a].off, calls[a].data);
  }

  /** What it reads as then, and the size it reports, also where that is not what was written. */
  lemma LastWriteReads(states: seq<Forest>, calls: seq<Call>, a: nat, b: nat, d: nat, name: Name, i: nat)
    requires Run(states, calls) && a < b <= |calls| && FileAt(states[a], d, name, i)
    requires calls[a].Write? && calls[a].ino == i
    requires forall k :: a < k < b ==> Spares(calls[k], d, name, i)
    ensures FileAt(states[b], d, name, i)
    ensures var after := Splice(Read(states[a][i]), calls[a].off, calls[a].data);
            && Read(states[b][i]) == Strip(Squeezed(after, Chunks(|after|)))
            && FileSize(states[b][i]) + Missed(after, Chunks(|after|)) == |after|
  {
    hide *;
    AfterWrite(states, calls, a, d, name, i);
    FileStays(states, calls, a + 1, b, d, name, i);
    ReadClosed(states[a + 1][i], Splice(FileTree.Read(states[a][i]), calls[a].off, calls[a].data));
    SizeClosed(states[a + 1][i], Splice(FileTree.Read(states[a][i]), calls[a].off, calls[a].data));
  }

  lemma AfterWrite(states: seq<Forest>, calls: seq<Call>, a: nat, d: nat, name: Name, i: nat)
    requires Run(states, calls) && a < |calls| && FileAt(states[a], d, name, i)
    requires calls[a].Write? && calls[a].ino == i
    ensures |states| == |calls| + 1 && i in states[a] && i in states[a + 1] && FileAt(states[a + 1], d, name, i)
    ensures Holds(states[a + 1][i], Splice(FileTree.Read(states[a][i]), calls[a].off, calls[a].data))
  {
    hide Next, Sound, Named, DirsOf, Splice, Holds;
    WriteSets(states[a], calls[a], states[a + 1], d, name);
  }

  lemma WriteSets(f: Forest, c: Call, g: Forest, d: nat, name: Name)
    requires c.Write? && Next(f, c, g) && FileAt(f, d, name, c.ino)
    ensures FileAt(g, d, name, c.ino) && c.ino in g
    ensures Holds(g[c.ino], Splice(Read(f[c.ino]), c.off, c.data))
  {
    DirAt(f, c.ino);
    DirAt(f, d);
    DirAt(g, c.ino);
    DirAt(g, d);
  }
}
