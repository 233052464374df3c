/** The tree of directories: every live inode hangs under the root by exactly one name, "." names
    its own directory and ".." the one above. */
module FsTidy {
  import opened Bytes
  import opened Bitmap
  import opened Layout
  import opened BlockTree
  import opened Growth
  import opened Contents
  import opened Directory
  import opened DirSlots
  import opened FsState
  import opened FsEffects
  import opened FsStaging
  import opened FsOps
  import opened FsDelete
  import opened FsFormat
  import opened FsWrite
  import opened FsRuns

  // Inode x is reached from the root by a path of n names.
  ghost predicate Reached(d: Image, x: int, n: nat)
    decreases n
  {
    if n == 0 then x == ROOT else exists i, k :: Names(d, i, k, x) && Reached(d, i, n - 1)
  }

  ghost predicate InTree(d: Image, x: int) { exists n :: Reached(d, x, n) }

  // Directory j is the one above i.
  ghost predicate Above(d: Image, j: int, i: int) {
    if i == ROOT then j == ROOT else exists k :: Names(d, j, k, i)
  }

  // What entry e of directory i may be: a dot entry names its own directory or the one above, a
  // proper name is not a dot, and only an entry marked so leads to a directory.
  ghost predicate EntryTidy(d: Image, i: int, e: Entry) {
    && (IsDot(e.name) ==> e.ftype == FT_DIR)
    && (Dot(e) ==> if e.name == DOT then e.inode == i else Above(d, e.inode, i))
    && (!Dot(e) && e.ftype != FT_DIR ==> 1 <= e.inode <= INODES_PER_GROUP && !IsDirectory(NodeAt(d, e.inode)))
  }

  ghost predicate DirTidy(d: Image, i: int)
    requires 1 <= i <= INODES_PER_GROUP
  {
    forall k :: 0 <= k < |DirEntries(d, i)| ==> EntryTidy(d, i, DirEntries(d, i)[k])
  }

  ghost predicate Tidy(d: Image) {
    && Healthy(d)
    && (forall x :: InodeUsed(d, x) ==> InTree(d, x))
    && (forall i :: IsDir(d, i) ==> DirTidy(d, i))
  }

  /** In a tidy file system every live inode but the root has exactly one name. */
  lemma OneName(d: Image, x: int)
    requires Tidy(d) && InodeUsed(d, x) && x != ROOT
    ensures exists i, k :: Names(d, i, k, x)
    ensures forall i, j, k, l :: Names(d, i, k, x) && Names(d, j, l, x) ==> i == j && k == l
  {
    hide NodeAt, DirEntries, Names, Sound, Apart, DirTiled, DirOK, DirTidy;
    assert InTree(d, x);
    var n :| Reached(d, x, n);
    assert n > 0;
  }

  lemma FormattedTidy(d: Image)
    requires Formatted(d)
    ensures Tidy(d)
  {
    hide NodeAt, Chain, Entries, Last, Healthy, DirEntries;
    FormattedHealthy(d);
    RootDirectory(d);
    assert Reached(d, ROOT, 0);
    DotsAreDots(ROOT, ROOT);
  }

  // The entry goes to the end, or over a dot entry other than the first.
  predicate TidyPlace(es: seq<Entry>, m: int) {
    m == |es| || (1 <= m == |es| - 1 && Dot(es[m]))
  }

  lemma NamesStay(d: Image, p: int, m: int, e: Entry, n: Inode, d': Image, i: int, k: nat, x: int)
    requires Kempt(d) && Grafted(d, p, m, e, n, d') && TidyPlace(DirEntries(d, p), m) && Names(d, i, k, x)
    ensures Names(d', i, k, x)
  {
    hide NodeAt, DirEntries, Kempt, KeepsBlocks, FreshTree, Lists, NewDirectory, Kept, IsDot;
    GraftedOthers(d, p, m, e, n, d', i);
    GraftedEntries(d, p, m, e, n, d', i);
  }

  lemma {:induction false} ReachedStays(d: Image, p: int, m: int, e: Entry, n: Inode, d': Image, x: int, j: nat)
    requires Kempt(d) && Grafted(d, p, m, e, n, d') && TidyPlace(DirEntries(d, p), m) && Reached(d, x, j)
    ensures Reached(d', x, j)
    decreases j
  {
    hide Kempt, Grafted, Names, DirEntries, TidyPlace;
    if j > 0 {
      var i, k :| Names(d, i, k, x) && Reached(d, i, j - 1);
      ReachedStays(d, p, m, e, n, d', i, j - 1);
      NamesStay(d, p, m, e, n, d', i, k, x);
    }
  }

  lemma AboveStays(d: Image, p: int, m: int, e: Entry, n: Inode, d': Image, j: int, i: int)
    requires Kempt(d) && Grafted(d, p, m, e, n, d') && TidyPlace(DirEntries(d, p), m) && Above(d, j, i)
    ensures Above(d', j, i)
  {
    hide Kempt, Grafted, Names, DirEntries, TidyPlace;
    if i != ROOT {
      var k :| Names(d, j, k, i);
      NamesStay(d, p, m, e, n, d', j, k, i);
    }
  }

  // The new entry names the new inode.
  lemma NewNamed(d: Image, p: int, m: int, e: Entry, n: Inode, d': Image)
    requires Kempt(d) && Grafted(d, p, m, e, n, d') && 0 <= m && !Dot(e)
    ensures Names(d', p, m, e.inode) && e.inode != p && e.inode != ROOT
  {
    hide NodeAt, DirEntries, KeepsBlocks, FreshTree, Lists, NewDirectory, Kept, IsDot, Sound, Apart, DirTiled,
         NamedOnce;
    ParentStays(d, p, m, e, n, d');
    GraftedEntries(d, p, m, e, n, d', p);
  }

  lemma EntryStaysTidy(d: Image, p: int, m: int, e: Entry, n: Inode, d': Image, i: int, x: Entry)
    requires Kempt(d) && Grafted(d, p, m, e, n, d') && TidyPlace(DirEntries(d, p), m)
    requires EntryTidy(d, i, x) && EntryLive(d, i, x) && x.inode != 0
    ensures EntryTidy(d', i, x)
  {
    hide NodeAt, DirEntries, KeepsBlocks, FreshTree, Lists, NewDirectory, Kept, IsDot, Kempt, TidyPlace, Above;
    if Dot(x) && x.name != DOT {
      AboveStays(d, p, m, e, n, d', x.inode, i);
    }
  }

  lemma GraftedDirTidy(d: Image, p: int, m: int, e: Entry, n: Inode, d': Image, i: int)
    requires Tidy(d) && Grafted(d, p, m, e, n, d') && TidyPlace(DirEntries(d, p), m) && IsDir(d', i)
    requires !IsDot(e.name) && (e.ftype != FT_DIR ==> !IsDirectory(Kept(e.inode, n)))
    ensures DirTidy(d', i)
  {
    hide NodeAt, DirEntries, KeepsBlocks, FreshTree, Lists, NewDirectory, Kept, Sound, Apart, NamedOnce, UniqueNames,
         EntryTidy, InTree;
    GraftedEntries(d, p, m, e, n, d', i);
    NewNamed(d, p, m, e, n, d');
    var es' := DirEntries(d', i);
    forall k | 0 <= k < |es'| ensures EntryTidy(d', i, es'[k]) {
      if i == e.inode {
        NewDotTidy(d', p, m, i, Dots(i, p)[k]);
      } else if i == p && k == m {
        NewEntryTidy(d, e, n, d');
      } else {
        var es := DirEntries(d, i);
        assert es'[k] == es[k] && DirTidy(d, i) && DirTiled(d, i) && DirOK(d, i);
        assert EntryTidy(d, i, es[k]) && EntryLive(d, i, es[k]);
        EntryStaysTidy(d, p, m, e, n, d', i, es[k]);
      }
    }
  }

  lemma NewDotTidy(d': Image, p: u32, m: nat, i: u32, x: Entry)
    requires Names(d', p, m, i) && i != ROOT && x in Dots(i, p)
    ensures EntryTidy(d', i, x)
  {
    hide NodeAt, DirEntries;
    DotsAreDots(i, p);
  }

  lemma NewEntryTidy(d: Image, e: Entry, n: Inode, d': Image)
    requires InodeAdded(d, e.inode, n, d') && !IsDot(e.name) && (e.ftype != FT_DIR ==> !IsDirectory(Kept(e.inode, n)))
    ensures forall i :: EntryTidy(d', i, e)
  {
    hide NodeAt, Kept;
  }

  /** A new inode with a proper name, behind the other entries or over a dot entry, keeps the tree. */
  lemma GraftedTidy(d: Image, p: int, m: int, e: Entry, n: Inode, d': Image)
    requires Tidy(d) && Grafted(d, p, m, e, n, d') && TidyPlace(DirEntries(d, p), m) && EntryFits(d, p, e, n)
    requires !IsDot(e.name) && (e.ftype != FT_DIR ==> !IsDirectory(Kept(e.inode, n)))
    ensures Tidy(d')
  {
    hide NodeAt, DirEntries, KeepsBlocks, FreshTree, Lists, NewDirectory, Kept, Kempt, EntryFits, Names, DirTidy, DirOK,
         IsDot;
    GraftedHealthy(d, p, m, e, n, d') by { SomeEntry(d, p); }
    SomeEntry(d, p);
    NewNamed(d, p, m, e, n, d');
    forall x | InodeUsed(d', x) ensures InTree(d', x) {
      assert InTree(d, if x == e.inode then p else x);
      var j: nat :| Reached(d, if x == e.inode then p else x, j);
      ReachedStays(d, p, m, e, n, d', if x == e.inode then p else x, j);
      if x == e.inode {
        assert Reached(d', x, j + 1);
      }
    }
    forall i | IsDir(d', i) ensures DirTidy(d', i) {
      GraftedDirTidy(d, p, m, e, n, d', i);
    }
  }

  lemma SomeEntry(d: Image, p: int)
    requires Healthy(d) && IsDir(d, p)
    ensures DirEntries(d, p) != []
  {
    hide NodeAt, DirEntries, Kempt;
    assert DirOK(d, p);
  }

  // The inode that goes names nothing.
  ghost predicate Leaf(d: Image, t: int) { forall k, x :: !Names(d, t, k, x) }

  lemma NamesRemain(d: Image, p: int, k: nat, d': Image, i: int, l: nat, x: int) returns (l': nat)
    requires Kempt(d) && Uprooted(d, p, k, d') && Names(d, i, l, x)
    requires x != DirEntries(d, p)[k].inode && i != DirEntries(d, p)[k].inode
    ensures Names(d', i, l', x)
  {
    hide NodeAt, DirEntries, Kempt, KeepsBlocks, Lists, Owns, IsDot, WithoutSlot;
    assert InodeUsed(d', i) && IsDir(d', i);
    UprootedEntries(d, p, k, d', i);
    var es := DirEntries(d, i);
    l' := if i == p && k > 0 && l > k then l - 1 else l;
    if i == p {
      StillThere(es, k, l);
    }
  }

  lemma StillThere(es: seq<Entry>, k: nat, l: nat)
    requires k < |es| && l < |es| && l != k
    ensures var l' := if k > 0 && l > k then l - 1 else l;
      l' < |WithoutSlot(es, k)| && WithoutSlot(es, k)[l'] == es[l]
  {
  }

  lemma {:induction false} ReachedRemains(d: Image, p: int, k: nat, d': Image, x: int, j: nat)
    requires Kempt(d) && Uprooted(d, p, k, d') && Leaf(d, DirEntries(d, p)[k].inode) && Reached(d, x, j)
    requires x != DirEntries(d, p)[k].inode
    ensures Reached(d', x, j)
    decreases j
  {
    hide Kempt, Uprooted, Names, DirEntries;
    if j > 0 {
      var i, l :| Names(d, i, l, x) && Reached(d, i, j - 1);
      ReachedRemains(d, p, k, d', i, j - 1);
      var l' := NamesRemain(d, p, k, d', i, l, x);
      assert Names(d', i, l', x);
    }
  }

  lemma RemovedEntryTidy(d: Image, p: int, k: nat, d': Image, i: int, x: Entry)
    requires Kempt(d) && Uprooted(d, p, k, d') && Leaf(d, DirEntries(d, p)[k].inode) && EntryTidy(d, i, x)
    requires i != DirEntries(d, p)[k].inode
    ensures EntryTidy(d', i, x)
  {
    hide NodeAt, DirEntries, KeepsBlocks, Lists, Owns, IsDot, WithoutSlot, Kempt, Names;
    if Dot(x) && x.name != DOT && i != ROOT {
      var l :| Names(d, x.inode, l, i);
      var l' := NamesRemain(d, p, k, d', x.inode, l, i);
      assert Above(d', x.inode, i);
    }
  }

  /** Removing a name that leads to a leaf keeps the tree. */
  lemma UprootedTidy(d: Image, p: int, k: nat, d': Image)
    requires Tidy(d) && Uprooted(d, p, k, d') && Leaf(d, DirEntries(d, p)[k].inode)
    ensures Tidy(d')
  {
    hide NodeAt, DirEntries, KeepsBlocks, Lists, Owns, IsDot, WithoutSlot, Kempt, Names, DirOK, EntryTidy, Leaf;
    var t := DirEntries(d, p)[k].inode;
    UprootedHealthy(d, p, k, d');
    forall x | InodeUsed(d', x) ensures InTree(d', x) {
      assert InTree(d, x);
      var j :| Reached(d, x, j);
      ReachedRemains(d, p, k, d', x, j);
    }
    forall i | IsDir(d', i) ensures DirTidy(d', i) {
      UprootedLater(d, p, k, d');
      UprootedEntries(d, p, k, d', i);
      assert DirTidy(d, i);
      forall l | 0 <= l < |DirEntries(d', i)| ensures EntryTidy(d', i, DirEntries(d', i)[l]) {
        assert DirEntries(d', i)[l] == DirEntries(d, i)[Earlier(p, k, i, l)];
        RemovedEntryTidy(d, p, k, d', i, DirEntries(d', i)[l]);
      }
    }
  }

  // What delete_file and delete_directory take away are leaves.
  lemma FileLeaf(d: Image, p: int, k: nat)
    requires Tidy(d) && IsDir(d, p) && k < |DirEntries(d, p)| && DirEntries(d, p)[k].ftype != FT_DIR
    ensures Leaf(d, DirEntries(d, p)[k].inode)
  {
    hide NodeAt, DirEntries, Healthy, InTree;
    assert DirTidy(d, p);
    assert EntryTidy(d, p, DirEntries(d, p)[k]);
  }

  lemma EmptyLeaf(d: Image, t: int)
    requires Tidy(d) && 1 <= t <= INODES_PER_GROUP && EmptyDirectory(d, t)
    ensures Leaf(d, t)
  {
    hide NodeAt, DirEntries, InTree, Sound, Apart, NamedOnce, DirOK;
    if IsDir(d, t) {
      assert DirTiled(d, t) && DirTidy(d, t);
      forall k: nat, x ensures !Names(d, t, k, x) {
        if k < |DirEntries(d, t)| {
          assert EntryTidy(d, t, DirEntries(d, t)[k]);
        }
      }
    }
  }

  // A write whose entry takes the place of a proper name leaves that name's inode without one.
  lemma OverwrittenLost(d: Image, p: int, m: int, e: Entry, n: Inode, d': Image)
    requires Tidy(d) && Grafted(d, p, m, e, n, d') && 0 <= m == |DirEntries(d, p)| - 1 && !Dot(DirEntries(d, p)[m])
    ensures !Tidy(d')
  {
    hide NodeAt, DirEntries, KeepsBlocks, FreshTree, Lists, NewDirectory, Kept, Sound, Apart, DirTidy, IsDot,
         UniqueNames;
    var y := DirEntries(d, p)[m].inode;
    assert DirOK(d, p) && DirTiled(d, p) && EntryLive(d, p, DirEntries(d, p)[m]);
    assert Names(d, p, m, y) && InodeUsed(d', y) && y != ROOT;
    forall i, k: nat ensures !Names(d', i, k, y) {
      if Names(d', i, k, y) {
        GraftedNames(d, p, m, e, n, d', i, k, y);
        OnlyPlace(d, p, m, e, n, d');
      }
    }
    Unreached(d', y);
  }

  lemma OnlyPlace(d: Image, p: int, m: int, e: Entry, n: Inode, d': Image)
    requires Kempt(d) && Grafted(d, p, m, e, n, d') && 0 <= m == |DirEntries(d, p)| - 1
    ensures IsDir(d', p) && m < |DirEntries(d', p)| && DirEntries(d', p)[m] == e && !InodeUsed(d, e.inode)
  {
    hide NodeAt, DirEntries, KeepsBlocks, FreshTree, Lists, NewDirectory, Kept, Kempt;
    ParentStays(d, p, m, e, n, d');
    GraftedEntries(d, p, m, e, n, d', p);
  }

  lemma Unreached(d: Image, x: int)
    requires InodeUsed(d, x) && x != ROOT && forall i, k: nat :: !Names(d, i, k, x)
    ensures !Tidy(d)
  {
    hide Healthy, DirTidy, Names;
    if Tidy(d) {
      OneName(d, x);
    }
  }

  /** A write keeps the tree if and only if its entry is a proper name that takes the place of a
      dot entry other than ".", and the new inode does not read as a directory. */
  lemma WrittenTidy(d: Image, p: int, name: Name, isDir: bool, data: seq<byte>, i: int, n: Inode, d': Image)
    requires Tidy(d) && WrittenAs(d, p, name, isDir, data, i, n, d') && WriteOutcome(d, p, name, |data|) == 0
    ensures var es := DirEntries(d, p);
      Tidy(d') <==> Fits(d, p, name) && |es| >= 2 && Dot(es[|es| - 1])
                    && !IsDot(Cut(name)) && !IsDirectory(NodeAt(d', i))
  {
    hide NodeAt, DirEntries, Kempt, WriteOutcome, Grafted, Fits, IsDot, DirTidy, DirOK, InTree, FileContent, FilledTo,
         Chain, Last, Kept, Cost, Tidy;
    TidyParts(d);
    var es := DirEntries(d, p);
    var m, e := Spot(es, Fits(d, p, name)), Entry(i, FT_REG, Cut(name));
    WrittenEntries(d, p, name, isDir, data, i, n, d');
    NewThere(d, p, name, isDir, data, i, n, d');
    WrittenNew(d, p, name, n, i);
    WrittenHealthy(d, p, name, isDir, data, i, n, d');
    if !Fits(d, p, name) {
      WriteLosesFile(d, p, name, isDir, data, i, n, d');
      NotRoot(d, p, m, e, n, d');
      Unreached(d', i);
    } else if |es| < 2 {
      NotHealthy(d');
    } else if !Dot(es[m]) {
      OverwrittenLost(d, p, m, e, n, d');
    } else if IsDot(Cut(name)) || IsDirectory(NodeAt(d', i)) {
      OnlyPlace(d, p, m, e, n, d');
      EntryUntidy(d', p, m, e);
    } else {
      GraftedTidy(d, p, m, e, n, d');
    }
  }

  lemma NewThere(d: Image, p: int, name: Name, isDir: bool, data: seq<byte>, i: int, n: Inode, d': Image)
    requires WrittenAs(d, p, name, isDir, data, i, n, d') && WriteOutcome(d, p, name, |data|) == 0
    ensures IsDir(d, p) && FindUsed(DirEntries(d, p), Cut(name)) == |DirEntries(d, p)|
  {
    hide NodeAt, DirEntries, KeepsBlocks, FreshTree, Lists, FileContent, FilledTo, Chain, Last, Cost, InodeAdded;
  }

  lemma TidyParts(d: Image)
    requires Tidy(d)
    ensures Healthy(d) && Kempt(d)
  {
  }

  lemma NotHealthy(d: Image)
    requires !Healthy(d)
    ensures !Tidy(d)
  {
  }

  lemma NotRoot(d: Image, p: int, m: int, e: Entry, n: Inode, d': Image)
    requires Kempt(d) && Grafted(d, p, m, e, n, d')
    ensures e.inode != ROOT
  {
    hide NodeAt, DirEntries, Sound, Apart, DirTiled, NamedOnce, KeepsBlocks, FreshTree, Lists, NewDirectory, Kept;
  }

  lemma EntryUntidy(d: Image, p: int, m: nat, e: Entry)
    requires IsDir(d, p) && m < |DirEntries(d, p)| && DirEntries(d, p)[m] == e && e.ftype == FT_REG
    requires 1 <= e.inode <= INODES_PER_GROUP && (IsDot(e.name) || IsDirectory(NodeAt(d, e.inode)))
    ensures !Tidy(d)
  {
    hide NodeAt, DirEntries, Healthy, InTree, IsDot;
    assert !EntryTidy(d, p, e);
    assert !DirTidy(d, p);
  }

  // New names are not dots; a write enters a regular file over a dot entry other than "."; a
  // deletion does not take a directory away.
  ghost predicate Neat(d: Image, r: Request)
    requires 1 <= r.p <= INODES_PER_GROUP
  {
    Outcome(d, r) == 0 ==>
      match r
      case MakeDirectory(p, name) => !IsDot(name)
      case Copy(p, src, dst) => !IsDot(dst)
      case Put(p, name, isDir, data) =>
        var es := DirEntries(d, p);
        Fits(d, p, name) && !isDir && !IsDot(Cut(name)) && |es| >= 2 && Dot(es[|es| - 1])
      case Take(p, name, isDir, past) => !IsDirectory(NamedFile(d, p, name))
      case _ => true
  }

  function NamedFile(d: Image, p: int, name: Name): Inode
    requires 1 <= p <= INODES_PER_GROUP
  {
    var x := NamedInode(d, p, name);
    if 1 <= x <= INODES_PER_GROUP then NodeAt(d, x) else BlankInode()
  }

  lemma AddedTidy(d: Image, p: int, e: Entry, n: Inode, d': Image)
    requires Tidy(d) && Added(d, p, e, n, d') && EntryFits(d, p, e, n) && !IsDot(e.name)
    requires e.ftype != FT_DIR ==> !IsDirectory(n)
    ensures Tidy(d')
  {
    hide NodeAt, DirEntries, Tidy, Grafted, EntryFits, IsDot, FreshBlocks;
    assert 1 <= e.inode <= INODES_PER_GROUP by { GraftedInode(d, p, |DirEntries(d, p)|, e, n, d'); }
    KeptKind(e.inode, n);
    GraftedTidy(d, p, |DirEntries(d, p)|, e, n, d');
  }

  lemma GraftedInode(d: Image, p: int, m: int, e: Entry, n: Inode, d': Image)
    requires Grafted(d, p, m, e, n, d')
    ensures 1 <= e.inode <= INODES_PER_GROUP
  {
    hide NodeAt, DirEntries, KeepsBlocks, FreshTree, Lists, NewDirectory, Kept;
  }

  lemma UnchangedTidy(d: Image, d': Image)
    requires Tidy(d) && Unchanged(d, d')
    ensures Tidy(d')
  {
    hide NodeAt, DirEntries, KeepsBlocks, EntryTidy, Names, Sound, Apart, NamedOnce, UniqueNames, EntryKind, Unchanged;
    UnchangedHealthy(d, d');
    UnchangedSame(d, d');
    forall i, k: nat, x | Names(d, i, k, x) ensures Names(d', i, k, x) {
      NamesSame(d, d', i, k, x);
    }
    forall x | InodeUsed(d', x) ensures InTree(d', x) {
      assert InTree(d, x);
      var j :| Reached(d, x, j);
      ReachedSame(d, d', x, j);
    }
    forall i | IsDir(d', i) ensures DirTidy(d', i) {
      assert IsDir(d, i) && DirTidy(d, i) && DirTiled(d, i) && DirOK(d, i);
      forall k | 0 <= k < |DirEntries(d', i)| ensures EntryTidy(d', i, DirEntries(d', i)[k]) {
        EntrySame(d, d', i, DirEntries(d, i)[k]);
      }
    }
  }

  lemma NamesSame(d: Image, d': Image, i: int, k: nat, x: int)
    requires Kempt(d) && Unchanged(d, d') && Names(d, i, k, x)
    ensures Names(d', i, k, x)
  {
    hide NodeAt, DirEntries, Kempt, KeepsBlocks, IsDot;
    UnchangedSame(d, d');
  }

  lemma {:induction false} ReachedSame(d: Image, d': Image, x: int, j: nat)
    requires Reached(d, x, j) && forall i, k: nat, y :: Names(d, i, k, y) ==> Names(d', i, k, y)
    ensures Reached(d', x, j)
    decreases j
  {
    hide Names;
    if j > 0 {
      var i, k :| Names(d, i, k, x) && Reached(d, i, j - 1);
      ReachedSame(d, d', i, j - 1);
    }
  }

  lemma EntrySame(d: Image, d': Image, i: int, x: Entry)
    requires EntryTidy(d, i, x) && EntryLive(d, i, x) && x.inode != 0 && Unchanged(d, d')
    requires forall i, k: nat, y :: Names(d, i, k, y) ==> Names(d', i, k, y)
    ensures EntryTidy(d', i, x)
  {
    hide NodeAt, DirEntries, KeepsBlocks, IsDot, Names;
  }

  /** Every neat call keeps the tree; the system calls are neat as soon as no new name is a dot. */
  lemma StepTidy(d: Image, r: Request, rc: int, d': Image)
    requires Tidy(d) && InodeUsed(d, r.p) && Step(d, r, rc, d') && Neat(d, r)
    ensures Tidy(d')
  {
    hide NodeAt, Tidy, Unchanged, Uprooted, Added, EntryFits, CopiedTo, DirEntries, FirstFreeInode, WrittenAs, Fits,
         CreateOutcome, CopyOutcome, DeleteFileOutcome, DeleteDirectoryOutcome, WriteOutcome, DeleteOutcome,
         Freed, IsDot, Leaf;
    if rc != 0 {
      UnchangedTidy(d, d');
    } else {
      match r
      case MakeDirectory(p, name) =>
        var e: Entry, n: Inode :| CreatedAs(d, p, name, e, n, d');
        AddedTidy(d, p, e, n, d');
      case Copy(p, src, dst) =>
        var e: Entry, n: Inode :| Copied(d, p, src, dst, e, n, d');
        AddedTidy(d, p, e, n, d');
      case RemoveFile(p, name) => RemovedFileTidy(d, p, name, d');
      case RemoveDirectory(p, name) => RemovedDirectoryTidy(d, p, name, d');
      case Put(p, name, isDir, data) =>
        var i: int, n: Inode :| WrittenAs(d, p, name, isDir, data, i, n, d');
        FileIsNone(d, p, name, data, i, n, d');
        WrittenTidy(d, p, name, isDir, data, i, n, d');
      case Take(p, name, isDir, past) => TakenTidy(d, p, name, d');
    }
  }

  lemma FileIsNone(d: Image, p: int, name: Name, data: seq<byte>, i: int, n: Inode, d': Image)
    requires WrittenAs(d, p, name, false, data, i, n, d')
    ensures 1 <= i <= INODES_PER_GROUP && !IsDirectory(NodeAt(d', i))
  {
    hide NodeAt, DirEntries, KeepsBlocks, FreshTree, Lists, FileContent, FilledTo, Chain, Last, Cost;
    KeptFile(i, n);
  }

  lemma RemovedFileTidy(d: Image, p: int, name: Name, d': Image)
    requires Tidy(d) && 1 <= p <= INODES_PER_GROUP && DeleteFileOutcome(d, p, name) == 0
    requires Removed(d, p, Find(DirEntries(d, p), name), d')
    ensures Tidy(d')
  {
    hide NodeAt, DirEntries, Tidy, KeepsBlocks, Lists, Names, InodeRemoved, Leaf;
    FileLeaf(d, p, Find(DirEntries(d, p), name));
    UprootedTidy(d, p, Find(DirEntries(d, p), name), d');
  }

  lemma RemovedDirectoryTidy(d: Image, p: int, name: Name, d': Image)
    requires Tidy(d) && 1 <= p <= INODES_PER_GROUP && DeleteDirectoryOutcome(d, p, name) == 0
    requires Removed(d, p, Find(DirEntries(d, p), name), d')
    ensures Tidy(d')
  {
    hide NodeAt, DirEntries, Tidy, KeepsBlocks, Lists, Names, InodeRemoved, Leaf, EmptyDirectory;
    EmptyLeaf(d, DirEntries(d, p)[Find(DirEntries(d, p), name)].inode);
    UprootedTidy(d, p, Find(DirEntries(d, p), name), d');
  }

  lemma TakenTidy(d: Image, p: int, name: Name, d': Image)
    requires Tidy(d) && 1 <= p <= INODES_PER_GROUP && Taken(d, p, name, d') && !IsDirectory(NamedFile(d, p, name))
    ensures Tidy(d')
  {
    hide NodeAt, DirEntries, Tidy, KeepsBlocks, Lists, IsDot, Freed, IsDirectory;
    var k := FindUsed(DirEntries(d, p), Cut(name));
    assert Leaf(d, DirEntries(d, p)[k].inode);
    UprootedTidy(d, p, k, d');
  }

  ghost predicate NeatCall(d: Image, r: Request, rc: int, d': Image) {
    InodeUsed(d, r.p) && Neat(d, r) && Step(d, r, rc, d')
  }

  /** Over every run of neat calls from a formatted disk the directories form a tree under the
      root: each live inode is reached from the root, and but for the root by exactly one name. */
  lemma {:induction false} RunTidy(images: seq<Image>, rs: seq<Request>, rcs: seq<int>, k: nat)
    requires |images| == |rs| + 1 && |rcs| == |rs| && Formatted(images[0]) && k <= |rs|
    requires forall j :: 0 <= j < |rs| ==> NeatCall(images[j], rs[j], rcs[j], images[j + 1])
    ensures Tidy(images[k])
  {
    hide Step, Neat, Formatted, Tidy;
    if k == 0 {
      FormattedTidy(images[0]);
    } else {
      RunTidy(images, rs, rcs, k - 1);
      assert NeatCall(images[k - 1], rs[k - 1], rcs[k - 1], images[k]);
      StepTidy(images[k - 1], rs[k - 1], rcs[k - 1], images[k]);
    }
  }
}
