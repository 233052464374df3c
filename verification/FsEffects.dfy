/** The two ways an operation changes the file system, and what both keep: a new inode with an
    entry for it, and the removal of an entry with its inode. */
module FsEffects {
  import opened Bytes
  import opened Bitmap
  import opened Layout
  import opened BlockTree
  import opened Growth
  import opened Contents
  import opened Directory
  import opened DirSlots
  import opened FsState

  // The blocks of a new inode are those that were allocated; first fit chose none above the
  // number of blocks in use.
  ghost predicate FreshTree(d: Image, n: Inode, d': Image) {
    && Tree(d', n, Used(d')) && Used(d) <= Used(d')
    && (forall s :: Valid(s) && Ptr(d', n, s) != 0 ==> Ptr(d', n, s) !in Used(d) && Ptr(d', n, s) < |Used(d')|)
    && (forall b :: b in Used(d') && b !in Used(d) ==> Owns(d', n, b))
  }

  // Inode i became live with record n; all other inodes are as before.
  ghost predicate InodeAdded(d: Image, i: int, n: Inode, d': Image) {
    && 1 <= i <= INODES_PER_GROUP && !InodeUsed(d, i)
    && (forall k :: InodeUsed(d', k) <==> InodeUsed(d, k) || k == i)
    && NodeAt(d', i) == Kept(i, n)
    && (forall k :: 1 <= k <= INODES_PER_GROUP && k != i ==> NodeAt(d', k) == NodeAt(d, k))
  }

  // The directory in block b lists es.
  ghost predicate Lists(d: Image, b: u32, es: seq<Entry>) {
    Chain(BlockAt(d, b), 0) && Entries(BlockAt(d, b), 0) == es
  }

  function Dots(i: u32, p: u32): seq<Entry> { [Entry(i, FT_DIR, DOT), Entry(p, FT_DIR, DOTDOT)] }

  ghost predicate NewDirectory(d': Image, p: int, i: int, n: Inode)
    requires 1 <= p <= INODES_PER_GROUP && 1 <= i <= INODES_PER_GROUP
  {
    && n.mode == IFDIR && n.size == BLOCK_SIZE && n.blocks == 1 && n.block[0] != 0
    && Lists(d', n.block[0], Dots(i, p))
  }

  // The entry goes behind the others, or takes the place of the last one, or is lost.
  predicate Place(es: seq<Entry>, m: int) { m == |es| || m == |es| - 1 || m == -1 }

  function Entered(es: seq<Entry>, m: int, e: Entry): seq<Entry> {
    if 0 <= m <= |es| then es[..m] + [e] else es
  }

  // Inode e.inode became live with record n, and directory p got entry e at place m.
  ghost predicate Grafted(d: Image, p: int, m: int, e: Entry, n: Inode, d': Image) {
    && IsDir(d, p) && Place(DirEntries(d, p), m)
    && InodeAdded(d, e.inode, n, d') && FreshTree(d, n, d') && n.blocks == BlocksFor(n.size)
    && (IsDirectory(n) ==> NewDirectory(d', p, e.inode, n))
    && KeepsBlocks(d, {DirBlock(d, p)}, d')
    && Lists(d', DirBlock(d, p), Entered(DirEntries(d, p), m, e))
  }

  // What an entry for a new name may be.
  ghost predicate EntryFits(d: Image, p: int, e: Entry, n: Inode)
    requires 1 <= p <= INODES_PER_GROUP
  {
    Find(DirEntries(d, p), e.name) == |DirEntries(d, p)| && (e.ftype == FT_DIR ==> IsDirectory(n))
  }

  // All pointers that were there are still there, and only the parent's bytes may change.
  lemma GraftedOthers(d: Image, p: int, m: int, e: Entry, n: Inode, d': Image, i: int)
    requires Kempt(d) && Grafted(d, p, m, e, n, d') && InodeUsed(d, i)
    ensures InodeUsed(d', i) && i != e.inode && NodeAt(d', i) == NodeAt(d, i)
    ensures forall s :: Valid(s) ==> PtrOf(d', i, s) == PtrOf(d, i, s)
    ensures i != p ==> SameInode(d, i, d')
  {
    hide NodeAt, Kept, DirEntries, Lists, KeepsBlocks, FreshTree, SameInode, Kempt, NewDirectory;
    OtherInode(d, p, d', i);
  }

  // A pointer of the record that is read back is the pointer that was stored, or lost.
  lemma KeptSlot(d: Image, i: int, n: Inode, s: Slot)
    requires 1 <= i <= INODES_PER_GROUP && Valid(s)
    ensures Ptr(d, Kept(i, n), s) ==
            if i <= 29 || (i == 30 && s.Direct? && s.i < 2) then Ptr(d, n, s) else 0
  {
    if i <= 29 {
      KeptWhole(i, n);
    } else {
      var m := Kept(i, n);
      assert m.block[12] == 0 && m.block[13] == 0 && Persists(30, 14) && !Persists(30, 18);
    }
  }

  lemma KeptKind(i: int, n: Inode)
    requires 1 <= i <= INODES_PER_GROUP
    ensures IsDirectory(Kept(i, n)) ==>
      IsDirectory(n) && Kept(i, n).blocks == n.blocks && Kept(i, n).block[0] == n.block[0]
    ensures IsDirectory(n) ==> IsDirectory(Kept(i, n)) || Kept(i, n).blocks == 0
    ensures n.blocks == BlocksFor(n.size) ==> Kept(i, n).blocks == BlocksFor(Kept(i, n).size)
  {
    assert Persists(30, 10);
  }

  lemma GraftedSound(d: Image, p: int, m: int, e: Entry, n: Inode, d': Image)
    requires Grafted(d, p, m, e, n, d')
    ensures Sound(d', e.inode)
    ensures forall s :: Valid(s) && PtrOf(d', e.inode, s) != 0 ==> PtrOf(d', e.inode, s) !in Used(d)
  {
    hide NodeAt, Kept, DirEntries, Lists, KeepsBlocks, NewDirectory, BlocksFor;
    KeptKind(e.inode, n);
    forall s | Valid(s)
      ensures PtrOf(d', e.inode, s) == Ptr(d', NodeAt(d', e.inode), s)
      ensures PtrOf(d', e.inode, s) == Ptr(d', n, s) || PtrOf(d', e.inode, s) == 0
    {
      KeptSlot(d', e.inode, n, s);
    }
  }

  lemma GraftedOldSound(d: Image, p: int, m: int, e: Entry, n: Inode, d': Image, i: int)
    requires Kempt(d) && Grafted(d, p, m, e, n, d') && InodeUsed(d, i)
    ensures Sound(d', i)
  {
    hide NodeAt, Kept, DirEntries, Lists, KeepsBlocks, SameInode, NewDirectory, Apart, DirTiled, NamedOnce;
    GraftedOthers(d, p, m, e, n, d', i);
    assert Sound(d, i);
    SoundFrame(d, i, d');
  }

  lemma GraftedApart(d: Image, p: int, m: int, e: Entry, n: Inode, d': Image, i: int)
    requires Kempt(d) && Grafted(d, p, m, e, n, d') && InodeUsed(d, i)
    ensures Apart(d', e.inode, i) && Apart(d', i, e.inode)
  {
    hide NodeAt, Kept, DirEntries, Lists, KeepsBlocks, FreshTree, SameInode, NewDirectory, DirTiled, NamedOnce;
    GraftedSound(d, p, m, e, n, d');
    GraftedOthers(d, p, m, e, n, d', i);
    assert Sound(d, i);
    forall s, t | Valid(s) && Valid(t) && PtrOf(d', e.inode, s) != 0
      ensures PtrOf(d', e.inode, s) != PtrOf(d', i, t)
    {
      assert PtrOf(d', i, t) == PtrOf(d, i, t);
      assert PtrOf(d, i, t) != 0 ==> PtrOf(d, i, t) in Used(d);
    }
  }

  lemma GraftedPair(d: Image, p: int, m: int, e: Entry, n: Inode, d': Image, i: int, j: int)
    requires Kempt(d) && Grafted(d, p, m, e, n, d') && InodeUsed(d', i) && InodeUsed(d', j) && i != j
    ensures Apart(d', i, j)
  {
    hide NodeAt, Kept, DirEntries, Lists, KeepsBlocks, Apart, FreshTree, SameInode, NewDirectory, DirTiled, NamedOnce;
    if i == e.inode {
      GraftedApart(d, p, m, e, n, d', j);
    } else if j == e.inode {
      GraftedApart(d, p, m, e, n, d', i);
    } else {
      GraftedOthers(d, p, m, e, n, d', i);
      GraftedOthers(d, p, m, e, n, d', j);
      ApartFrame(d, i, j, d');
    }
  }

  // What every directory lists afterwards.
  lemma GraftedEntries(d: Image, p: int, m: int, e: Entry, n: Inode, d': Image, i: int)
    requires Kempt(d) && Grafted(d, p, m, e, n, d') && IsDir(d', i)
    ensures DirBlock(d', i) != 0 && NodeAt(d', i).blocks == 1 && Chain(BlockAt(d', DirBlock(d', i)), 0)
    ensures i != e.inode ==> IsDir(d, i)
    ensures i != e.inode ==> DirEntries(d', i) == if i == p then Entered(DirEntries(d, p), m, e) else DirEntries(d, i)
    ensures i == e.inode ==> IsDirectory(n) && DirEntries(d', i) == Dots(i, p)
  {
    hide NodeAt, Chain, Entries, KeepsBlocks, FreshTree, Kept, Apart, NamedOnce, EntryLive, FileContent;
    if i == e.inode {
      KeptKind(i, n);
      assert DirBlock(d', i) == n.block[0];
    } else {
      GraftedOthers(d, p, m, e, n, d', i);
      assert DirTiled(d, i) && PtrOf(d, i, Direct(0)) == DirBlock(d, i);
      assert DirBlock(d', i) == DirBlock(d, i);
    }
  }

  // Only the new entry names the new inode; nothing else was renamed.
  lemma GraftedNames(d: Image, p: int, m: int, e: Entry, n: Inode, d': Image, i: int, k: nat, x: int)
    requires Kempt(d) && Grafted(d, p, m, e, n, d') && Names(d', i, k, x)
    ensures if x == e.inode then i == p && k == m else Names(d, i, k, x)
  {
    hide NodeAt, KeepsBlocks, FreshTree, Lists, DirEntries, Kept, Apart, NamedOnce, IsDot, NewDirectory;
    GraftedEntries(d, p, m, e, n, d', i);
    if i == e.inode {
      DotsAreDots(i, p);
    } else {
      assert DirTiled(d, i);
      var es := DirEntries(d, i);
      assert k < |es| ==> EntryLive(d, i, es[k]);
    }
  }

  lemma DotsAreDots(i: u32, p: u32)
    ensures forall k :: 0 <= k < |Dots(i, p)| ==> Dot(Dots(i, p)[k])
    ensures UniqueNames(Dots(i, p)) && Dots(i, p)[0].name == DOT
  {
    assert |DOT| != |DOTDOT|;
  }

  lemma GraftedTiled(d: Image, p: int, m: int, e: Entry, n: Inode, d': Image, i: int)
    requires Kempt(d) && Grafted(d, p, m, e, n, d') && IsDir(d', i)
    ensures DirTiled(d', i)
  {
    hide NodeAt, KeepsBlocks, FreshTree, Lists, DirEntries, Kept, Apart, NamedOnce, IsDot, NewDirectory, Chain;
    GraftedEntries(d, p, m, e, n, d', i);
    if i == e.inode {
      DotsAreDots(i, p);
    } else {
      assert DirTiled(d, i) && e.inode != ROOT;
      forall k | 0 <= k < |DirEntries(d', i)| ensures EntryLive(d', i, DirEntries(d', i)[k]) {
        assert k < |DirEntries(d, i)| ==> EntryLive(d, i, DirEntries(d, i)[k]);
      }
    }
  }

  /** A new inode, with its entry anywhere or nowhere, keeps the file system kempt: no aliasing,
      directories tiled, every used entry leads to a live inode that no other entry leads to. */
  lemma GraftedKempt(d: Image, p: int, m: int, e: Entry, n: Inode, d': Image)
    requires Kempt(d) && Grafted(d, p, m, e, n, d')
    ensures Kempt(d')
  {
    hide NodeAt, KeepsBlocks, Lists, DirEntries, Kept, Apart, Sound, DirTiled, Names, SameInode, NewDirectory;
    GraftedOthers(d, p, m, e, n, d', ROOT);
    forall i | InodeUsed(d', i) ensures Sound(d', i) {
      if i == e.inode {
        GraftedSound(d, p, m, e, n, d');
      } else {
        GraftedOldSound(d, p, m, e, n, d', i);
      }
    }
    forall i, j | InodeUsed(d', i) && InodeUsed(d', j) && i != j ensures Apart(d', i, j) {
      GraftedPair(d, p, m, e, n, d', i, j);
    }
    forall i | IsDir(d', i) ensures DirTiled(d', i) {
      GraftedTiled(d, p, m, e, n, d', i);
    }
    forall i, j, k, l, x | Names(d', i, k, x) && Names(d', j, l, x) ensures i == j && k == l {
      GraftedNames(d, p, m, e, n, d', i, k, x);
      GraftedNames(d, p, m, e, n, d', j, l, x);
    }
  }

  lemma EnteredUnique(es: seq<Entry>, m: int, e: Entry)
    requires UniqueNames(es) && Find(es, e.name) == |es| && Place(es, m)
    ensures UniqueNames(Entered(es, m, e))
  {
    hide Find;
    var r := Entered(es, m, e);
    forall i, j | 0 <= i < j < |r| ensures r[i].name != r[j].name {
      assert es[i].name != e.name;
    }
  }

  lemma KindStays(d: Image, i: int, x: Entry, j: int, n: Inode, d': Image)
    requires InodeAdded(d, j, n, d') && EntryKind(d, x) && EntryLive(d, i, x) && x.inode != 0
    ensures EntryKind(d', x)
  {
    hide NodeAt, Kept;
  }

  lemma KindOfNew(e: Entry, n: Inode, d: Image, d': Image)
    requires InodeAdded(d, e.inode, n, d') && (e.ftype == FT_DIR ==> IsDirectory(n))
    ensures EntryKind(d', e) && e.inode != 0
  {
    hide NodeAt;
    KeptKind(e.inode, n);
  }

  lemma GraftedDirOK(d: Image, p: int, m: int, e: Entry, n: Inode, d': Image, i: int)
    requires Healthy(d) && Grafted(d, p, m, e, n, d') && EntryFits(d, p, e, n) && m != 0 && IsDir(d', i)
    ensures DirOK(d', i)
  {
    hide NodeAt, KeepsBlocks, FreshTree, Lists, DirEntries, Kept, Kempt, IsDot, NewDirectory, EntryKind, InodeAdded,
         UniqueNames, DirOK, AllUsed, Entered, Dots;
    GraftedEntries(d, p, m, e, n, d', i);
    if i == e.inode {
      NewDirOK(d', i, p);
    } else if i == p {
      EnteredDirOK(d, p, m, e, n, d');
    } else {
      SameDirOK(d, i, e.inode, n, d');
    }
  }

  lemma NewDirOK(d': Image, i: u32, p: u32)
    requires 1 <= i <= INODES_PER_GROUP && 1 <= p && DirEntries(d', i) == Dots(i, p)
    ensures DirOK(d', i)
  {
    hide NodeAt, DirEntries, EntryKind, UniqueNames;
    DotsAreDots(i, p);
    forall k | 0 <= k < 2 ensures EntryKind(d', Dots(i, p)[k]) {
      DotKind(d', Dots(i, p)[k]);
    }
  }

  // The entries that were there still lead to what they led to.
  lemma KindsStay(d: Image, i: int, j: int, n: Inode, d': Image, k: nat)
    requires Healthy(d) && IsDir(d, i) && InodeAdded(d, j, n, d') && k < |DirEntries(d, i)|
    ensures DirEntries(d, i)[k].inode != 0 && EntryKind(d', DirEntries(d, i)[k])
  {
    hide NodeAt, DirEntries, Apart, NamedOnce, Sound, InodeAdded, EntryKind, EntryLive, UniqueNames;
    assert DirTiled(d, i) && DirOK(d, i);
    KindStays(d, i, DirEntries(d, i)[k], j, n, d');
  }

  lemma SameDirOK(d: Image, i: int, j: int, n: Inode, d': Image)
    requires Healthy(d) && IsDir(d, i) && InodeAdded(d, j, n, d') && DirEntries(d', i) == DirEntries(d, i)
    ensures DirOK(d', i)
  {
    hide NodeAt, DirEntries, Kempt, InodeAdded, EntryKind, UniqueNames;
    assert DirOK(d, i);
    forall k | 0 <= k < |DirEntries(d', i)| ensures EntryKind(d', DirEntries(d', i)[k]) {
      KindsStay(d, i, j, n, d', k);
    }
  }

  lemma EnteredDirOK(d: Image, p: int, m: int, e: Entry, n: Inode, d': Image)
    requires Healthy(d) && IsDir(d, p) && InodeAdded(d, e.inode, n, d') && EntryFits(d, p, e, n)
    requires m != 0 && Place(DirEntries(d, p), m) && DirEntries(d', p) == Entered(DirEntries(d, p), m, e)
    ensures DirOK(d', p)
  {
    hide NodeAt, DirEntries, Kempt, InodeAdded, EntryKind, UniqueNames;
    assert DirOK(d, p);
    var es' := DirEntries(d', p);
    EnteredUnique(DirEntries(d, p), m, e);
    KindOfNew(e, n, d, d');
    forall k | 0 <= k < |es'| ensures es'[k].inode != 0 && EntryKind(d', es'[k]) {
      if k != m {
        KindsStay(d, p, e.inode, n, d', k);
      }
    }
  }

  lemma DotKind(d: Image, e: Entry)
    requires Dot(e)
    ensures EntryKind(d, e)
  {
  }

  /** A new inode with an entry under a new name keeps the file system healthy exactly when the
      entry does not take the place of the only record. */
  lemma GraftedHealthy(d: Image, p: int, m: int, e: Entry, n: Inode, d': Image)
    requires Healthy(d) && Grafted(d, p, m, e, n, d') && EntryFits(d, p, e, n)
    ensures Healthy(d') <==> m != 0
  {
    hide NodeAt, KeepsBlocks, FreshTree, Lists, Kept, Kempt, DirEntries, NewDirectory, InodeAdded, EntryKind,
         UniqueNames;
    GraftedKempt(d, p, m, e, n, d');
    if m != 0 {
      forall i | IsDir(d', i) ensures DirOK(d', i) {
        GraftedDirOK(d, p, m, e, n, d', i);
      }
    } else {
      ParentStays(d, p, m, e, n, d');
      GraftedEntries(d, p, m, e, n, d', p);
      assert DirOK(d, p) && DirEntries(d, p)[0].name != e.name;
      assert DirEntries(d', p)[0] == e;
      assert !DirOK(d', p);
    }
  }

  lemma ParentStays(d: Image, p: int, m: int, e: Entry, n: Inode, d': Image)
    requires Grafted(d, p, m, e, n, d')
    ensures IsDir(d', p) && p != e.inode
  {
    hide NodeAt, Kept;
  }

  // The map that directory i stands for.
  ghost function DirMap(d: Image, i: int): map<seq<byte>, Entry>
    requires 1 <= i <= INODES_PER_GROUP
  {
    Bindings(DirEntries(d, i))
  }

  lemma EnteredBinds(es: seq<Entry>, m: int, e: Entry)
    requires UniqueNames(es) && Find(es, e.name) == |es| && Place(es, m)
    ensures Bindings(Entered(es, m, e)) ==
            if m == |es| then Bindings(es)[e.name := e]
            else if m >= 0 then (Bindings(es) - {es[m].name})[e.name := e] else Bindings(es)
  {
    hide Bindings, Find, UniqueNames;
    if m == |es| {
      AppendBinds(es, e);
      assert es[..m] + [e] == es + [e];
    } else if m >= 0 {
      RemoveUnbinds(es, m);
      FindWithout(es, m, e.name);
      assert Without(es, m) == es[..m];
      FindNew(es, m, e.name);
      AppendBinds(es[..m], e);
    }
  }

  lemma FindNew(es: seq<Entry>, m: nat, name: seq<byte>)
    requires m < |es| && Find(es, name) == |es|
    ensures es[m].name != name && Find(es[..m], name) == m
  {
    FindIs(es[..m], name, m);
  }

  /** As maps from names: a new entry adds one binding to one directory, an overwriting one
      also takes one away, and no other directory changes. */
  lemma GraftedMap(d: Image, p: int, m: int, e: Entry, n: Inode, d': Image)
    requires Healthy(d) && Grafted(d, p, m, e, n, d') && EntryFits(d, p, e, n)
    ensures e.name !in DirMap(d, p)
    ensures var es, was := DirEntries(d, p), DirMap(d, p);
      DirMap(d', p) == if m == |es| then was[e.name := e]
                       else if m >= 0 then (was - {es[m].name})[e.name := e] else was
    ensures forall i :: IsDir(d, i) && i != p ==> IsDir(d', i) && DirMap(d', i) == DirMap(d, i)
  {
    hide NodeAt, KeepsBlocks, FreshTree, Lists, Kept, Apart, NamedOnce, DirEntries, NewDirectory, Bindings, EntryKind;
    assert DirOK(d, p);
    BoundNames(DirEntries(d, p), e.name);
    EnteredBinds(DirEntries(d, p), m, e);
    ParentStays(d, p, m, e, n, d');
    GraftedEntries(d, p, m, e, n, d', p);
    forall i | IsDir(d, i) && i != p ensures IsDir(d', i) && DirEntries(d', i) == DirEntries(d, i) {
      GraftedOthers(d, p, m, e, n, d', i);
      GraftedEntries(d, p, m, e, n, d', i);
    }
  }

  // Entry k of directory p is gone, and with it the inode it named and blocks of its own.
  ghost predicate Uprooted(d: Image, p: int, k: nat, d': Image) {
    && IsDir(d, p) && k < |DirEntries(d, p)| && Names(d, p, k, DirEntries(d, p)[k].inode)
    && InodeRemoved(d, DirEntries(d, p)[k].inode, d')
    && KeepsBlocks(d, {DirBlock(d, p)}, d')
    && Lists(d', DirBlock(d, p), WithoutSlot(DirEntries(d, p), k))
  }

  ghost predicate InodeRemoved(d: Image, t: int, d': Image) {
    && 1 <= t <= INODES_PER_GROUP
    && (forall x :: InodeUsed(d', x) <==> InodeUsed(d, x) && x != t)
    && (forall x :: 1 <= x <= INODES_PER_GROUP ==> NodeAt(d', x) == NodeAt(d, x))
    && Used(d') <= Used(d)
    && (forall b :: b in Used(d) && b !in Used(d') ==> b != 0 && Owns(d, NodeAt(d, t), b))
  }

  lemma UprootedTarget(d: Image, p: int, k: nat, d': Image)
    requires Kempt(d) && Uprooted(d, p, k, d')
    ensures var t := DirEntries(d, p)[k].inode; InodeUsed(d, t) && t != ROOT && t != p
  {
    hide NodeAt, KeepsBlocks, Lists, DirEntries, Apart, IsDot;
    assert DirTiled(d, p);
    assert EntryLive(d, p, DirEntries(d, p)[k]);
  }

  // Every inode that is left keeps its pointers, and apart from the parent its bytes.
  lemma UprootedOthers(d: Image, p: int, k: nat, d': Image, i: int)
    requires Kempt(d) && Uprooted(d, p, k, d') && InodeUsed(d', i)
    ensures InodeUsed(d, i) && NodeAt(d', i) == NodeAt(d, i)
    ensures forall s :: Valid(s) ==> PtrOf(d', i, s) == PtrOf(d, i, s)
    ensures i != p ==> SameInode(d, i, d')
  {
    hide NodeAt, KeepsBlocks, Lists, DirEntries, Kempt, SameInode, Owns, Names;
    OtherInode(d, p, d', i);
  }

  lemma UprootedSound(d: Image, p: int, k: nat, d': Image, i: int)
    requires Kempt(d) && Uprooted(d, p, k, d') && InodeUsed(d', i)
    ensures Sound(d', i)
  {
    hide NodeAt, KeepsBlocks, Lists, DirEntries, WithoutSlot, SameInode, Names, NamedOnce, DirTiled, BlocksFor;
    var t := DirEntries(d, p)[k].inode;
    UprootedTarget(d, p, k, d');
    UprootedOthers(d, p, k, d', i);
    assert Sound(d, i) && Apart(d, t, i);
    forall s | Valid(s) && PtrOf(d, i, s) != 0 ensures PtrOf(d, i, s) in Used(d') {
      assert PtrOf(d, i, s) in Used(d) by { InUse(d, i, s); }
      NotOwned(d, t, i, s);
    }
    SoundFrame(d, i, d');
  }

  lemma NotOwned(d: Image, t: int, i: int, s: Slot)
    requires 1 <= t <= INODES_PER_GROUP && 1 <= i <= INODES_PER_GROUP && Apart(d, t, i)
    requires Valid(s) && PtrOf(d, i, s) != 0
    ensures !Owns(d, NodeAt(d, t), PtrOf(d, i, s))
  {
    hide NodeAt;
    forall r | Valid(r) ensures Ptr(d, NodeAt(d, t), r) != PtrOf(d, i, s) {
      assert PtrOf(d, t, r) == Ptr(d, NodeAt(d, t), r);
    }
  }

  lemma UprootedEntries(d: Image, p: int, k: nat, d': Image, i: int)
    requires Kempt(d) && Uprooted(d, p, k, d') && IsDir(d', i)
    ensures DirBlock(d', i) != 0 && NodeAt(d', i).blocks == 1 && Chain(BlockAt(d', DirBlock(d', i)), 0) && IsDir(d, i)
    ensures DirEntries(d', i) == if i == p then WithoutSlot(DirEntries(d, p), k) else DirEntries(d, i)
  {
    hide NodeAt, Chain, Entries, WithoutSlot, KeepsBlocks, Apart, NamedOnce, EntryLive, FileContent, Owns;
    UprootedOthers(d, p, k, d', i);
    assert DirTiled(d, i) && PtrOf(d, i, Direct(0)) == DirBlock(d, i);
    assert DirBlock(d', i) == DirBlock(d, i);
  }

  // Where the entry at place l of directory i stood before the removal.
  function Earlier(p: int, k: nat, i: int, l: nat): nat {
    if i == p && k > 0 && l >= k then l + 1 else l
  }

  // Every used entry that is left was there before, and was not the removed one.
  lemma UprootedNames(d: Image, p: int, k: nat, d': Image, i: int, l: nat, x: int)
    requires Kempt(d) && Uprooted(d, p, k, d') && Names(d', i, l, x)
    ensures Names(d, i, Earlier(p, k, i, l), x) && !(i == p && Earlier(p, k, i, l) == k)
  {
    hide NodeAt, KeepsBlocks, Lists, DirEntries, Apart, NamedOnce, IsDot, InodeRemoved, WithoutSlot;
    UprootedEntries(d, p, k, d', i);
    if i == p {
      LeftOver(DirEntries(d, p), k, l);
    }
  }

  lemma LeftOver(es: seq<Entry>, k: nat, l: nat)
    requires k < |es| && l < |WithoutSlot(es, k)|
    ensures k == 0 && l == 0 ==> WithoutSlot(es, k)[l].inode == 0
    ensures !(k == 0 && l == 0) ==>
      var l' := Earlier(0, k, 0, l); l' != k && l' < |es| && WithoutSlot(es, k)[l] == es[l']
  {
  }

  lemma UprootedTiled(d: Image, p: int, k: nat, d': Image, i: int)
    requires Kempt(d) && Uprooted(d, p, k, d') && IsDir(d', i)
    ensures DirTiled(d', i)
  {
    hide NodeAt, KeepsBlocks, Lists, DirEntries, Apart, Chain, IsDot, Owns, WithoutSlot;
    UprootedEntries(d, p, k, d', i);
    var t := DirEntries(d, p)[k].inode;
    forall l | 0 <= l < |DirEntries(d', i)| ensures EntryLive(d', i, DirEntries(d', i)[l]) {
      var e := DirEntries(d', i)[l];
      if e.inode != 0 && !Dot(e) {
        assert Names(d', i, l, e.inode);
        UprootedNames(d, p, k, d', i, l, e.inode);
        assert DirTiled(d, i);
        assert EntryLive(d, i, DirEntries(d, i)[Earlier(p, k, i, l)]);
        assert e.inode != t;
      }
    }
  }

  lemma UprootedReserved(d: Image, p: int, k: nat, d': Image)
    requires Kempt(d) && Uprooted(d, p, k, d')
    ensures ReservedUsed(d')
  {
    hide NodeAt, KeepsBlocks, Lists, DirEntries, Apart, DirTiled, NamedOnce, Names, BlocksFor;
    var t := DirEntries(d, p)[k].inode;
    UprootedTarget(d, p, k, d');
    assert Sound(d, t);
  }

  /** Removing an entry together with its inode keeps the file system kempt. */
  lemma UprootedKempt(d: Image, p: int, k: nat, d': Image)
    requires Kempt(d) && Uprooted(d, p, k, d')
    ensures Kempt(d')
  {
    hide NodeAt, KeepsBlocks, Lists, DirEntries, Apart, Sound, DirTiled, Names, SameInode, Owns, WithoutSlot;
    UprootedTarget(d, p, k, d');
    UprootedReserved(d, p, k, d');
    forall i | InodeUsed(d', i) ensures Sound(d', i) {
      UprootedSound(d, p, k, d', i);
    }
    forall i, j | InodeUsed(d', i) && InodeUsed(d', j) && i != j ensures Apart(d', i, j) {
      UprootedOthers(d, p, k, d', i);
      UprootedOthers(d, p, k, d', j);
      ApartFrame(d, i, j, d');
    }
    forall i | IsDir(d', i) ensures DirTiled(d', i) {
      UprootedTiled(d, p, k, d', i);
    }
    forall i, j, l: nat, m: nat, x | Names(d', i, l, x) && Names(d', j, m, x) ensures i == j && l == m {
      UprootedNames(d, p, k, d', i, l, x);
      UprootedNames(d, p, k, d', j, m, x);
    }
  }

  // The removed entry never is the first one, which is ".".
  lemma UprootedLater(d: Image, p: int, k: nat, d': Image)
    requires Healthy(d) && Uprooted(d, p, k, d')
    ensures k > 0 && WithoutSlot(DirEntries(d, p), k) == Without(DirEntries(d, p), k)
  {
    hide NodeAt, KeepsBlocks, Lists, DirEntries, Kempt, InodeRemoved;
    assert DirOK(d, p);
  }

  lemma UprootedDirOK(d: Image, p: int, k: nat, d': Image, i: int)
    requires Healthy(d) && Uprooted(d, p, k, d') && IsDir(d', i)
    ensures DirOK(d', i)
  {
    hide NodeAt, KeepsBlocks, Lists, DirEntries, Kempt, UniqueNames, WithoutSlot, Names, EntryKind, Without, Owns;
    UprootedLater(d, p, k, d');
    UprootedEntries(d, p, k, d', i);
    assert DirOK(d, i);
    var es, es' := DirEntries(d, i), DirEntries(d', i);
    if i == p {
      WithoutUnique(es, k);
      WithoutFirst(es, k);
    }
    forall l | 0 <= l < |es'| ensures es'[l].inode != 0 && EntryKind(d', es'[l]) {
      EarlierEntry(es, p, k, i, es', l);
      SameKind(d, d', es[Earlier(p, k, i, l)]);
    }
  }

  lemma WithoutFirst(es: seq<Entry>, k: nat)
    requires 0 < k < |es|
    ensures Without(es, k) != [] && Without(es, k)[0] == es[0]
  {
  }

  lemma EarlierEntry(es: seq<Entry>, p: int, k: nat, i: int, es': seq<Entry>, l: nat)
    requires (i == p ==> 0 < k < |es|) && l < |es'| && es' == if i == p then Without(es, k) else es
    ensures Earlier(p, k, i, l) < |es| && es'[l] == es[Earlier(p, k, i, l)]
  {
  }

  lemma SameKind(d: Image, d': Image, x: Entry)
    requires EntryKind(d, x) && forall i :: 1 <= i <= INODES_PER_GROUP ==> NodeAt(d', i) == NodeAt(d, i)
    ensures EntryKind(d', x)
  {
    hide NodeAt;
  }

  /** Removing an entry together with its inode keeps the file system healthy. */
  lemma UprootedHealthy(d: Image, p: int, k: nat, d': Image)
    requires Healthy(d) && Uprooted(d, p, k, d')
    ensures Healthy(d')
  {
    hide Kempt, Uprooted, DirOK, NodeAt;
    UprootedKempt(d, p, k, d');
    forall i | IsDir(d', i) ensures DirOK(d', i) {
      UprootedDirOK(d, p, k, d', i);
    }
  }

  /** As maps from names: a removal takes one binding from one directory; the directories that
      are left are otherwise unchanged. */
  lemma UprootedMap(d: Image, p: int, k: nat, d': Image)
    requires Healthy(d) && Uprooted(d, p, k, d')
    ensures DirEntries(d, p)[k].name in DirMap(d, p)
    ensures IsDir(d', p) && DirMap(d', p) == DirMap(d, p) - {DirEntries(d, p)[k].name}
    ensures forall i :: IsDir(d', i) && i != p ==> IsDir(d, i) && DirMap(d', i) == DirMap(d, i)
  {
    hide NodeAt, Apart, NamedOnce, DirEntries, Find, Bindings, KeepsBlocks, Lists, DirTiled, EntryKind, Names, Owns;
    assert DirOK(d, p);
    UprootedTarget(d, p, k, d');
    UprootedLater(d, p, k, d');
    var es := DirEntries(d, p);
    FindUnique(es, k);
    BoundNames(es, es[k].name);
    RemoveUnbinds(es, k);
    assert IsDir(d', p);
    UprootedEntries(d, p, k, d', p);
    forall i | IsDir(d', i) && i != p ensures IsDir(d, i) && DirEntries(d', i) == DirEntries(d, i) {
      UprootedEntries(d, p, k, d', i);
    }
  }

  /** A refused operation keeps the file system kempt. */
  lemma UnchangedKempt(d: Image, d': Image)
    requires Kempt(d) && Unchanged(d, d')
    ensures Kempt(d')
  {
    hide NodeAt, KeepsBlocks, Apart, DirEntries, EntryLive, Names, Sound, DirTiled;
    UnchangedSame(d, d');
    assert InodeUsed(d, ROOT) && SameInode(d, ROOT, d') && Used(d') == Used(d);
    forall i | InodeUsed(d', i) ensures Sound(d', i) {
      UnchangedSound(d, d', i);
    }
    forall i, j | InodeUsed(d', i) && InodeUsed(d', j) && i != j ensures Apart(d', i, j) {
      ApartFrame(d, i, j, d');
    }
    forall i | IsDir(d', i) ensures DirTiled(d', i) {
      UnchangedTiled(d, d', i);
    }
    forall i, j, k, l, x | Names(d', i, k, x) && Names(d', j, l, x) ensures i == j && k == l {
      UnchangedNames(d, d', i, k, x);
      UnchangedNames(d, d', j, l, x);
    }
  }

  lemma UnchangedSound(d: Image, d': Image, i: int)
    requires Kempt(d) && Unchanged(d, d') && InodeUsed(d, i)
    ensures Sound(d', i)
  {
    hide NodeAt, KeepsBlocks, Apart, DirEntries, DirTiled, BlocksFor;
    UnchangedSame(d, d');
    assert Sound(d, i);
    SoundFrame(d, i, d');
  }

  lemma UnchangedNames(d: Image, d': Image, i: int, k: nat, x: int)
    requires Kempt(d) && Unchanged(d, d') && Names(d', i, k, x)
    ensures Names(d, i, k, x)
  {
    hide NodeAt, KeepsBlocks, Apart, DirEntries, DirTiled, Sound, NamedOnce, IsDot;
    UnchangedSame(d, d');
  }

  lemma UnchangedTiled(d: Image, d': Image, i: int)
    requires Kempt(d) && Unchanged(d, d') && IsDir(d, i)
    ensures DirTiled(d', i)
  {
    hide NodeAt, KeepsBlocks, Apart, NamedOnce, DirEntries, IsDot, Sound;
    UnchangedSame(d, d');
    assert DirTiled(d, i) && PtrOf(d, i, Direct(0)) == DirBlock(d, i);
    forall k | 0 <= k < |DirEntries(d', i)| ensures EntryLive(d', i, DirEntries(d', i)[k]) {
      assert EntryLive(d, i, DirEntries(d, i)[k]);
    }
  }

  lemma UnchangedKind(d: Image, d': Image, i: int, x: Entry)
    requires Unchanged(d, d') && EntryKind(d, x) && EntryLive(d, i, x) && x.inode != 0
    ensures EntryKind(d', x)
  {
    hide NodeAt;
  }

  /** A refused operation keeps the file system healthy. */
  lemma UnchangedHealthy(d: Image, d': Image)
    requires Healthy(d) && Unchanged(d, d')
    ensures Healthy(d')
  {
    hide NodeAt, KeepsBlocks, Apart, DirEntries, EntryLive, EntryKind, NamedOnce, Sound, UniqueNames, Unchanged;
    UnchangedKempt(d, d');
    UnchangedSame(d, d');
    forall i | IsDir(d', i) ensures DirOK(d', i) {
      assert IsDir(d, i) && DirOK(d, i) && DirTiled(d, i);
      forall k | 0 <= k < |DirEntries(d', i)| ensures EntryKind(d', DirEntries(d', i)[k]) {
        UnchangedKind(d, d', i, DirEntries(d, i)[k]);
      }
    }
  }
}
