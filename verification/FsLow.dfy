/** As long as no more than the 1024 blocks of the block group are in use, first fit stays inside
    the group, and nothing has to be asked of block numbers. */
module FsLow {
  import opened Bytes
  import opened Bitmap
  import opened Layout
  import opened BlockTree
  import opened Growth
  import opened Contents
  import Release
  import opened Files
  import opened Directory
  import opened DirSlots
  import opened FsState
  import opened FsEffects
  import opened FsStaging
  import opened FsOps
  import opened FsDelete
  import opened FsMove
  import opened FsFormat
  import opened FsWrite
  import opened FsRuns

  ghost predicate Low(d: Image) {
    forall b :: b in Used(d) ==> b < BLOCKS_PER_GROUP
  }

  // How many blocks a request may take.
  function Demand(d: Image, r: Request): nat
    requires 1 <= r.p <= INODES_PER_GROUP
  {
    match r
    case MakeDirectory(p, name) => 1
    case Copy(p, src, dst) => CopyCost(NamedNode(d, p, src))
    case Put(p, name, isDir, data) => Cost(isDir, |data|)
    case _ => 0
  }

  // A live directory number, the dot entries left alone, and demand for no more than the group has.
  ghost predicate Modest(d: Image, r: Request) {
    && InodeUsed(d, r.p) && SparesDot(d, r)
    && (r.RemoveDirectory? ==> !IsDot(r.name)) && (r.Take? ==> !IsDot(Cut(r.name)))
    && (r.Put? ==> |r.data| < 0x1_0000_0000)
    && |Used(d)| + Demand(d, r) <= BLOCKS_PER_GROUP
  }

  lemma LowAllocates(d: Image, n: nat)
    requires Low(d) && |Used(d)| + n <= BLOCKS_PER_GROUP
    ensures AllocatesLow(Used(d), n)
  {
    LowInside(Used(d), n, BLOCKS_PER_GROUP);
  }

  lemma LowInside(used: set<int>, n: nat, m: nat)
    requires (forall b :: b in used ==> 0 <= b < m) && |used| + n <= m
    ensures |Below(m) - used| >= n
  {
    assert used <= Below(m);
    assert |Below(m) - used| == |Below(m)| - |used|;
  }

  // Whatever a live inode points at can be freed.
  lemma LowInode(d: Image, t: int)
    requires Low(d) && Sound(d, t)
    ensures 1 <= t <= INODES_PER_GROUP && LowDirect(NodeAt(d, t)) && LowListed(d, t)
  {
    hide NodeAt, BlocksFor, Release.Listed, Owns;
    var n := NodeAt(d, t);
    forall k | 0 <= k < 12 && k < n.blocks ensures n.block[k] < BLOCKS_PER_GROUP {
      assert Ptr(d, n, Direct(k)) == n.block[k];
    }
    forall x | x in Release.Listed(d, n, Min(12, n.blocks)) ensures FIRST_FREE_BLOCK <= x < BLOCKS_PER_GROUP {
      ListedOwned(d, n, Used(d), Min(12, n.blocks), x);
      OwnedUsed(d, n, x);
    }
  }

  lemma OwnedUsed(d: Image, n: Inode, x: int)
    requires Tree(d, n, Used(d)) && x != 0 && Owns(d, n, x)
    ensures x in Used(d) && x >= FIRST_FREE_BLOCK
  {
  }

  // An entry that a removal leads to is not one of the dots, so its inode is live.
  lemma RemovalTarget(d: Image, p: int, k: nat)
    requires Healthy(d) && IsDir(d, p) && k < |DirEntries(d, p)| && !Dot(DirEntries(d, p)[k])
    ensures var t := DirEntries(d, p)[k].inode; InodeUsed(d, t) && Sound(d, t)
  {
    hide NodeAt, DirEntries, Apart, NamedOnce, EntryKind, UniqueNames, Dot;
    assert DirOK(d, p) && DirTiled(d, p);
    assert EntryLive(d, p, DirEntries(d, p)[k]);
  }

  /** Every modest request is lawful. */
  lemma ModestLawful(d: Image, r: Request)
    requires Healthy(d) && Low(d) && Modest(d, r)
    ensures Lawful(d, r)
  {
    hide NodeAt, DirEntries, Healthy, Low, Used, LowDirect, LowListed, Sound, AllocatesLow, CopyCost, Cost, IsDot,
         FirstFreeInode, EmptyDirectory, NoFreeInode, DirHasRoom;
    match r
    case MakeDirectory(p, name) => LowAllocates(d, 1);
    case Copy(p, src, dst) =>
      LowAllocates(d, CopyCost(NamedNode(d, p, src)));
    case RemoveFile(p, name) =>
      if DeleteFileOutcome(d, p, name) == 0 {
        var k := Find(DirEntries(d, p), name);
        RemovalTarget(d, p, k);
        LowInode(d, DirEntries(d, p)[k].inode);
      }
    case RemoveDirectory(p, name) =>
      if DeleteDirectoryOutcome(d, p, name) == 0 {
        var k := Find(DirEntries(d, p), name);
        RemovalTarget(d, p, k);
        LowInode(d, DirEntries(d, p)[k].inode);
      }
    case Put(p, name, isDir, data) =>
    case Take(p, name, isDir, past) =>
      if IsDir(d, p) && NamedInode(d, p, name) != 0 {
        var k := FindUsed(DirEntries(d, p), Cut(name));
        RemovalTarget(d, p, k);
        LowInode(d, DirEntries(d, p)[k].inode);
      }
  }

  lemma FreshLow(d: Image, n: Inode, d': Image)
    requires Low(d) && FreshTree(d, n, d') && |Used(d')| <= BLOCKS_PER_GROUP
    ensures Low(d')
  {
    hide Ptr;
  }

  lemma AddedLow(d: Image, p: int, e: Entry, n: Inode, d': Image)
    requires Low(d) && ReservedUsed(d) && Added(d, p, e, n, d') && |Used(d)| + Mapped(n, 12) <= BLOCKS_PER_GROUP
    ensures Low(d')
  {
    hide NodeAt, DirEntries, Tree, KeepsBlocks, Lists, InodeAdded, NewDirectory, FreshIn, Low;
    FreshCost(d, n, d');
    FreshLow(d, n, d');
  }

  lemma DirectoryTakes(b: u32)
    ensures Mapped(DirectoryNode(b), 12) <= 1
  {
    MappedMonotone(DirectoryNode(b), 1, 12);
    MappedAlike(DirectoryNode(b), DirectoryNode(b), 1, 12);
  }

  lemma UprootedLow(d: Image, p: int, k: nat, d': Image)
    requires Low(d) && Uprooted(d, p, k, d')
    ensures Low(d')
  {
    hide NodeAt, DirEntries, KeepsBlocks, Lists, Names, Owns;
  }

  /** Every call with modest demand keeps the blocks inside the group. */
  lemma StepLow(d: Image, r: Request, rc: int, d': Image)
    requires Healthy(d) && Low(d) && Modest(d, r) && Step(d, r, rc, d')
    ensures Low(d')
  {
    hide NodeAt, Kempt, DirOK, Unchanged, Uprooted, Added, EntryFits, DirEntries, FirstFreeInode, WrittenAs, Low, Cost,
         CreateOutcome, CopyOutcome, DeleteFileOutcome, DeleteDirectoryOutcome, WriteOutcome, DeleteOutcome, Copied,
         DirectoryNode, Freed, CopyCost, Mapped, Target;
    KemptReserved(d);
    if rc != 0 {
      UnchangedLow(d, d');
    } else {
      match r
      case MakeDirectory(p, name) =>
        var e: Entry, n: Inode :| CreatedAs(d, p, name, e, n, d');
        DirectoryTakes(n.block[0]);
        AddedLow(d, p, e, n, d');
      case Copy(p, src, dst) =>
        var e: Entry, n: Inode :| Copied(d, p, src, dst, e, n, d');
        CopyLowStep(d, p, src, dst, e, n, d');
      case RemoveFile(p, name) => UprootedLow(d, p, Find(DirEntries(d, p), name), d');
      case RemoveDirectory(p, name) => UprootedLow(d, p, Find(DirEntries(d, p), name), d');
      case Put(p, name, isDir, data) =>
        var i: int, n: Inode :| WrittenAs(d, p, name, isDir, data, i, n, d');
        WrittenLow(d, p, name, isDir, data, i, n, d');
      case Take(p, name, isDir, past) => UprootedLow(d, p, FindUsed(DirEntries(d, p), Cut(name)), d');
    }
  }

  lemma UnchangedLow(d: Image, d': Image)
    requires Low(d) && Unchanged(d, d')
    ensures Low(d')
  {
    hide NodeAt;
    assert Used(d') == Used(d);
  }

  lemma CopyLowStep(d: Image, p: int, src: Name, dst: Name, e: Entry, n: Inode, d': Image)
    requires Low(d) && ReservedUsed(d) && Copied(d, p, src, dst, e, n, d')
    requires |Used(d)| + CopyCost(NamedNode(d, p, src)) <= BLOCKS_PER_GROUP
    ensures Low(d')
  {
    hide NodeAt, DirEntries, Tree, KeepsBlocks, Lists, InodeAdded, NewDirectory, FreshIn, Low, CopiedTo, CopyCost,
         Target;
    CopyTakes(d, p, src, dst, e, n, d');
    FreshLow(d, n, d');
  }

  lemma WrittenLow(d: Image, p: int, name: Name, isDir: bool, data: seq<byte>, i: int, n: Inode, d': Image)
    requires Low(d) && WrittenAs(d, p, name, isDir, data, i, n, d')
    requires |Used(d)| + Cost(isDir, |data|) <= BLOCKS_PER_GROUP
    ensures Low(d')
  {
    hide NodeAt, DirEntries, Tree, KeepsBlocks, Lists, InodeAdded, NewDirectory, Low, FileContent, FilledTo, Chain,
         Last;
    FreshLow(d, n, d');
  }

  ghost predicate ModestCall(d: Image, r: Request, rc: int, d': Image) {
    Modest(d, r) && Step(d, r, rc, d')
  }

  /** Over every run of modest calls from a formatted disk every image is healthy, every block in
      use lies in the group, and every request is lawful. */
  lemma {:induction false} RunLow(images: seq<Image>, rs: seq<Request>, rcs: seq<int>, k: nat)
    requires |images| == |rs| + 1 && |rcs| == |rs| && Formatted(images[0]) && k <= |rs|
    requires forall j :: 0 <= j < |rs| ==> ModestCall(images[j], rs[j], rcs[j], images[j + 1])
    ensures Healthy(images[k]) && Low(images[k]) && (k < |rs| ==> Lawful(images[k], rs[k]))
  {
    hide Healthy, Step, Lawful, SparesDot, Formatted, Low, Demand;
    if k == 0 {
      FormattedHealthy(images[0]);
      FormattedLow(images[0]);
    } else {
      RunLow(images, rs, rcs, k - 1);
      assert ModestCall(images[k - 1], rs[k - 1], rcs[k - 1], images[k]);
      StepHealthy(images[k - 1], rs[k - 1], rcs[k - 1], images[k]);
      StepLow(images[k - 1], rs[k - 1], rcs[k - 1], images[k]);
    }
    if k < |rs| {
      assert ModestCall(images[k], rs[k], rcs[k], images[k + 1]);
      ModestLawful(images[k], rs[k]);
    }
  }

  lemma FormattedLow(d: Image)
    requires Formatted(d)
    ensures Low(d)
  {
    hide NodeAt, Chain, Entries, Last;
  }
}
