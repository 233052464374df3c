/** What holds over whole runs of the six calls that change the file system: the system calls
    create_directory, copy_file, delete_file and delete_directory, and write and delete. */
module FsRuns {
  import opened Bytes
  import opened Bitmap
  import opened Layout
  import opened BlockTree
  import opened Growth
  import opened Contents
  import Release
  import opened Directory
  import opened DirSlots
  import opened FsState
  import opened FsEffects
  import opened FsStaging
  import opened Volume
  import opened FsOps
  import opened FsDelete
  import opened FsFormat
  import opened FsWrite

  datatype Request =
    | MakeDirectory(p: int, name: Name)
    | Copy(p: int, src: Name, dst: Name)
    | RemoveFile(p: int, name: Name)
    | RemoveDirectory(p: int, name: Name)
    | Put(p: int, name: Name, isDir: bool, data: seq<byte>)
    | Take(p: int, name: Name, isDir: bool, past: Past)

  function Outcome(d: Image, r: Request): int
    requires 1 <= r.p <= INODES_PER_GROUP
  {
    match r
    case MakeDirectory(p, name) => CreateOutcome(d, p, name)
    case Copy(p, src, dst) => CopyOutcome(d, p, src, dst)
    case RemoveFile(p, name) => DeleteFileOutcome(d, p, name)
    case RemoveDirectory(p, name) => DeleteDirectoryOutcome(d, p, name)
    case Put(p, name, isDir, data) => WriteOutcome(d, p, name, |data|)
    case Take(p, name, isDir, past) => DeleteOutcome(d, p, name, isDir, past)
  }

  // What the code relies on without looking: a live directory number, no removal of "." and
  // "..", room for a write, and block numbers to free that lie in the block group.
  ghost predicate Lawful(d: Image, r: Request) {
    && InodeUsed(d, r.p)
    && match r
       case MakeDirectory(p, name) => Outcome(d, r) == -6 ==> AllocatesLow(Used(d), 1)
       case Copy(p, src, dst) => CopyLow(d, p, src, dst)
       case RemoveFile(p, name) => Outcome(d, r) == 0 ==> LowDirect(NamedNode(d, p, name))
       case RemoveDirectory(p, name) => !IsDot(name) && (Outcome(d, r) == 0 ==> LowDirect(NamedNode(d, p, name)))
       case Put(p, name, isDir, data) =>
         |data| < 0x1_0000_0000 && (Outcome(d, r) == 0 ==> |Used(d)| + Cost(isDir, |data|) <= BITS)
       case Take(p, name, isDir, past) =>
         NamesLive(d, p, name) && (Outcome(d, r) == 0 ==> Deletable(d, p, name))
  }

  // A write does not take the place of the only record of a directory.
  ghost predicate SparesDot(d: Image, r: Request)
    requires 1 <= r.p <= INODES_PER_GROUP
  {
    r.Put? && Outcome(d, r) == 0 && Fits(d, r.p, r.name) ==> |DirEntries(d, r.p)| >= 2
  }

  ghost predicate CreatedAs(d: Image, p: int, name: Name, e: Entry, n: Inode, d': Image)
    requires 1 <= p <= INODES_PER_GROUP
  {
    && e.ftype == FT_DIR && e.name == name && FirstFreeInode(d, e.inode)
    && n == DirectoryNode(n.block[0]) && TailAt(d', n.block[0], 10)
    && Added(d, p, e, n, d') && EntryFits(d, p, e, n)
  }

  ghost predicate Created(d: Image, p: int, name: Name, d': Image)
    requires 1 <= p <= INODES_PER_GROUP
  {
    exists e: Entry, n: Inode :: CreatedAs(d, p, name, e, n, d')
  }

  ghost predicate HasCopy(d: Image, p: int, src: Name, dst: Name, d': Image)
    requires 1 <= p <= INODES_PER_GROUP
  {
    exists e: Entry, n: Inode :: Copied(d, p, src, dst, e, n, d')
  }

  ghost predicate HasFile(d: Image, p: int, name: Name, isDir: bool, data: seq<byte>, d': Image)
    requires 1 <= p <= INODES_PER_GROUP
  {
    exists i: int, n: Inode :: WrittenAs(d, p, name, isDir, data, i, n, d')
  }

  ghost predicate Taken(d: Image, p: int, name: Name, d': Image)
    requires 1 <= p <= INODES_PER_GROUP
  {
    && Uprooted(d, p, FindUsed(DirEntries(d, p), Cut(name)), d')
    && Used(d') == Used(d) - Release.Elems(Freed(d, NamedInode(d, p, name)))
  }

  ghost predicate Success(d: Image, r: Request, d': Image)
    requires 1 <= r.p <= INODES_PER_GROUP
  {
    match r
    case MakeDirectory(p, name) => Created(d, p, name, d')
    case Copy(p, src, dst) => HasCopy(d, p, src, dst, d')
    case RemoveFile(p, name) => Removed(d, p, Find(DirEntries(d, p), name), d')
    case RemoveDirectory(p, name) => Removed(d, p, Find(DirEntries(d, p), name), d')
    case Put(p, name, isDir, data) => HasFile(d, p, name, isDir, data, d')
    case Take(p, name, isDir, past) => Taken(d, p, name, d')
  }

  // One call: the result code is determined by the image, a nonzero code means that nothing
  // visible changed.
  ghost predicate Step(d: Image, r: Request, rc: int, d': Image)
    requires 1 <= r.p <= INODES_PER_GROUP
  {
    && rc == Outcome(d, r)
    && (rc != 0 ==> Unchanged(d, d'))
    && (rc == 0 ==> Success(d, r, d'))
  }

  method Execute(v: Volume, r: Request) returns (rc: int)
    requires v.Valid() && Healthy(v.Image()) && Lawful(v.Image(), r)
    modifies v.disk, v`sFreeBlocks, v`bgFreeBlocks, v`sFreeInodes, v`bgFreeInodes, v`bgUsedDirs
    ensures Step(old(v.Image()), r, rc, v.Image())
    ensures SparesDot(old(v.Image()), r) ==> Healthy(v.Image())
  {
    hide NodeAt, Healthy, Unchanged, Uprooted, Added, EntryFits, Copied, AllocatesLow, WrittenAs, Deletable, CopyLow,
         CreateOutcome, CopyOutcome, DeleteFileOutcome, DeleteDirectoryOutcome, WriteOutcome, DeleteOutcome,
         FirstFreeInode, DirEntries, LowDirect, Cost, SparesDot, DirectoryNode, Freed, Removed;
    ghost var d := v.Image();
    UnchangedItself(d);
    match r {
      case MakeDirectory(p, name) =>
        ghost var e, n;
        rc, e, n := CreateDirectory(v, p, name);
        assert rc == 0 ==> CreatedAs(d, p, name, e, n, v.Image());
      case Copy(p, src, dst) =>
        ghost var e, n;
        rc, e, n := CopyFile(v, p, src, dst);
        assert rc == 0 ==> Copied(d, p, src, dst, e, n, v.Image());
      case RemoveFile(p, name) =>
        rc := DeleteFile(v, p, name);
      case RemoveDirectory(p, name) =>
        rc := DeleteDirectory(v, p, name);
      case Put(p, name, isDir, data) =>
        HealthyKempt(d);
        ghost var i, n;
        rc, i, n := Write(v, p, name, isDir, data);
        assert rc == 0 ==> WrittenAs(d, p, name, isDir, data, i, n, v.Image());
      case Take(p, name, isDir, past) =>
        HealthyKempt(d);
        rc := Delete(v, p, name, isDir, past);
    }
    if SparesDot(d, r) {
      StepHealthy(d, r, rc, v.Image());
    }
  }

  lemma HealthyKempt(d: Image)
    requires Healthy(d)
    ensures Kempt(d)
  {
  }

  lemma AddedHealthy(d: Image, p: int, e: Entry, n: Inode, d': Image)
    requires Healthy(d) && Added(d, p, e, n, d') && EntryFits(d, p, e, n)
    ensures Healthy(d')
  {
    hide NodeAt, InodeAdded, FreshTree, KeepsBlocks, Lists, Kempt, FreshBlocks, DirEntries;
    GraftedHealthy(d, p, |DirEntries(d, p)|, e, n, d');
    ParentNotEmpty(d, p);
  }

  lemma ParentNotEmpty(d: Image, p: int)
    requires Healthy(d) && 1 <= p <= INODES_PER_GROUP
    ensures IsDir(d, p) ==> DirEntries(d, p) != []
  {
    hide NodeAt, DirEntries, Kempt;
  }

  /** Every call keeps the file system healthy, unless a write takes the place of the only
      record of a directory. */
  lemma StepHealthy(d: Image, r: Request, rc: int, d': Image)
    requires Healthy(d) && InodeUsed(d, r.p) && Step(d, r, rc, d') && SparesDot(d, r)
    ensures Healthy(d')
  {
    hide NodeAt, Healthy, Unchanged, Uprooted, Added, EntryFits, CopiedTo, DirEntries, FirstFreeInode, WrittenAs,
         CreateOutcome, CopyOutcome, DeleteFileOutcome, DeleteDirectoryOutcome, WriteOutcome, DeleteOutcome, Fits,
         DirectoryNode, Freed;
    if rc != 0 {
      UnchangedHealthy(d, d');
    } else {
      match r
      case MakeDirectory(p, name) =>
        var e: Entry, n: Inode :| CreatedAs(d, p, name, e, n, d');
        AddedHealthy(d, p, e, n, d');
      case Copy(p, src, dst) =>
        var e: Entry, n: Inode :| Copied(d, p, src, dst, e, n, d');
        AddedHealthy(d, p, e, n, d');
      case RemoveFile(p, name) => UprootedHealthy(d, p, Find(DirEntries(d, p), name), d');
      case RemoveDirectory(p, name) => UprootedHealthy(d, p, Find(DirEntries(d, p), name), d');
      case Put(p, name, isDir, data) =>
        var i: int, n: Inode :| WrittenAs(d, p, name, isDir, data, i, n, d');
        WrittenHealthy(d, p, name, isDir, data, i, n, d');
      case Take(p, name, isDir, past) => UprootedHealthy(d, p, FindUsed(DirEntries(d, p), Cut(name)), d');
    }
  }

  ghost predicate CallAt(d: Image, r: Request, rc: int, d': Image) {
    Lawful(d, r) && SparesDot(d, r) && Step(d, r, rc, d')
  }

  // A run: images[k] and the request at k lead to images[k + 1].
  ghost predicate Run(images: seq<Image>, rs: seq<Request>, rcs: seq<int>) {
    && |images| == |rs| + 1 && |rcs| == |rs|
    && forall k :: 0 <= k < |rs| ==> CallAt(images[k], rs[k], rcs[k], images[k + 1])
  }

  /** Over every run of the six calls from a formatted disk every image is healthy. */
  lemma {:induction false} RunHealthy(images: seq<Image>, rs: seq<Request>, rcs: seq<int>, k: nat)
    requires Run(images, rs, rcs) && Formatted(images[0]) && k <= |rs|
    ensures Healthy(images[k])
  {
    hide Healthy, Step, Lawful, SparesDot, Formatted;
    if k == 0 {
      FormattedHealthy(images[0]);
    } else {
      RunHealthy(images, rs, rcs, k - 1);
      assert CallAt(images[k - 1], rs[k - 1], rcs[k - 1], images[k]);
      LawfulLive(images[k - 1], rs[k - 1]);
      StepHealthy(images[k - 1], rs[k - 1], rcs[k - 1], images[k]);
    }
  }

  lemma LawfulLive(d: Image, r: Request)
    requires Lawful(d, r)
    ensures InodeUsed(d, r.p)
  {
  }
}
