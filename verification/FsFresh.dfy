/** Directories just made: what they list, how much room they have, what they take in, and how
    removing what was just made leads back. */
module FsFresh {
  import opened Bytes
  import opened Bitmap
  import opened Layout
  import opened BlockTree
  import opened Growth
  import opened Contents
  import opened Directory
  import opened DirSlots
  import opened FsState
  import opened FsEffects
  import opened FsStaging
  import opened FsOps
  import opened FsDelete
  import opened FsMove
  import opened FsFormat
  import opened FsWrite
  import opened FsRuns
  import opened FsOutcomes

  // Directory i lists its two dot entries, the second of which starts at l.
  ghost predicate JustMade(d: Image, i: int, p: u32, l: nat) {
    && 1 <= i <= INODES_PER_GROUP && IsDir(d, i) && DirEntries(d, i) == Dots(i, p)
    && TailAt(d, DirBlock(d, i), l)
  }

  /** create_directory makes such a directory, in every slot of the inode table that keeps a block
      pointer. */
  lemma CreatedIsMade(d: Image, p: int, name: Name, e: Entry, n: Inode, d': Image)
    requires Healthy(d) && 1 <= p <= INODES_PER_GROUP && CreatedAs(d, p, name, e, n, d')
    ensures Healthy(d') && (JustMade(d', e.inode, p, 10) <==> e.inode <= 30)
    ensures e.inode <= 30 ==>
      var m := NodeAt(d', e.inode); m.mode == 0x4000 && m.size == 512 && m.blocks == 1 && m.block[0] == n.block[0]
    ensures InodeUsed(d', e.inode) && !InodeUsed(d, e.inode) && IsDir(d', p) && e.inode != p
  {
    hide NodeAt, Kempt, DirOK, KeepsBlocks, Lists, DirEntries, FreshTree, Chain, Entries, Last, FreshBlocks, TailAt;
    AddedHealthy(d, p, e, n, d');
    ParentStays(d, p, |DirEntries(d, p)|, e, n, d');
    KeptBlock(e.inode, n);
    if e.inode <= 30 {
      GraftedEntries(d, p, |DirEntries(d, p)|, e, n, d', e.inode);
    }
  }

  /** write makes such a directory, too, with a slightly longer first record. */
  lemma WrittenIsMade(d: Image, p: int, name: Name, data: seq<byte>, i: int, n: Inode, d': Image)
    requires Kempt(d) && WrittenAs(d, p, name, true, data, i, n, d') && i <= 30
    ensures 1 <= p <= INODES_PER_GROUP && JustMade(d', i, p, 12)
    ensures var m := NodeAt(d', i); m.mode == 0x4000 && m.size == 512 && m.blocks == 1
  {
    hide NodeAt, Kempt, KeepsBlocks, Lists, DirEntries, FreshTree, Chain, Entries, Last, FilledTo, TailAt, Cost;
    KeptBlock(i, n);
    GraftedEntries(d, p, Spot(DirEntries(d, p), Fits(d, p, name)), Entry(i, FT_REG, Cut(name)), n, d', i);
  }

  /** So does formatting with the root. */
  lemma FormattedIsMade(d: Image)
    requires Formatted(d)
    ensures Healthy(d) && JustMade(d, ROOT, ROOT, 12)
  {
    hide NodeAt, Chain, Entries, Last, Healthy;
    FormattedHealthy(d);
    RootDirectory(d);
    assert DirBlock(d, ROOT) == FIRST_FREE_BLOCK;
  }

  /** The room in a directory just made, for the system calls and for write: every name fits. */
  lemma MadeRoom(d: Image, i: int, p: u32, l: nat, len: nat)
    requires JustMade(d, i, p, l) && l <= 12
    ensures DirHasRoom(d, i, len) <==> l + len <= 492
    ensures len <= 255 ==> DirHasRoom(d, i, len)
    ensures forall name: Name :: Fits(d, i, name)
  {
    hide NodeAt, Chain, Entries, Last;
    var b := BlockAt(d, DirBlock(d, i));
    LastEntry(b, 0);
    DotsAreDots(i, p);
  }

  lemma MadeMap(d: Image, i: int, p: u32, l: nat)
    requires JustMade(d, i, p, l)
    ensures DirMap(d, i) == map[DOT := Entry(i, FT_DIR, DOT), DOTDOT := Entry(p, FT_DIR, DOTDOT)]
  {
    hide NodeAt, DirEntries, TailAt;
    DotsAreDots(i, p);
    var es := Dots(i, p);
    FindUnique(es, 0);
    FindUnique(es, 1);
    assert Bindings(es) == map[DOT := es[0], DOTDOT := es[1]];
  }

  /** What a directory just made takes in: create_directory there is never refused for want of room
      and succeeds for every proper name while inodes and blocks last; a file can be written for
      every proper name; and there is nothing to copy. */
  lemma MadeTakes(d: Image, i: int, p: u32, l: nat, name: Name, src: Name, size: nat)
    requires Healthy(d) && JustMade(d, i, p, l) && l <= 12
    ensures CreateOutcome(d, i, name) != -6
    ensures CreateOutcome(d, i, name) == 0 <==>
            name != [] && !IsDot(name) && |LiveInodes(d)| < 32 && |Used(d)| < 4096
    ensures WriteOutcome(d, i, name, size) == 0 <==>
            Cut(name) != [] && !IsDot(Cut(name)) && size <= 8460288 && |LiveInodes(d)| < 32
    ensures CopyOutcome(d, i, src, name) == -1 || CopyOutcome(d, i, src, name) == -3
  {
    hide NodeAt, DirEntries, Healthy, CreateOutcome, WriteOutcome, CopyOutcome, DirMap, DirHasRoom, TailAt, Fits,
         LiveInodes, Used, LeadsToDir, CostBound;
    MadeMap(d, i, p, l);
    MadeRoom(d, i, p, l, |name|);
    UsedAtMost(d);
    FullOfInodes(d);
    CreateExact(d, i, name);
    WriteExact(d, i, name, size);
    CopyExact(d, i, src, name);
  }

  // The entry at the end was added, and then removed with its inode.
  ghost predicate AddedRemoved(d: Image, p: int, e: Entry, n: Inode, d1: Image, d2: Image) {
    && Healthy(d) && Added(d, p, e, n, d1) && EntryFits(d, p, e, n)
    && Removed(d1, p, Find(DirEntries(d1, p), e.name), d2)
  }

  // Where it stands in between.
  lemma AddedPlace(d: Image, p: int, e: Entry, n: Inode, d1: Image, d2: Image)
    requires AddedRemoved(d, p, e, n, d1, d2)
    ensures 1 <= p <= INODES_PER_GROUP
    ensures var k := |DirEntries(d, p)|; Uprooted(d1, p, k, d2) && DirEntries(d1, p)[k] == e && Healthy(d1)
    ensures Used(d2) == Used(d1) - DirectBlocks(NodeAt(d1, e.inode))
    ensures DirEntries(d1, p) == DirEntries(d, p) + [e]
  {
    hide NodeAt, Kempt, DirOK, DirEntries, FreshBlocks, Uprooted, DirectBlocks, Grafted;
    LastWithout(d, p, e, n, d1);
    AddedHealthy(d, p, e, n, d1);
    FindAppend(DirEntries(d, p), e, e.name);
  }

  /** Removing what was just added restores the entries of the directory, in order, and the set of
      live inodes; it restores the used blocks as far as the record still leads to them. */
  lemma AddedThenRemoved(d: Image, p: int, e: Entry, n: Inode, d1: Image, d2: Image)
    requires AddedRemoved(d, p, e, n, d1, d2)
    ensures IsDir(d2, p) && DirEntries(d2, p) == DirEntries(d, p)
    ensures forall x :: InodeUsed(d2, x) <==> InodeUsed(d, x)
    ensures 1 <= e.inode <= INODES_PER_GROUP
    ensures Used(d2) == Used(d) + FirstMapped(n, 12) - DirectBlocks(Kept(e.inode, n))
  {
    hide AddedRemoved, NodeAt, IsDirectory, DirEntries, Used, FirstMapped, DirectBlocks, Kept, InodeUsed;
    EntriesBack(d, p, e, n, d1, d2);
    InodesBack(d, p, e, n, d1, d2);
    AddedPlace(d, p, e, n, d1, d2);
    AddedUsed(d, p, e, n, d1) by { PartsOf(d, p, e, n, d1, d2); }
  }

  lemma PartsOf(d: Image, p: int, e: Entry, n: Inode, d1: Image, d2: Image)
    requires AddedRemoved(d, p, e, n, d1, d2)
    ensures Healthy(d) && Added(d, p, e, n, d1)
  {
  }

  lemma EntriesBack(d: Image, p: int, e: Entry, n: Inode, d1: Image, d2: Image)
    requires AddedRemoved(d, p, e, n, d1, d2)
    ensures IsDir(d2, p) && DirEntries(d2, p) == DirEntries(d, p)
  {
    hide AddedRemoved, NodeAt, DirEntries, Uprooted, Kempt, Used;
    AddedPlace(d, p, e, n, d1, d2);
    var es := DirEntries(d, p);
    HealthyKempt(d1);
    UprootedLater(d1, p, |es|, d2);
    ParentLeft(d1, p, |es|, d2);
    UprootedEntries(d1, p, |es|, d2, p);
    assert Without(es + [e], |es|) == es;
  }

  lemma ParentLeft(d: Image, p: int, k: nat, d': Image)
    requires Kempt(d) && Uprooted(d, p, k, d')
    ensures IsDir(d', p)
  {
    hide NodeAt, DirEntries, KeepsBlocks, Lists, Kempt, Owns;
    UprootedTarget(d, p, k, d');
  }

  lemma InodesBack(d: Image, p: int, e: Entry, n: Inode, d1: Image, d2: Image)
    requires AddedRemoved(d, p, e, n, d1, d2)
    ensures forall x :: InodeUsed(d2, x) <==> InodeUsed(d, x)
    ensures 1 <= e.inode <= INODES_PER_GROUP && NodeAt(d1, e.inode) == Kept(e.inode, n)
  {
    AddedPlace(d, p, e, n, d1, d2);
    hide NodeAt, DirEntries, KeepsBlocks, Lists, Healthy, Owns, FreshTree, FreshBlocks, Names, Kept, WithoutSlot,
         Removed, EntryFits, NewDirectory, InodeUsed;
  }

  lemma LastWithout(d: Image, p: int, e: Entry, n: Inode, d1: Image)
    requires Healthy(d) && Added(d, p, e, n, d1)
    ensures IsDir(d1, p) && DirEntries(d1, p) == DirEntries(d, p) + [e]
  {
    hide NodeAt, Kempt, DirOK, DirEntries, FreshBlocks, Grafted;
    var es := DirEntries(d, p);
    HealthyKempt(d);
    ParentStays(d, p, |es|, e, n, d1);
    GraftedEntries(d, p, |es|, e, n, d1, p);
    assert es[..|es|] == es;
  }

  lemma AddedUsed(d: Image, p: int, e: Entry, n: Inode, d1: Image)
    requires Healthy(d) && Added(d, p, e, n, d1)
    ensures Used(d1) == Used(d) + FirstMapped(n, 12)
  {
    hide NodeAt, DirOK, DirEntries, Grafted, Used, FirstMapped, Apart, Sound, DirTiled, NamedOnce;
    KemptReserved(d);
    assert 0 in Used(d);
    FreshFreed(Used(d), n, Used(d1));
    FreshMappedIn(Used(d), n, Used(d1));
  }

  lemma FreshMappedIn(was: set<int>, n: Inode, now: set<int>)
    requires FreshIn(was, n.block, now)
    ensures FirstMapped(n, 12) <= now
  {
  }

  /** create_directory and then delete_directory of the same name: the second always succeeds, and
      afterwards the directory lists what it listed, the same inodes are live, and the block bitmap
      is as it was if and only if the inode kept its block pointer on the disk. */
  lemma MadeThenRemoved(d: Image, p: int, name: Name, e: Entry, n: Inode, d1: Image, d2: Image)
    requires Healthy(d) && 1 <= p <= INODES_PER_GROUP && CreatedAs(d, p, name, e, n, d1)
    requires !IsDot(name) && name != [] && Removed(d1, p, Find(DirEntries(d1, p), name), d2)
    ensures DeleteDirectoryOutcome(d1, p, name) == 0
    ensures DirMap(d2, p) == DirMap(d, p) && LiveInodes(d2) == LiveInodes(d)
    ensures d2[BLOCK_BITMAP] == d[BLOCK_BITMAP] <==> e.inode <= 30
  {
    hide NodeAt, DirEntries, Healthy, Added, EntryFits, Removed, DeleteDirectoryOutcome, Used, DirectBlocks,
         FirstMapped, Kept, DirectoryNode, TailAt, InodeUsed;
    AddedThenRemoved(d, p, e, n, d1, d2);
    MadeRemovable(d, p, name, e, n, d1);
    MadeBlock(d, p, name, e, n, d1);
    if e.inode <= 30 {
      UsedDetermines(d2, d);
    } else {
      assert n.block[0] in Used(d2) && n.block[0] !in Used(d);
      SameBitmap(d2, d);
    }
  }

  lemma SameBitmap(d: Image, d': Image)
    ensures d[BLOCK_BITMAP] == d'[BLOCK_BITMAP] ==> Used(d) == Used(d')
  {
  }

  // What is freed of the block that was taken.
  lemma MadeBlock(d: Image, p: int, name: Name, e: Entry, n: Inode, d1: Image)
    requires 1 <= p <= INODES_PER_GROUP && CreatedAs(d, p, name, e, n, d1) && 1 <= e.inode <= INODES_PER_GROUP
    ensures FirstMapped(n, 12) == {n.block[0]} && n.block[0] !in Used(d)
    ensures DirectBlocks(Kept(e.inode, n)) == if e.inode <= 30 then {n.block[0]} else {}
  {
    hide NodeAt, DirEntries, Grafted, Used, Kept, Chain, Entries, Last, EntryFits;
    KeptBlock(e.inode, n);
    assert n.blocks == 1 && forall k :: 1 <= k < 15 ==> n.block[k] == 0;
    assert FirstMapped(n, 12) == {n.block[0]};
    if e.inode <= 30 {
      assert DirectBlocks(Kept(e.inode, n)) == {n.block[0]};
    } else {
      assert DirectBlocks(BlankInode()) == {};
    }
  }

  lemma MadeRemovable(d: Image, p: int, name: Name, e: Entry, n: Inode, d1: Image)
    requires Healthy(d) && 1 <= p <= INODES_PER_GROUP && CreatedAs(d, p, name, e, n, d1) && !IsDot(name) && name != []
    ensures DeleteDirectoryOutcome(d1, p, name) == 0
  {
    hide NodeAt, DirEntries, Healthy, EntryFits, FreshBlocks, DeleteDirectoryOutcome, DirMap, TailAt, Grafted, IsDot;
    CreatedIsMade(d, p, name, e, n, d1);
    DeleteDirectoryExact(d1, p, name);
    LookupIsMap(d1, p, name);
    LastWithout(d, p, e, n, d1);
    MadeFound(d, p, e, n);
    if IsDir(d1, e.inode) {
      MadeOnlyDots(d, p, name, e, n, d1);
    }
  }

  lemma MadeFound(d: Image, p: int, e: Entry, n: Inode)
    requires 1 <= p <= INODES_PER_GROUP && EntryFits(d, p, e, n)
    ensures var es := DirEntries(d, p); Find(es + [e], e.name) == |es|
  {
    hide NodeAt, DirEntries;
    FindAppend(DirEntries(d, p), e, e.name);
  }

  lemma MadeOnlyDots(d: Image, p: int, name: Name, e: Entry, n: Inode, d1: Image)
    requires Healthy(d) && 1 <= p <= INODES_PER_GROUP && CreatedAs(d, p, name, e, n, d1) && IsDir(d1, e.inode)
    ensures DirMap(d1, e.inode).Keys == {DOT, DOTDOT}
  {
    hide NodeAt, DirEntries, Healthy, EntryFits, FreshBlocks, DirMap, TailAt, Grafted, Kept;
    CreatedIsMade(d, p, name, e, n, d1);
    GraftedRecord(d, p, e, n, d1);
    KeptBlock(e.inode, n);
    assert !IsDirectory(BlankInode());
    if e.inode <= 30 {
      MadeMap(d1, e.inode, p, 10);
    }
  }

  lemma GraftedRecord(d: Image, p: int, e: Entry, n: Inode, d1: Image)
    requires Added(d, p, e, n, d1)
    ensures 1 <= e.inode <= INODES_PER_GROUP && NodeAt(d1, e.inode) == Kept(e.inode, n)
  {
    hide NodeAt, DirEntries, KeepsBlocks, Lists, FreshTree, FreshBlocks, Kept, NewDirectory;
  }

  /** copy_file and then delete_file of the copy: the second always succeeds, and afterwards the
      directory lists what it listed, the same inodes are live, and for an inode that reaches the
      disk the block bitmap is as it was. */
  lemma CopiedThenRemoved(d: Image, p: int, src: Name, dst: Name, e: Entry, m: Inode, d1: Image, d2: Image)
    requires Healthy(d) && Copied(d, p, src, dst, e, m, d1) && dst != []
    requires Removed(d1, p, Find(DirEntries(d1, p), dst), d2)
    ensures DeleteFileOutcome(d1, p, dst) == 0
    ensures DirMap(d2, p) == DirMap(d, p) && LiveInodes(d2) == LiveInodes(d)
    ensures e.inode <= 29 ==> d2[BLOCK_BITMAP] == d[BLOCK_BITMAP]
  {
    hide NodeAt, DirEntries, Healthy, Added, EntryFits, Removed, Used, DirectBlocks, FirstMapped, Kept, InodeUsed,
         Target, CopiedTo, BlocksToCopy;
    AddedThenRemoved(d, p, e, m, d1, d2);
    LastWithout(d, p, e, m, d1);
    MadeFound(d, p, e, m);
    if e.inode <= 29 {
      KeptWhole(e.inode, m);
      CopyFreed(d, p, src, dst, e, m, d1);
      assert FirstMapped(m, 12) !! Used(d) by { CopyFresh(d, p, e, m, d1); }
      UsedDetermines(d2, d);
    }
  }

  lemma CopyFresh(d: Image, p: int, e: Entry, m: Inode, d1: Image)
    requires Added(d, p, e, m, d1)
    ensures FirstMapped(m, 12) !! Used(d)
  {
    hide NodeAt, DirEntries, Grafted, Used;
  }

  lemma CopyFreed(d: Image, p: int, src: Name, dst: Name, e: Entry, m: Inode, d1: Image)
    requires Copied(d, p, src, dst, e, m, d1)
    ensures DirectBlocks(m) == FirstMapped(m, 12)
  {
    hide NodeAt, DirEntries, Added, EntryFits, Target;
  }
}
