/** The disk the machine boots from, a formatted one with a program written into its root, and
    a disk filled to the last block: what the calls do there. */
module FsBoot {
  import opened Bytes
  import opened Bitmap
  import opened Layout
  import opened BlockTree
  import opened Growth
  import opened Contents
  import opened Directory
  import opened DirSlots
  import opened FsState
  import opened FsEffects
  import opened FsStaging
  import opened FsOps
  import opened FsDelete
  import opened FsMove
  import opened FsFormat
  import opened FsWrite
  import opened FsRuns

  // d is a formatted disk, and d' the one after a file was written into its root.
  ghost predicate Boot(d: Image, name: Name, data: seq<byte>, i: int, n: Inode, d': Image) {
    && Formatted(d) && WriteOutcome(d, ROOT, name, |data|) == 0
    && WrittenAs(d, ROOT, name, false, data, i, n, d')
  }

  lemma RootOfFormatted(d: Image)
    requires Formatted(d)
    ensures Healthy(d) && IsDir(d, ROOT)
    ensures DirEntries(d, ROOT) == Dots(ROOT, ROOT) && DirBlock(d, ROOT) == FIRST_FREE_BLOCK
    ensures |Used(d)| == FIRST_FREE_BLOCK + 1 && forall i :: InodeUsed(d, i) <==> i == ROOT
  {
    hide NodeAt, Chain, Entries, Last, Healthy;
    FormattedHealthy(d);
    RootDirectory(d);
    CountBelow(Used(d), FIRST_FREE_BLOCK + 1);
  }

  lemma CountBelow(s: set<int>, n: nat)
    requires forall b :: b in s <==> 0 <= b < n
    ensures |s| == n
  {
    assert s == Below(n);
  }

  /** On a formatted disk every name that is not empty and not a dot can be written. */
  lemma BootOutcome(d: Image, name: Name, data: seq<byte>)
    requires Formatted(d)
    ensures WriteOutcome(d, ROOT, name, |data|) == 0 <==>
            Cut(name) != [] && !IsDot(Cut(name)) && |data| <= MAX_FILE
    ensures Fits(d, ROOT, name)
  {
    hide NodeAt, Chain, Entries, Last, Healthy, MAX_FILE;
    RootOfFormatted(d);
    var es := Dots(ROOT, ROOT);
    DotsAreDots(ROOT, ROOT);
    FindUsedIs(es, DOT, 0);
    FindUsedIs(es, DOTDOT, 1);
    if !IsDot(Cut(name)) {
      FindUsedIs(es, Cut(name), 2);
    }
    assert !InodeUsed(d, 1);
    assert BlockAt(d, DirBlock(d, ROOT)) == d[FIRST_FREE_BLOCK];
  }

  /** Format, then write, is a run: the image is healthy, the root lists "." and the file, which
      has inode 1 and reads back. */
  lemma BootImage(d: Image, name: Name, data: seq<byte>, i: int, n: Inode, d': Image)
    requires Boot(d, name, data, i, n, d')
    ensures i == 1 && NodeAt(d', 1) == n && Healthy(d') && IsDir(d', ROOT)
    ensures DirEntries(d', ROOT) == [Entry(ROOT, FT_DIR, DOT), Entry(1, FT_REG, Cut(name))]
    ensures forall size :: size >= |data| && size > 0 ==> ReadOutcome(d', ROOT, name, size) == 0
    ensures ReadsAs(d', ROOT, name, data)
    ensures |Used(d')| == FIRST_FREE_BLOCK + 1 + Cost(false, |data|)
  {
    hide NodeAt, Healthy, DirEntries, Fits, Formatted, WriteOutcome, ReadOutcome, ReadsAs, Grafted, Kempt, Last,
         FileContent, FilledTo, Chain, Cost, KeptPointers, InodeUsed;
    RootOfFormatted(d);
    HealthyKempt(d);
    BootOutcome(d, name, data);
    KeptWhole(1, n);
    assert i == 1 by { FirstIsOne(d, i); }
    WrittenEntries(d, ROOT, name, false, data, i, n, d');
    WrittenHealthy(d, ROOT, name, false, data, i, n, d');
    assert Entered(Dots(ROOT, ROOT), 1, Entry(1, FT_REG, Cut(name))) ==
           [Entry(ROOT, FT_DIR, DOT), Entry(1, FT_REG, Cut(name))];
    forall size | size >= |data| && size > 0 ensures ReadOutcome(d', ROOT, name, size) == 0 {
      WriteThenRead(d, ROOT, name, data, i, n, d', size);
    }
    WriteThenRead(d, ROOT, name, data, i, n, d', |data| + 1);
  }

  lemma FirstIsOne(d: Image, i: int)
    requires FirstFreeInode(d, i) && forall k :: InodeUsed(d, k) <==> k == ROOT
    ensures i == 1
  {
    hide InodeUsed;
    assert !InodeUsed(d, 1);
  }

  /** What is on the disk then, byte for byte: the second record of the root, which marks a file with
      kind 1, … */
  lemma BootBytes(d: Image, name: Name, data: seq<byte>, i: int, n: Inode, d': Image)
    requires Boot(d, name, data, i, n, d')
    ensures var b, s := d'[9], Cut(name);
      && b[12] == 1 && b[13] == 0 && b[14] == 0 && b[15] == 0 && b[16] == 0xF4 && b[17] == 1
      && b[18] == |s| && b[19] == 0 && b[20] == 1 && forall k :: 0 <= k < |s| ==> b[21 + k] == s[k]
  {
    BootBlock(d, name, data, i, n, d');
    hide Boot, RecordAt, EntryAt, RecLen;
    FileRecord(d'[9], Cut(name));
  }

  lemma FileRecord(b: Block, s: seq<byte>)
    requires RecordAt(b, 12) && RecLen(b, 12) == 500 && EntryAt(b, 12) == Entry(1, FT_REG, s) && |s| < 256
    ensures b[12] == 1 && b[13] == 0 && b[14] == 0 && b[15] == 0 && b[16] == 0xF4 && b[17] == 1
    ensures b[18] == |s| && b[19] == 0 && b[20] == 1 && forall k :: 0 <= k < |s| ==> b[21 + k] == s[k]
  {
    hide RecordAt, EntryAt, RecLen;
    ShownRecord(b, 12, 1, 500, FT_REG, s);
    forall k | 0 <= k < |s| ensures b[21 + k] == s[k] {
      assert b[12 + 9 + k] == s[k];
    }
  }

  /** … and kind and size in the record of inode 1. */
  lemma BootNode(d: Image, name: Name, data: seq<byte>, i: int, n: Inode, d': Image)
    requires Boot(d, name, data, i, n, d')
    ensures var t := d'[5];
      t[0] == 0 && t[1] == 0x80 && Four(t[2], t[3], t[4], t[5]) == |data|
  {
    BootBlock(d, name, data, i, n, d');
    BootRead(d, name, data, i, n, d');
    hide Boot, NodeAt, FieldsAt, TableBytes;
    NodeBytes(d', 1);
    FirstRecord(TableBytes(d'), n);
    TableStart(d');
  }

  lemma BootRead(d: Image, name: Name, data: seq<byte>, i: int, n: Inode, d': Image)
    requires Boot(d, name, data, i, n, d')
    ensures NodeAt(d', 1) == n
  {
    hide NodeAt, Chain, Entries, Last, Healthy, Grafted, FileContent, FilledTo, Cost, WriteOutcome, Kempt;
    RootOfFormatted(d);
    BootImage(d, name, data, i, n, d');
  }

  lemma TableStart(d: Image)
    ensures forall j :: 0 <= j < 6 ==> TableBytes(d)[j] == d[5][j]
  {
  }

  lemma FirstRecord(t: seq<byte>, n: Inode)
    requires |t| == TABLE_SIZE && FieldsAt(t, 0, n) && n.mode == IFREG
    ensures t[0] == 0 && t[1] == 0x80 && Four(t[2], t[3], t[4], t[5]) == n.size
  {
  }

  lemma BootBlock(d: Image, name: Name, data: seq<byte>, i: int, n: Inode, d': Image)
    requires Boot(d, name, data, i, n, d')
    ensures RecordAt(d'[9], 12) && RecLen(d'[9], 12) == 500
    ensures EntryAt(d'[9], 12) == Entry(1, FT_REG, Cut(name)) && n.mode == IFREG && n.size == |data|
  {
    hide NodeAt, Chain, Entries, Last, Healthy, Grafted, FileContent, FilledTo, Cost, WriteOutcome, Kempt;
    RootOfFormatted(d);
    BootImage(d, name, data, i, n, d');
    HealthyKempt(d);
    WrittenEntries(d, ROOT, name, false, data, i, n, d');
    assert DirBlock(d', ROOT) == FIRST_FREE_BLOCK;
    var b := d'[FIRST_FREE_BLOCK];
    assert Last(b, 0) == DOT_LENGTH && Entries(b, 0) == DirEntries(d', ROOT);
    LastEntry(b, 0);
  }

  /** And it is a run of the kind the run theorem is about. */
  lemma BootRun(d: Image, name: Name, data: seq<byte>, i: int, n: Inode, d': Image)
    requires Boot(d, name, data, i, n, d') && Cost(false, |data|) <= BITS - FIRST_FREE_BLOCK - 1
    ensures Run([d, d'], [Put(ROOT, name, false, data)], [0])
  {
    hide NodeAt, DirEntries, Fits, Formatted, WriteOutcome, WrittenAs, Cost, Healthy, Dots;
    RootOfFormatted(d);
    var r := Put(ROOT, name, false, data);
    assert |Dots(ROOT, ROOT)| == 2 by { DotsAreTwo(); }
    assert HasFile(d, ROOT, name, false, data, d');
    BootSize(d, name, data);
    assert CallAt(d, r, 0, d');
  }

  lemma DotsAreTwo()
    ensures |Dots(ROOT, ROOT)| == 2
  {
  }

  lemma BootSize(d: Image, name: Name, data: seq<byte>)
    requires WriteOutcome(d, ROOT, name, |data|) == 0
    ensures |data| < 0x1_0000_0000
  {
    hide NodeAt, DirEntries;
  }

  // The room that is left behind the file's record.
  lemma BootRoom(d: Image, name: Name, data: seq<byte>, i: int, n: Inode, d': Image, len: nat)
    requires Boot(d, name, data, i, n, d')
    ensures DirHasRoom(d', ROOT, len) <==> |Cut(name)| + len <= 482
  {
    hide NodeAt, Chain, Entries, Last, Healthy, Grafted, FileContent, FilledTo, Cost, WriteOutcome, Kempt;
    RootOfFormatted(d);
    BootImage(d, name, data, i, n, d');
    HealthyKempt(d);
    WrittenEntries(d, ROOT, name, false, data, i, n, d');
    assert DirBlock(d', ROOT) == FIRST_FREE_BLOCK;
    var b := d'[FIRST_FREE_BLOCK];
    assert Last(b, 0) == DOT_LENGTH && Entries(b, 0) == DirEntries(d', ROOT);
    LastEntry(b, 0);
  }

  /** On the boot disk copying the file succeeds for every new name that finds room, unless the
      blocks run out. */
  lemma BootCopy(d: Image, name: Name, data: seq<byte>, i: int, n: Inode, d': Image, dst: Name)
    requires Boot(d, name, data, i, n, d') && dst != [] && dst != DOT && dst != Cut(name)
    ensures CopyOutcome(d', ROOT, Cut(name), dst) ==
            if |Used(d')| + CopyCost(n) > BITS then -5 else if |Cut(name)| + |dst| > 482 then -8 else 0
    ensures Target(d', ROOT, Cut(name)) == 1 && DeleteFileOutcome(d', ROOT, Cut(name)) == 0
  {
    hide NodeAt, Chain, Entries, Last, Healthy, Grafted, FileContent, FilledTo, Cost, DirHasRoom, DirEntries, CopyCost,
         Formatted, InodeUsed;
    BootImage(d, name, data, i, n, d');
    BootRoom(d, name, data, i, n, d', |dst|);
    BootNames(d, name, data, dst);
    BootFree(d, name, data, i, n, d');
    BootParent(d', n);
  }

  lemma BootNames(d: Image, name: Name, data: seq<byte>, dst: Name)
    requires Formatted(d) && WriteOutcome(d, ROOT, name, |data|) == 0 && dst != DOT && dst != Cut(name)
    ensures Cut(name) != []
    ensures var es := [Entry(ROOT, FT_DIR, DOT), Entry(1, FT_REG, Cut(name))];
      Find(es, Cut(name)) == 1 && Find(es, dst) == 2
  {
    hide Formatted, WriteOutcome, Find;
    BootOutcome(d, name, data);
    var es := [Entry(ROOT, FT_DIR, DOT), Entry(1, FT_REG, Cut(name))];
    FindIs(es, Cut(name), 1);
    FindIs(es, dst, 2);
  }

  lemma BootFree(d: Image, name: Name, data: seq<byte>, i: int, n: Inode, d': Image)
    requires Boot(d, name, data, i, n, d')
    ensures !NoFreeInode(d') && !IsDirectory(n)
  {
    hide NodeAt, Chain, Entries, Last, FreshTree, KeepsBlocks, Lists, DirEntries, FileContent, FilledTo, Cost, Kept;
    FirstIsOne(d, i);
    assert !InodeUsed(d', 3);
  }

  lemma BootParent(d': Image, n: Inode)
    requires IsDir(d', ROOT)
    ensures IsDirectory(NodeAt(d', ROOT))
  {
  }

  /** There mv, too, succeeds: all that it asks for is met as long as the file leaves the disk at
      most a block group full. */
  lemma BootMove(d: Image, name: Name, data: seq<byte>, i: int, n: Inode, d': Image, dst: Name)
    requires Boot(d, name, data, i, n, d') && |Used(d')| + CopyCost(n) <= BLOCKS_PER_GROUP
    requires dst != [] && dst != DOT && dst != Cut(name) && |Cut(name)| + |dst| <= 482
    ensures CopyOutcome(d', ROOT, Cut(name), dst) == 0 && CopyLow(d', ROOT, Cut(name), dst)
    ensures LowDirect(NamedNode(d', ROOT, Cut(name)))
  {
    hide NodeAt, Healthy, Formatted, WriteOutcome, CopyOutcome, CopyCost, DirEntries, Target, WrittenAs, ReadsAs, Cost;
    BootCopy(d, name, data, i, n, d', dst);
    BootImage(d, name, data, i, n, d');
    BootLow(d, name, data, i, n, d');
  }

  lemma BootLow(d: Image, name: Name, data: seq<byte>, i: int, n: Inode, d': Image)
    requires Boot(d, name, data, i, n, d') && |Used(d')| <= BLOCKS_PER_GROUP
    ensures LowBlocks(n)
  {
    hide NodeAt, Formatted, WriteOutcome, DirEntries, Lists, KeepsBlocks, FileContent, FilledTo, Cost, InodeAdded,
         Chain,
         Last, NewDirectory, Tree;
    forall k | 0 <= k < 12 ensures n.block[k] < BLOCKS_PER_GROUP {
      assert Ptr(d', n, Direct(k)) == n.block[k];
    }
  }

  /** What that move does, for a file of at most twelve blocks: the root lists "." and the new name,
      which leads to inode 3 with the data that was written, and no block was lost. */
  lemma BootMoved(d: Image, name: Name, data: seq<byte>, i: int, n: Inode, d': Image, dst: Name,
                  e: Entry, m: Inode, d1: Image, d2: Image)
    requires Boot(d, name, data, i, n, d') && |data| <= 12 * BLOCK_SIZE
    requires Moved(d', ROOT, Cut(name), dst, e, m, d1, d2) && dst != DOT && dst != Cut(name)
    ensures e == Entry(3, FT_REG, dst) && FileContent(d2, NodeAt(d2, 3)) == data
    ensures DirMap(d2, ROOT) == map[DOT := Entry(ROOT, FT_DIR, DOT), dst := e]
    ensures |Used(d2)| == FIRST_FREE_BLOCK + 1 + BlocksFor(|data|)
  {
    hide NodeAt, Healthy, Formatted, WriteOutcome, CopyOutcome, DirEntries, Target, ReadsAs, Cost, FileContent, Moved,
         WrittenAs, InodeUsed, DirMap;
    BootImage(d, name, data, i, n, d');
    BootTarget(d, name, data, i, n, d', dst);
    BootInode(d, name, data, i, n, d', dst, e, m, d1, d2);
    BootData(d, name, data, i, n, d');
    SmallMove(d', ROOT, Cut(name), dst, e, m, d1, d2);
    MovedMap(d', ROOT, Cut(name), dst, e, m, d1, d2);
    BootBindings(d', Cut(name), dst, e);
    assert Cost(false, |data|) == BlocksFor(|data|) by { SmallCost(|data|); }
  }

  lemma SmallCost(size: nat)
    requires size <= 12 * BLOCK_SIZE
    ensures Cost(false, size) == BlocksFor(size)
  {
  }

  lemma BootTarget(d: Image, name: Name, data: seq<byte>, i: int, n: Inode, d': Image, dst: Name)
    requires Boot(d, name, data, i, n, d') && dst != DOT && dst != Cut(name)
    ensures Target(d', ROOT, Cut(name)) == 1 && Cut(name) != DOT
  {
    hide NodeAt, Healthy, Formatted, WriteOutcome, WrittenAs, DirEntries, ReadsAs, Cost;
    BootImage(d, name, data, i, n, d');
    BootOutcome(d, name, data);
    BootNames(d, name, data, dst);
  }

  lemma BootInode(d: Image, name: Name, data: seq<byte>, i: int, n: Inode, d': Image, dst: Name,
                  e: Entry, m: Inode, d1: Image, d2: Image)
    requires Boot(d, name, data, i, n, d') && Moved(d', ROOT, Cut(name), dst, e, m, d1, d2)
    ensures e == Entry(3, FT_REG, dst)
  {
    hide NodeAt, Healthy, WriteOutcome, CopyOutcome, DirEntries, Target, Cost, FileContent, Removed, Added, CopiedTo,
         EntryFits, FreshTree, KeepsBlocks, Lists, Chain, Last, FilledTo, Kept, Entries;
    FirstIsOne(d, i);
    assert InodeUsed(d', 1) && InodeUsed(d', 2) && !InodeUsed(d', 3);
  }

  lemma BootData(d: Image, name: Name, data: seq<byte>, i: int, n: Inode, d': Image)
    requires Boot(d, name, data, i, n, d')
    ensures FileContent(d', n) == data && n.size == |data|
  {
    hide NodeAt, Formatted, WriteOutcome, DirEntries, Grafted, FileContent, FilledTo, Cost, Chain, Last;
  }

  lemma BootBindings(d': Image, name: seq<byte>, dst: seq<byte>, e: Entry)
    requires DirEntries(d', ROOT) == [Entry(ROOT, FT_DIR, DOT), Entry(1, FT_REG, name)] && name != DOT
    ensures (DirMap(d', ROOT) - {name})[dst := e] == map[DOT := Entry(ROOT, FT_DIR, DOT)][dst := e]
  {
    hide DirEntries, Find;
    var es := [Entry(ROOT, FT_DIR, DOT), Entry(1, FT_REG, name)];
    FindIs(es, DOT, 0);
    FindIs(es, name, 1);
    assert Bindings(es) == map[DOT := es[0], name := es[1]];
  }

  const FILLING := 4053

  /** A file of 4053 blocks fills a formatted disk exactly; from then on every copy of it runs out
      of blocks and is rolled back, and nothing it asks for is missing. */
  lemma DiskFull(d: Image, name: Name, data: seq<byte>, i: int, n: Inode, d': Image, dst: Name)
    requires Boot(d, name, data, i, n, d') && |data| == FILLING * BLOCK_SIZE
    requires dst != [] && dst != DOT && dst != Cut(name)
    ensures |Used(d')| == BITS && Healthy(d')
    ensures CopyOutcome(d', ROOT, Cut(name), dst) == -5 && Lawful(d', Copy(ROOT, Cut(name), dst))
  {
    hide NodeAt, Healthy, Formatted, WriteOutcome, CopyOutcome, DirEntries, Target, WrittenAs, ReadsAs, CopyCost;
    BootImage(d, name, data, i, n, d');
    BootCopy(d, name, data, i, n, d', dst);
    assert Cost(false, |data|) == BITS - FIRST_FREE_BLOCK - 1;
    BootCost(d, name, data, i, n, d');
    AllUsedLow(d', CopyCost(n));
  }

  lemma BootCost(d: Image, name: Name, data: seq<byte>, i: int, n: Inode, d': Image)
    requires Boot(d, name, data, i, n, d') && |data| == FILLING * BLOCK_SIZE
    ensures CopyCost(n) > 0
  {
    hide NodeAt, Formatted, WriteOutcome, DirEntries, Grafted, FileContent, Cost, Chain, Last;
    assert n.blocks == FILLING && BlocksToCopy(n) == 12;
    assert Ptr(d', n, Direct(0)) == n.block[0] && Needed(Direct(0), n.blocks);
    MappedMonotone(n, 1, 12);
    assert Mapped(n, 0) == 0;
  }

  lemma AllUsedLow(d: Image, n: nat)
    requires |Used(d)| == BITS
    ensures AllocatesLow(Used(d), n)
  {
    MarkedSize(d[BLOCK_BITMAP]);
  }
}
