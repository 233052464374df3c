/** The file system's own read, write and delete. */
module FsWrite {
  import opened Bytes
  import opened Bitmap
  import opened Layout
  import opened BlockTree
  import opened Growth
  import opened Contents
  import Release
  import opened Directory
  import opened DirSlots
  import opened FsState
  import opened FsEffects
  import opened FsStaging
  import opened Volume
  import opened FileStore
  import opened Files
  import Teardown
  import opened FsOps
  import opened FsFormat

  const MAX_FILE := MAX_BLOCKS * BLOCK_SIZE

  // Blocks that a write takes.
  function Cost(isDir: bool, size: nat): nat {
    if isDir then 1 else BlocksFor(size) + Overhead(BlocksFor(size))
  }

  function WriteOutcome(d: Image, p: int, name: Name, size: nat): int
    requires 1 <= p <= INODES_PER_GROUP
  {
    if Cut(name) == [] || size > MAX_FILE then -1
    else if !IsDirectory(NodeAt(d, p)) then 2
    else if FindUsed(DirEntries(d, p), Cut(name)) < |DirEntries(d, p)| then 1
    else if NoFreeInode(d) then -1
    else 0
  }

  // The blocks of new inode i were filled; only blocks that were free before changed.
  ghost predicate Built(d: Image, p: int, i: int, n: Inode, d': Image) {
    && FreshTree(d, n, d') && d'[INODE_BITMAP] == d[INODE_BITMAP] && WellMade(p, i, n, d')
    && (forall b :: 0 <= b < DISK_BLOCKS && b != BLOCK_BITMAP && d'[b] != d[b] ==> b in Used(d') && b !in Used(d))
  }

  lemma BuiltByWriting(d: Image, p: int, i: int, n: Inode, k: nat, d': Image)
    requires 1 <= p <= INODES_PER_GROUP && 1 <= i <= INODES_PER_GROUP
    requires Written(d, d', n, k) && !IsDirectory(n) && n.blocks == BlocksFor(n.size)
    ensures Built(d, p, i, n, d') && |Used(d')| == |Used(d)| + k + Overhead(k) && FilledTo(d', n, k)
  {
    hide Tree, FilledTo, BlocksFor, Overhead;
    assert INODE_BITMAP in Used(d);
  }

  lemma DirectorySlots(d: Image, b: u32, s: Slot)
    requires Valid(s)
    ensures Ptr(d, DirectoryNode(b), s) == if s == Direct(0) then b else 0
  {
  }

  lemma BuiltDirectory(d: Image, p: int, i: int, b: int, d1: Image, table: Block, d2: Image)
    requires 1 <= p <= INODES_PER_GROUP && 1 <= i <= INODES_PER_GROUP
    requires ReservedUsed(d) && Took(d, b, d1) && d2 == d1[b := table]
    requires Chain(table, 0) && Entries(table, 0) == Dots(i, p)
    ensures b > 0 && Built(d, p, i, DirectoryNode(b), d2) && |Used(d2)| == |Used(d)| + 1
    ensures FilledTo(d2, DirectoryNode(b), 1) && BlockAt(d2, b) == table
  {
    hide Chain, Entries, Dots;
    TookBound(d, b, d1);
    forall s | Valid(s) ensures Ptr(d2, DirectoryNode(b), s) == if s == Direct(0) then b else 0 {
      DirectorySlots(d2, b, s);
    }
    assert Ptr(d2, DirectoryNode(b), Direct(0)) == b;
  }

  // Kind, size and block count of a new record.
  predicate Labelled(n: Inode, isDir: bool, size: nat) {
    if isDir then n.mode == IFDIR && n.size == BLOCK_SIZE && n.blocks == 1
    else n.mode == IFREG && n.size == size && n.blocks == BlocksFor(size)
  }

  /** Makes the record of the new inode and fills its blocks. */
  method Build(v: Volume, isDir: bool, data: seq<byte>, i: int, p: int) returns (n: Inode)
    requires v.Valid() && ReservedUsed(v.Image()) && |data| <= MAX_FILE
    requires 1 <= p <= INODES_PER_GROUP && 1 <= i <= INODES_PER_GROUP
    requires |Used(v.Image())| + Cost(isDir, |data|) <= BITS
    modifies v.disk
    ensures Built(old(v.Image()), p, i, n, v.Image())
    ensures Labelled(n, isDir, |data|) && |Used(v.Image())| == |Used(old(v.Image()))| + Cost(isDir, |data|)
    ensures FilledTo(v.Image(), n, n.blocks) && (!isDir ==> FileContent(v.Image(), n) == data)
    ensures isDir ==> TailAt(v.Image(), n.block[0], 12)
  {
    hide Built, FileContent, FilledTo, TailAt;
    if isDir {
      n := BuildDirectory(v, i, p);
    } else {
      n := BuildFile(v, data, i, p);
    }
  }

  method BuildDirectory(v: Volume, i: int, p: int) returns (n: Inode)
    requires v.Valid() && ReservedUsed(v.Image()) && |Used(v.Image())| < BITS
    requires 1 <= p <= INODES_PER_GROUP && 1 <= i <= INODES_PER_GROUP
    modifies v.disk
    ensures Built(old(v.Image()), p, i, n, v.Image()) && Labelled(n, true, 0)
    ensures |Used(v.Image())| == |Used(old(v.Image()))| + 1 && FilledTo(v.Image(), n, n.blocks)
    ensures TailAt(v.Image(), n.block[0], 12)
  {
    hide Chain, Entries, Built, Dots, Last, FilledTo;
    ghost var d := v.Image();
    var b := v.AllocateBlock();
    ghost var d1 := v.Image();
    FirstFitBound(d[BLOCK_BITMAP], b);
    var table := DirectoryTable(i, p);
    v.WriteBlock(table, b);
    n := DirectoryNode(b);
    BuiltDirectory(d, p, i, b, d1, table, v.Image());
  }

  method BuildFile(v: Volume, data: seq<byte>, i: int, p: int) returns (n: Inode)
    requires v.Valid() && ReservedUsed(v.Image()) && |data| <= MAX_FILE
    requires 1 <= p <= INODES_PER_GROUP && 1 <= i <= INODES_PER_GROUP
    requires |Used(v.Image())| + Cost(false, |data|) <= BITS
    modifies v.disk
    ensures Built(old(v.Image()), p, i, n, v.Image()) && Labelled(n, false, |data|)
    ensures |Used(v.Image())| == |Used(old(v.Image()))| + Cost(false, |data|)
    ensures FileContent(v.Image(), n) == data && FilledTo(v.Image(), n, n.blocks)
  {
    hide Written, Built, FileContent, FilledTo;
    ghost var d := v.Image();
    var cell := new InodeCell(Inode(IFREG, |data|, 0, NoPointers()));
    if |data| > 0 {
      AllocateNodeBlocks(v, data, cell);
      assert data[..|data|] == data;
    } else {
      WrittenNothing(d, cell.node);
      assert FileContent(v.Image(), cell.node) == data by { EmptyContent(v.Image(), cell.node); }
    }
    n := cell.node;
    BuiltByWriting(d, p, i, n, BlocksFor(|data|), v.Image());
  }

  lemma EmptyContent(d: Image, n: Inode)
    requires n.size == 0
    ensures FileContent(d, n) == []
  {
  }

  // The stages of a write: the inode bit (d1), the blocks (d2), the record (d3) and, if the
  // entry fits, the block of the parent (d4).
  ghost predicate Stages(d: Image, p: int, e: Entry, n: Inode, d1: Image, d2: Image, d3: Image, b: Block, d4: Image) {
    && 1 <= e.inode <= INODES_PER_GROUP && !InodeUsed(d, e.inode)
    && d1 == d[INODE_BITMAP := SetBit(d[INODE_BITMAP], e.inode - 1)]
    && Built(d1, p, e.inode, n, d2) && NodeWritten(d2, e.inode, n, d3)
    && 1 <= p <= INODES_PER_GROUP && FIRST_FREE_BLOCK <= DirBlock(d, p) < BITS
    && d4 == d3[DirBlock(d, p) := b]
  }

  lemma StagesKeep(d: Image, p: int, e: Entry, n: Inode, d1: Image, d2: Image, d3: Image, b: Block, d4: Image)
    requires Kempt(d) && IsDir(d, p) && Stages(d, p, e, n, d1, d2, d3, b, d4)
    ensures KeepsBlocks(d, {DirBlock(d, p)}, d4) && d3[DirBlock(d, p)] == d[DirBlock(d, p)]
    ensures Used(d4) == Used(d2)
    ensures forall x :: x in Used(d2) && FIRST_FREE_BLOCK <= x < BITS && x != DirBlock(d, p) ==> d4[x] == d2[x]
  {
    hide NodeAt, RecordWritten, FreshTree, WellMade, Kempt;
    DirBlockOwn(d, p);
  }

  lemma StagesAdd(d: Image, p: int, e: Entry, n: Inode, d1: Image, d2: Image, d3: Image, b: Block, d4: Image)
    requires Kempt(d) && IsDir(d, p) && Stages(d, p, e, n, d1, d2, d3, b, d4)
    ensures InodeAdded(d, e.inode, n, d4)
  {
    hide NodeAt, RecordWritten, FreshTree, WellMade, Apart, Sound, DirTiled, NamedOnce, Kept;
    InodeMarked(d, e.inode, d4);
    ReadAfterWrite(d2, e.inode, n, d3);
    TableFrame(d3, d4);
    TableSame(d, p, e.inode, d1, n, d2);
  }

  lemma TableSame(d: Image, p: int, i: int, d1: Image, n: Inode, d2: Image)
    requires Kempt(d) && Built(d1, p, i, n, d2) && d1 == d[INODE_BITMAP := d1[INODE_BITMAP]]
    ensures forall k :: 1 <= k <= INODES_PER_GROUP ==> NodeAt(d2, k) == NodeAt(d, k)
  {
    hide NodeAt, FreshTree, WellMade, Apart, Sound, DirTiled, NamedOnce;
    assert d1[BLOCK_BITMAP] == d[BLOCK_BITMAP];
    forall b | 5 <= b < 9 ensures d2[b] == d[b] {
      assert b in Used(d) && b in Used(d1);
    }
    TableFrame(d, d2);
  }

  // The new inode's tree, contents and, for a directory, entries survive the last two stages.
  lemma StagesTree(d: Image, p: int, e: Entry, n: Inode, d1: Image, d2: Image, d3: Image, b: Block, d4: Image)
    requires Kempt(d) && IsDir(d, p) && Stages(d, p, e, n, d1, d2, d3, b, d4)
    ensures Tree(d4, n, Used(d4)) && FileContent(d4, n) == FileContent(d2, n)
    ensures forall s :: Valid(s) ==> Ptr(d4, n, s) == Ptr(d2, n, s)
    ensures forall s :: Valid(s) && Ptr(d2, n, s) != 0 ==>
      Ptr(d2, n, s) != DirBlock(d, p) && d4[Ptr(d2, n, s)] == d2[Ptr(d2, n, s)]
  {
    hide NodeAt, NodeWritten, WellMade, FileContent, Kempt, Owns;
    StagesKeep(d, p, e, n, d1, d2, d3, b, d4);
    DirBlockOwn(d, p);
    var used := Used(d2) - {DirBlock(d, p)};
    assert Tree(d2, n, used);
    ContentFrame(d2, n, used, d4);
  }

  lemma StagesFresh(d: Image, p: int, e: Entry, n: Inode, d1: Image, d2: Image, d3: Image, b: Block, d4: Image)
    requires Kempt(d) && IsDir(d, p) && Stages(d, p, e, n, d1, d2, d3, b, d4)
    ensures FreshTree(d, n, d4)
  {
    hide NodeAt, NodeWritten, WellMade, FileContent, Kempt, Tree, KeepsBlocks;
    StagesKeep(d, p, e, n, d1, d2, d3, b, d4);
    StagesTree(d, p, e, n, d1, d2, d3, b, d4);
    assert Used(d1) == Used(d);
    forall x | x in Used(d4) && x !in Used(d) ensures Owns(d4, n, x) {
      var s :| Valid(s) && Ptr(d2, n, s) == x;
      assert Ptr(d4, n, s) == x;
    }
  }

  lemma StagesMade(d: Image, p: int, e: Entry, n: Inode, d1: Image, d2: Image, d3: Image, b: Block, d4: Image)
    requires Kempt(d) && IsDir(d, p) && Stages(d, p, e, n, d1, d2, d3, b, d4)
    ensures WellMade(p, e.inode, n, d4) && (n.block[0] != 0 ==> BlockAt(d4, n.block[0]) == BlockAt(d2, n.block[0]))
  {
    hide NodeAt, NodeWritten, FileContent, Chain, Entries, Kempt, FreshTree, BlocksFor, Dots;
    StagesTree(d, p, e, n, d1, d2, d3, b, d4);
    assert Ptr(d2, n, Direct(0)) == n.block[0];
    assert n.block[0] != 0 ==> BlockAt(d4, n.block[0]) == BlockAt(d2, n.block[0]);
  }

  lemma StagesGrafted(d: Image, p: int, m: int, e: Entry, n: Inode, d1: Image, d2: Image, d3: Image, b: Block,
                      d4: Image)
    requires Kempt(d) && IsDir(d, p) && Stages(d, p, e, n, d1, d2, d3, b, d4)
    requires Place(DirEntries(d, p), m) && Chain(b, 0) && Entries(b, 0) == Entered(DirEntries(d, p), m, e)
    ensures Grafted(d, p, m, e, n, d4) && FileContent(d4, n) == FileContent(d2, n)
    ensures |Used(d4)| == |Used(d2)| && forall k :: FilledTo(d2, n, k) ==> FilledTo(d4, n, k)
    ensures n.block[0] != 0 ==> BlockAt(d4, n.block[0]) == BlockAt(d2, n.block[0])
  {
    hide NodeAt, FreshTree, FileContent, Chain, Entries, InodeAdded, KeepsBlocks, Entered, DirEntries, Kempt, Built,
         NodeWritten, NewDirectory, Used, BlocksFor, Needed;
    StagesKeep(d, p, e, n, d1, d2, d3, b, d4);
    StagesAdd(d, p, e, n, d1, d2, d3, b, d4);
    StagesTree(d, p, e, n, d1, d2, d3, b, d4);
    StagesFresh(d, p, e, n, d1, d2, d3, b, d4);
    StagesMade(d, p, e, n, d1, d2, d3, b, d4);
  }

  // Looks a name up in directory p.
  method LookUpName(v: Volume, parent: Inode, p: int, name: Name) returns (found: bool, inode: u32, ghost k: nat)
    requires v.Valid() && Kempt(v.Image()) && IsDir(v.Image(), p) && parent == NodeAt(v.Image(), p)
    ensures k == FindUsed(DirEntries(v.Image(), p), Cut(name)) && (found <==> k < |DirEntries(v.Image(), p)|)
    ensures found ==> inode == DirEntries(v.Image(), p)[k].inode
  {
    hide NodeAt, Chain, Entries, Kempt, DirEntries;
    DirBlockOwn(v.Image(), p);
    var b := v.ReadBlock(parent.block[0]);
    found, inode, k := FindInodeInDir(b, name);
  }

  // Where the entry of a write goes: over the last one, or nowhere.
  function Spot(es: seq<Entry>, fits: bool): int { if fits then |es| - 1 else -1 }

  // add_inode_to_dir on the disk: the parent's block is written back only when the entry fits.
  method EnterName(v: Volume, block: int, i: u32, name: Name) returns (fits: bool)
    requires v.Valid() && 0 < block < DISK_BLOCKS && Chain(v.Image()[block], 0) && Cut(name) != []
    modifies v.disk
    ensures fits <==> Overwritable(old(v.Image())[block], |Cut(name)|)
    ensures v.Image() == old(v.Image())[block := v.Image()[block]]
    ensures Chain(v.Image()[block], 0) && Last(v.Image()[block], 0) == Last(old(v.Image())[block], 0)
    ensures var es := Entries(old(v.Image())[block], 0);
      Entries(v.Image()[block], 0) == Entered(es, Spot(es, fits), Entry(i, FT_REG, Cut(name)))
  {
    hide Chain, Entries, Last;
    var buf := Load(v, block);
    fits := AddInodeToDir(buf, i, name);
    if fits {
      v.WriteBlock(buf[..], block);
    }
  }

  // The effect of a successful write.
  ghost predicate WrittenAs(d: Image, p: int, name: Name, isDir: bool, data: seq<byte>, i: int, n: Inode, d': Image) {
    && 1 <= p <= INODES_PER_GROUP && FirstFreeInode(d, i) && 0 < DirBlock(d, p) < DISK_BLOCKS
    && Chain(d[DirBlock(d, p)], 0) && Chain(d'[DirBlock(d, p)], 0)
    && Last(d'[DirBlock(d, p)], 0) == Last(d[DirBlock(d, p)], 0)
    && Grafted(d, p, Spot(DirEntries(d, p), Fits(d, p, name)), Entry(i, FT_REG, Cut(name)), n, d')
    && Labelled(n, isDir, |data|) && |Used(d')| == |Used(d)| + Cost(isDir, |data|)
    && FilledTo(d', n, n.blocks) && (!isDir ==> FileContent(d', n) == data)
    && (isDir ==> TailAt(d', n.block[0], 12))
  }

  // Whether the entry finds room over the last record of directory p.
  predicate Fits(d: Image, p: int, name: Name)
    requires 1 <= p <= INODES_PER_GROUP
  {
    var b := BlockAt(d, DirBlock(d, p));
    Chain(b, 0) && Overwritable(b, |Cut(name)|)
  }

  /** write: refuses without a change, or makes a new inode, fills its blocks, writes its record
      and enters it into the parent, then counts the inode. */
  method Write(v: Volume, p: int, name: Name, isDir: bool, data: seq<byte>)
    returns (rc: int, ghost i: int, ghost n: Inode)
    requires v.Valid() && Kempt(v.Image()) && InodeUsed(v.Image(), p) && |data| < 0x1_0000_0000
    requires WriteOutcome(v.Image(), p, name, |data|) == 0 ==> |Used(v.Image())| + Cost(isDir, |data|) <= BITS
    modifies v.disk, v`sFreeInodes, v`bgFreeInodes, v`bgUsedDirs
    ensures rc == WriteOutcome(old(v.Image()), p, name, |data|)
    ensures rc != 0 ==>
      v.Image() == old(v.Image()) && v.sFreeInodes == old(v.sFreeInodes) && v.bgFreeInodes == old(v.bgFreeInodes)
    ensures v.bgUsedDirs == (old(v.bgUsedDirs) + if rc == 0 && isDir then 1 else 0) % 0x1_0000
    ensures rc == 0 ==> WrittenAs(old(v.Image()), p, name, isDir, data, i, n, v.Image())
    ensures rc == 0 ==> v.sFreeInodes == (old(v.sFreeInodes) - 1) % 0x1_0000_0000
    ensures rc == 0 ==> v.bgFreeInodes == (old(v.bgFreeInodes) - 1) % 0x1_0000
  {
    hide NodeAt, Kempt, DirEntries, Grafted, WrittenAs, Cost;
    ghost var d := v.Image();
    rc, i, n := -1, 0, BlankInode();
    if |name| == 0 || name[0] == 0 || |data| > MAX_FILE {
      return;
    }
    var parent := v.ReadInode(p);
    if !IsDirectory(parent) {
      rc := 2;
      return;
    }
    var found, other, k := LookUpName(v, parent, p, name);
    if found {
      rc := 1;
      return;
    }
    var node := v.AllocateNode();
    if node == 0 {
      return;
    }
    i := node;
    n := Store(v, p, parent, name, isDir, data, node, d);
    v.bgFreeInodes := (v.bgFreeInodes - 1) % 0x1_0000;
    v.sFreeInodes := (v.sFreeInodes - 1) % 0x1_0000_0000;
    if isDir {
      v.bgUsedDirs := (v.bgUsedDirs + 1) % 0x1_0000;
    }
    rc := 0;
  }

  // write from the point where an inode number is taken.
  method Store(v: Volume, p: int, parent: Inode, name: Name, isDir: bool, data: seq<byte>, i: int, ghost d: Image)
    returns (n: Inode)
    requires v.Valid() && Kempt(d) && IsDir(d, p) && parent == NodeAt(d, p) && Cut(name) != []
    requires |Used(d)| + Cost(isDir, |data|) <= BITS && |data| <= MAX_FILE
    requires FirstFreeInode(d, i) && v.Image() == d[INODE_BITMAP := SetBit(d[INODE_BITMAP], i - 1)]
    modifies v.disk
    ensures WrittenAs(d, p, name, isDir, data, i, n, v.Image())
  {
    hide NodeAt, Kempt, DirEntries, Grafted, Cost, Built, NodeWritten, Chain, Entries, Last, FileContent, IsDirectory,
         Entered, KeepsBlocks, FilledTo, Labelled;
    ghost var e := Entry(i, FT_REG, Cut(name));
    DirBlockOwn(d, p);
    KemptReserved(d);
    ghost var d1 := v.Image();
    assert d1[BLOCK_BITMAP] == d[BLOCK_BITMAP];
    n := Build(v, isDir, data, i, p);
    ghost var d2 := v.Image();
    v.SyncNode(n, i);
    ghost var d3 := v.Image();
    StagesKeep(d, p, e, n, d1, d2, d3, d3[parent.block[0]], d3);
    var fits := EnterName(v, parent.block[0], i, name);
    StagesGrafted(d, p, Spot(DirEntries(d, p), fits), e, n, d1, d2, d3, v.Image()[parent.block[0]], v.Image());
  }

  // The result code of read for a caller's buffer of the given size.
  function ReadOutcome(d: Image, p: int, name: Name, size: nat): int
    requires 1 <= p <= INODES_PER_GROUP
  {
    var es := DirEntries(d, p);
    var k := FindUsed(es, Cut(name));
    if Cut(name) == [] || size == 0 then -1
    else if !IsDirectory(NodeAt(d, p)) then 3
    else if k == |es| then 3
    else if !(1 <= es[k].inode <= INODES_PER_GROUP) then 3
    else if IsDirectory(NodeAt(d, es[k].inode)) then 1
    else if NodeAt(d, es[k].inode).size > size then 2
    else 0
  }

  // The inode that a name in directory p leads to, 0 when there is none.
  function NamedInode(d: Image, p: int, name: seq<byte>): (x: u32)
    requires 1 <= p <= INODES_PER_GROUP
  {
    var es := DirEntries(d, p);
    var k := FindUsed(es, Cut(name));
    if k < |es| then es[k].inode else 0
  }

  // What a lookup in a directory leads to is live, be it through "..".
  predicate NamesLive(d: Image, p: int, name: Name)
    requires 1 <= p <= INODES_PER_GROUP
  {
    IsDirectory(NodeAt(d, p)) && NamedInode(d, p, name) != 0 ==> InodeUsed(d, NamedInode(d, p, name))
  }

  // Every name but the directory's own "." and ".." leads to a live inode.
  lemma NamedLive(d: Image, p: int, k: nat, x: int)
    requires Kempt(d) && Names(d, p, k, x)
    ensures InodeUsed(d, x) && x != p && x != ROOT
  {
    hide NodeAt, DirEntries, Apart, Sound, IsDot;
    assert DirTiled(d, p);
    assert EntryLive(d, p, DirEntries(d, p)[k]);
  }

  /** read: on success the caller's buffer starts with the whole file and is otherwise as it
      was; on failure it is untouched. */
  method Read(v: Volume, p: int, name: Name, out: array<byte>) returns (rc: int)
    requires v.Valid() && Kempt(v.Image()) && InodeUsed(v.Image(), p)
    requires NamesLive(v.Image(), p, name)
    modifies out
    ensures rc == ReadOutcome(v.Image(), p, name, out.Length)
    ensures rc != 0 ==> out[..] == old(out[..])
    ensures rc == 0 ==> var x := NamedInode(v.Image(), p, name);
      && 1 <= x <= INODES_PER_GROUP && NodeAt(v.Image(), x).size <= out.Length
      && out[..NodeAt(v.Image(), x).size] == FileContent(v.Image(), NodeAt(v.Image(), x))
      && out[NodeAt(v.Image(), x).size..] == old(out[NodeAt(v.Image(), x).size..])
  {
    hide NodeAt, Kempt, DirEntries, Tree, FileContent, BlocksFor;
    if |name| == 0 || name[0] == 0 || out.Length == 0 {
      return -1;
    }
    var parent := v.ReadInode(p);
    if !IsDirectory(parent) {
      return 3;
    }
    var found, x, k := LookUpName(v, parent, p, name);
    if !found {
      return 3;
    }
    SoundInode(v.Image(), x);
    var n := v.ReadInode(x);
    if IsDirectory(n) {
      return 1;
    }
    if n.size > out.Length {
      return 2;
    }
    if n.size > 0 {
      ReadInodeData(v, n, out, n.size);
      WholeContent(v.Image(), n);
    } else {
      EmptyContent(v.Image(), n);
    }
    return 0;
  }

  lemma WholeContent(d: Image, n: Inode)
    ensures FileContent(d, n)[..Min(n.size, n.size)] == FileContent(d, n)
  {
  }

  /** A write keeps the file system kempt. */
  lemma WrittenKempt(d: Image, p: int, name: Name, isDir: bool, data: seq<byte>, i: int, n: Inode, d': Image)
    requires Kempt(d) && WrittenAs(d, p, name, isDir, data, i, n, d')
    ensures Kempt(d')
  {
    hide Kempt, NodeAt, Grafted, FileContent, Chain, DirEntries, FilledTo, Last;
    GraftedKempt(d, p, Spot(DirEntries(d, p), Fits(d, p, name)), Entry(i, FT_REG, Cut(name)), n, d');
  }

  lemma WrittenNew(d: Image, p: int, name: Name, n: Inode, i: u32)
    requires Healthy(d) && IsDir(d, p) && FindUsed(DirEntries(d, p), Cut(name)) == |DirEntries(d, p)|
    ensures EntryFits(d, p, Entry(i, FT_REG, Cut(name)), n) && DirEntries(d, p) != []
  {
    hide Kempt, NodeAt, DirEntries, EntryKind, UniqueNames;
    assert DirOK(d, p);
    FindAlike(DirEntries(d, p), Cut(name));
  }

  /** It keeps the file system healthy if and only if the entry does not fit, or the parent
      lists at least two records, so that "." is not the one that is overwritten. */
  lemma WrittenHealthy(d: Image, p: int, name: Name, isDir: bool, data: seq<byte>, i: int, n: Inode, d': Image)
    requires Healthy(d) && WrittenAs(d, p, name, isDir, data, i, n, d') && WriteOutcome(d, p, name, |data|) == 0
    ensures Healthy(d') <==> !Fits(d, p, name) || |DirEntries(d, p)| >= 2
  {
    hide NodeAt, Kempt, DirOK, FileContent, Chain, DirEntries, FilledTo, Last, KeepsBlocks, FreshTree, InodeAdded,
         NewDirectory, Lists, Overwritable;
    WrittenNew(d, p, name, n, i);
    GraftedHealthy(d, p, Spot(DirEntries(d, p), Fits(d, p, name)), Entry(i, FT_REG, Cut(name)), n, d');
  }

  // What the parent lists after a write.
  lemma WrittenEntries(d: Image, p: int, name: Name, isDir: bool, data: seq<byte>, i: int, n: Inode, d': Image)
    requires Kempt(d) && WrittenAs(d, p, name, isDir, data, i, n, d')
    ensures IsDir(d', p) && NodeAt(d', p) == NodeAt(d, p) && NodeAt(d', i) == Kept(i, n) && DirEntries(d, p) != []
    ensures DirEntries(d', p) ==
            Entered(DirEntries(d, p), Spot(DirEntries(d, p), Fits(d, p, name)), Entry(i, FT_REG, Cut(name)))
  {
    hide NodeAt, Kempt, FileContent, Chain, DirEntries, FilledTo, Last, KeepsBlocks, FreshTree, NewDirectory, Lists,
         Overwritable, Kept;
    var m, e := Spot(DirEntries(d, p), Fits(d, p, name)), Entry(i, FT_REG, Cut(name));
    ParentStays(d, p, m, e, n, d');
    GraftedEntries(d, p, m, e, n, d', p);
    DirBlockOwn(d, p);
  }

  // Afterwards the name is found exactly when the entry fitted, and leads to the new inode.
  lemma WrittenName(d: Image, p: int, name: Name, isDir: bool, data: seq<byte>, i: int, n: Inode, d': Image)
    requires Kempt(d) && WrittenAs(d, p, name, isDir, data, i, n, d') && WriteOutcome(d, p, name, |data|) == 0
    ensures IsDirectory(NodeAt(d', p)) && NodeAt(d', i) == Kept(i, n)
    ensures NamedInode(d', p, name) == if Fits(d, p, name) then i else 0
    ensures FindUsed(DirEntries(d', p), Cut(name)) < |DirEntries(d', p)| <==> Fits(d, p, name)
  {
    hide Kempt, NodeAt, WrittenAs, DirEntries, Kept, Overwritable;
    WrittenEntries(d, p, name, isDir, data, i, n, d');
    WrittenSpot(d, p, name, isDir, data, i, n, d');
    var es, es' := DirEntries(d, p), DirEntries(d', p);
    if Fits(d, p, name) {
      FindUsedIs(es', Cut(name), |es| - 1);
    }
  }

  lemma WrittenSpot(d: Image, p: int, name: Name, isDir: bool, data: seq<byte>, i: int, n: Inode, d': Image)
    requires WrittenAs(d, p, name, isDir, data, i, n, d')
    ensures 1 <= p <= INODES_PER_GROUP && 1 <= i <= INODES_PER_GROUP && Chain(BlockAt(d, DirBlock(d, p)), 0)
    ensures Labelled(n, isDir, |data|) && (!isDir ==> FileContent(d', n) == data)
  {
    hide Grafted, NodeAt, Overwritable, DirEntries, Last;
  }

  // Of slot 30 of the inode table, two block pointers reach the disk.
  lemma KeptByte(d: Image, n: Inode, k: nat)
    ensures FileByte(d, Kept(30, n), k) == if k < 1024 then FileByte(d, n, k) else 0
  {
    var m, l := Kept(30, n), k / 512;
    assert Persists(30, 14) && !Persists(30, 18);
    if 2 <= l < MAX_BLOCKS {
      assert m.block[12] == 0 && m.block[13] == 0;
      assert Ptr(d, m, DataSlot(l)) == 0;
    }
  }

  // Whether a file stored in slot i is read back: the last three slots lose part of the record.
  predicate Survives(i: int, data: seq<byte>) {
    i <= 29 || data == [] || (i == 30 && forall k :: 1024 <= k < |data| ==> data[k] == 0)
  }

  lemma KeptContent(d: Image, n: Inode, i: int)
    requires 1 <= i <= INODES_PER_GROUP
    ensures FileContent(d, Kept(i, n)) == FileContent(d, n) <==> Survives(i, FileContent(d, n))
  {
    hide FileByte;
    var s, s' := FileContent(d, n), FileContent(d, Kept(i, n));
    if i <= 29 {
      KeptWhole(i, n);
    } else if i == 30 {
      forall k | 0 <= k < n.size ensures s'[k] == if k < 1024 then s[k] else 0 {
        KeptByte(d, n, k);
      }
      if s' == s {
        forall k | 1024 <= k < |s| ensures s[k] == 0 {
          assert s'[k] == 0;
        }
      }
    }
  }

  /** The round trip, exactly: what was written under a name is what the name reads back, for any
      buffer that is large enough, if and only if the entry fitted and the record of the inode
      survives the disk as far as the data needs it. */
  lemma WriteThenRead(d: Image, p: int, name: Name, data: seq<byte>, i: int, n: Inode, d': Image, size: nat)
    requires Kempt(d) && WrittenAs(d, p, name, false, data, i, n, d') && WriteOutcome(d, p, name, |data|) == 0
    requires size >= |data| && size > 0
    ensures ReadOutcome(d', p, name, size) == 0 && ReadsAs(d', p, name, data) <==>
            Fits(d, p, name) && Survives(i, data)
  {
    hide Kempt, NodeAt, FileContent, WrittenAs, DirEntries, Overwritable, Kept;
    WrittenSpot(d, p, name, false, data, i, n, d');
    WrittenName(d, p, name, false, data, i, n, d');
    KeptContent(d', n, i);
    KeptFile(i, n);
  }

  lemma KeptFile(i: int, n: Inode)
    requires 1 <= i <= INODES_PER_GROUP && n.mode == IFREG
    ensures !IsDirectory(Kept(i, n)) && Kept(i, n).size <= n.size
  {
    KeptKind(i, n);
  }

  // The name leads to an inode with this content.
  ghost predicate ReadsAs(d: Image, p: int, name: Name, data: seq<byte>)
    requires 1 <= p <= INODES_PER_GROUP
  {
    var x := NamedInode(d, p, name);
    1 <= x <= INODES_PER_GROUP && FileContent(d, NodeAt(d, x)) == data
  }

  /** When the entry does not fit, the write still reports success and the new inode stays in
      use, but no directory leads to it. */
  lemma WriteLosesFile(d: Image, p: int, name: Name, isDir: bool, data: seq<byte>, i: int, n: Inode, d': Image)
    requires Kempt(d) && WrittenAs(d, p, name, isDir, data, i, n, d')
    ensures InodeUsed(d', i)
    ensures (exists j, k :: Names(d', j, k, i)) <==> Fits(d, p, name)
  {
    hide NodeAt, FileContent, Chain, FreshTree, KeepsBlocks, DirEntries, Lists, Kempt, Kept, FilledTo, Last,
         NewDirectory,
         Overwritable;
    var m, e := Spot(DirEntries(d, p), Fits(d, p, name)), Entry(i, FT_REG, Cut(name));
    WrittenEntries(d, p, name, isDir, data, i, n, d');
    if Fits(d, p, name) {
      assert Names(d', p, m, i);
    } else {
      forall j, k: nat | Names(d', j, k, i) ensures false {
        GraftedNames(d, p, m, e, n, d', j, k, i);
      }
    }
  }

  // The emptiness test on inode t.
  predicate TargetEmpty(d: Image, t: int, past: Past) {
    && 1 <= t <= INODES_PER_GROUP && NodeAt(d, t).block[0] < DISK_BLOCKS
    && LooksEmpty(d[NodeAt(d, t).block[0]], past)
  }

  function DeleteOutcome(d: Image, p: int, name: Name, isDir: bool, past: Past): int
    requires 1 <= p <= INODES_PER_GROUP
  {
    if !IsDirectory(NodeAt(d, p)) then 3
    else if FindUsed(DirEntries(d, p), Cut(name)) == |DirEntries(d, p)| then 1
    else if isDir && !TargetEmpty(d, NamedInode(d, p, name), past) then 2
    else 0
  }

  /** A directory counts as empty exactly when it lists nothing but its first record. */
  lemma EmptyMeansAlone(d: Image, t: int, past: Past)
    requires Healthy(d) && IsDir(d, t)
    ensures TargetEmpty(d, t, past) <==> |DirEntries(d, t)| == 1
  {
    hide NodeAt, Chain, Entries, LooksEmpty, EntryKind, EntryLive, UniqueNames, Sound, Apart, NamedOnce;
    assert DirOK(d, t);
    DirBlockOwn(d, t);
    LooksEmptyExactly(d[DirBlock(d, t)], past);
  }

  /** So a directory that was just made never does, because it lists "..", and it cannot be deleted
      as a directory. */
  lemma FreshNotDeletable(d: Image, p: int, name: Name, data: seq<byte>, i: int, n: Inode, d': Image, past: Past)
    requires Kempt(d) && WrittenAs(d, p, name, true, data, i, n, d') && WriteOutcome(d, p, name, |data|) == 0
    requires Fits(d, p, name) && i <= 30
    ensures DeleteOutcome(d', p, name, true, past) == 2
  {
    hide Kempt, NodeAt, DirEntries, Overwritable, WriteOutcome, Grafted, Kept, Chain, Entries, LooksEmpty, Last,
         FilledTo;
    WrittenName(d, p, name, true, data, i, n, d');
    FreshDirectory(d, p, name, data, i, n, d');
    LooksEmptyExactly(d'[NodeAt(d', i).block[0]], past);
  }

  lemma FreshDirectory(d: Image, p: int, name: Name, data: seq<byte>, i: int, n: Inode, d': Image)
    requires Kempt(d) && WrittenAs(d, p, name, true, data, i, n, d') && 1 <= i <= 30
    ensures 1 <= p <= INODES_PER_GROUP
    ensures var b := NodeAt(d', i).block[0];
      b < DISK_BLOCKS && Chain(d'[b], 0) && |Entries(d'[b], 0)| == 2
      && forall k :: 0 <= k < 2 ==> Entries(d'[b], 0)[k].inode != 0
  {
    hide NodeAt, DirEntries, Overwritable, Chain, Entries, Last, FilledTo, KeepsBlocks, Sound, Apart, DirTiled,
         NamedOnce, Cost;
    KeptBlock(i, n);
    hide Kept;
    assert Ptr(d', n, Direct(0)) == n.block[0];
    DotsAreDots(i, p);
  }

  // Everything on the list of blocks to free hangs under the inode.
  lemma ListedOwned(d: Image, n: Inode, used: set<int>, k: nat, b: u32)
    requires k <= 12 && Tree(d, n, used) && b in Release.Listed(d, n, k)
    ensures b != 0 && Owns(d, n, b)
  {
    hide Tree, Owns, Release.Under, Release.Directs, Release.Listed;
    Release.FreeListExact(d, n, used);
    DirectsWithin(n, k, b);
    Release.ListedElems(d, n, k);
    Release.ListedElems(d, n, 12);
    assert b in Release.Elems(Release.Listed(d, n, k));
    assert b in Release.Elems(Release.Directs(n, k)) ==> b in Release.Elems(Release.Directs(n, 12));
    assert b in Release.Elems(Release.Listed(d, n, 12));
  }

  lemma {:induction false} DirectsWithin(n: Inode, k: nat, b: u32)
    requires k <= 12
    ensures b in Release.Directs(n, k) ==> b in Release.Directs(n, 12)
    decreases 12 - k
  {
    if k < 12 {
      DirectsWithin(n, k + 1, b);
    }
  }

  // The free functions can take back everything that hangs under inode t.
  ghost predicate LowListed(d: Image, t: int) {
    && 1 <= t <= INODES_PER_GROUP
    && Release.Freeable(Release.Listed(d, NodeAt(d, t), Min(12, NodeAt(d, t).blocks)))
  }

  // What a deletion needs: the entry is not the directory's own "." or "..", and the blocks it
  // frees belong to the block group.
  ghost predicate Deletable(d: Image, p: int, name: Name)
    requires 1 <= p <= INODES_PER_GROUP
  {
    var k := FindUsed(DirEntries(d, p), Cut(name));
    k < |DirEntries(d, p)| && !Dot(DirEntries(d, p)[k]) && LowListed(d, DirEntries(d, p)[k].inode)
  }

  // The list is the same after the parent's block was rewritten.
  lemma ListStays(d: Image, p: int, t: int, n: Inode, b: Block, d1: Image)
    requires Kempt(d) && IsDir(d, p) && InodeUsed(d, t) && t != p && n == NodeAt(d, t)
    requires 0 < DirBlock(d, p) < DISK_BLOCKS && d1 == d[DirBlock(d, p) := b]
    ensures NodeAt(d1, t) == n && forall k: nat | k <= 12 :: Release.Listed(d1, n, k) == Release.Listed(d, n, k)
  {
    hide NodeAt, Release.Under, Release.Directs, SameInode, Kempt, DirEntries;
    DirBlockOwn(d, p);
    TableFrame(d, d1);
    forall s | Valid(s) ensures Ptr(d, n, s) != DirBlock(d, p) {
      assert PtrOf(d, t, s) == Ptr(d, n, s);
    }
    assert n.block[SINGLE] == Ptr(d, n, Direct(SINGLE)) && n.block[DOUBLE] == Ptr(d, n, Direct(DOUBLE));
    UnderStays(d, n.block[SINGLE], d1, DirBlock(d, p));
    TablesStay(d, n, DirBlock(d, p), d1);
  }

  lemma UnderStays(d: Image, q: u32, d1: Image, b: u32)
    requires q != b && forall x :: 0 <= x < DISK_BLOCKS && x != b ==> d1[x] == d[x]
    ensures Release.Under(d1, q, 1) == Release.Under(d, q, 1)
  {
    if q != 0 {
      RowStays(d, TableAt(d, q), 128, d1);
    }
  }

  lemma {:induction false} RowStays(d: Image, t: Table, k: nat, d1: Image)
    requires k <= 128
    ensures Release.Entries(d1, t, k, 1) == Release.Entries(d, t, k, 1)
  {
    if k > 0 {
      RowStays(d, t, k - 1, d1);
    }
  }

  lemma TablesStay(d: Image, n: Inode, b: u32, d1: Image)
    requires forall s :: Valid(s) ==> Ptr(d, n, s) != b
    requires forall x :: 0 <= x < DISK_BLOCKS && x != b ==> d1[x] == d[x]
    ensures Release.Under(d1, n.block[DOUBLE], 2) == Release.Under(d, n.block[DOUBLE], 2)
  {
    hide Release.Entries;
    var q := n.block[DOUBLE];
    assert Ptr(d, n, Direct(DOUBLE)) == q;
    if q != 0 {
      DoubleStays(d, n, TableAt(d, q), 128, b, d1);
    }
  }

  lemma {:induction false} DoubleStays(d: Image, n: Inode, t: Table, k: nat, b: u32, d1: Image)
    requires k <= 128 && t == TableAt(d, n.block[DOUBLE])
    requires forall s :: Valid(s) ==> Ptr(d, n, s) != b
    requires forall x :: 0 <= x < DISK_BLOCKS && x != b ==> d1[x] == d[x]
    ensures Release.Entries(d1, t, k, 2) == Release.Entries(d, t, k, 2)
  {
    if k > 0 {
      DoubleStays(d, n, t, k - 1, b, d1);
      assert Ptr(d, n, First(k - 1)) == t[k - 1];
      UnderStays(d, t[k - 1], d1, b);
    }
  }

  method IsEmptyDirectory(v: Volume, t: int, past: Past) returns (empty: bool)
    requires v.Valid() && Kempt(v.Image()) && InodeUsed(v.Image(), t)
    ensures empty <==> TargetEmpty(v.Image(), t, past)
  {
    hide NodeAt, Kempt, BlocksFor, InodeAt, RecLen, Word;
    SoundInode(v.Image(), t);
    var n := v.ReadInode(t);
    assert Ptr(v.Image(), n, Direct(0)) == n.block[0];
    var buf := v.ReadBlock(n.block[0]);
    var offset := FirstChild(buf);
    empty := offset >= 512 || Word(buf + past, offset) == 0;
  }

  /** delete: refuses without a change, or takes the entry out of the parent, frees the blocks of
      the inode and counts it. */
  method Delete(v: Volume, p: int, name: Name, isDir: bool, past: Past) returns (rc: int)
    requires v.Valid() && Kempt(v.Image()) && InodeUsed(v.Image(), p)
    requires NamesLive(v.Image(), p, name)
    requires DeleteOutcome(v.Image(), p, name, isDir, past) == 0 ==> Deletable(v.Image(), p, name)
    modifies v.disk, v`sFreeInodes, v`bgFreeInodes
    ensures rc == DeleteOutcome(old(v.Image()), p, name, isDir, past)
    ensures rc != 0 ==>
      v.Image() == old(v.Image()) && v.sFreeInodes == old(v.sFreeInodes) && v.bgFreeInodes == old(v.bgFreeInodes)
    ensures rc == 0 ==> Uprooted(old(v.Image()), p, FindUsed(DirEntries(old(v.Image()), p), Cut(name)), v.Image())
    ensures rc == 0 ==>
      var freed := Freed(old(v.Image()), NamedInode(old(v.Image()), p, name));
      Used(v.Image()) == Used(old(v.Image())) - Release.Elems(freed)
    ensures rc == 0 ==> v.sFreeInodes == (old(v.sFreeInodes) + 1) % 0x1_0000_0000
    ensures rc == 0 ==> v.bgFreeInodes == (old(v.bgFreeInodes) + 1) % 0x1_0000
  {
    hide NodeAt, Kempt, DirEntries, Tree, Uprooted, Chain, Entries, LowListed, Freed, IsDot;
    var dir := v.ReadInode(p);
    if !IsDirectory(dir) {
      return 3;
    }
    var found, t, k := LookUpName(v, dir, p, name);
    if !found {
      return 1;
    }
    if isDir {
      var empty := IsEmptyDirectory(v, t, past);
      if !empty {
        return 2;
      }
    }
    EntryNames(v.Image(), p, k);
    NamedLive(v.Image(), p, k, t);
    Uproot(v, p, dir, name, t, k);
    v.bgFreeInodes := (v.bgFreeInodes + 1) % 0x1_0000;
    v.sFreeInodes := (v.sFreeInodes + 1) % 0x1_0000_0000;
    return 0;
  }

  lemma EntryNames(d: Image, p: int, k: nat)
    requires Kempt(d) && IsDir(d, p) && k < |DirEntries(d, p)|
    requires DirEntries(d, p)[k].inode != 0 && !Dot(DirEntries(d, p)[k])
    ensures Names(d, p, k, DirEntries(d, p)[k].inode)
  {
  }

  // The blocks a deletion of inode t gives back.
  function Freed(d: Image, t: int): seq<u32> {
    if 1 <= t <= INODES_PER_GROUP then Release.Listed(d, NodeAt(d, t), Min(12, NodeAt(d, t).blocks)) else []
  }

  method Uproot(v: Volume, p: int, dir: Inode, name: Name, t: int, ghost k: nat)
    requires v.Valid() && Kempt(v.Image()) && IsDir(v.Image(), p) && dir == NodeAt(v.Image(), p)
    requires k == FindUsed(DirEntries(v.Image(), p), Cut(name)) && Names(v.Image(), p, k, t)
    requires InodeUsed(v.Image(), t) && t != p && LowListed(v.Image(), t)
    modifies v.disk
    ensures Uprooted(old(v.Image()), p, k, v.Image())
    ensures Used(v.Image()) == Used(old(v.Image())) - Release.Elems(Freed(old(v.Image()), t))
  {
    hide NodeAt, Kempt, DirEntries, Tree, Uprooted, Chain, Entries, Release.Listed, Release.Freeable, WithoutSlot, Dot;
    ghost var d := v.Image();
    DirBlockOwn(d, p);
    var buf := Load(v, dir.block[0]);
    ghost var l := RemoveInodeFromDir(buf, name);
    v.WriteBlock(buf[..], dir.block[0]);
    ghost var d1 := v.Image();
    ghost var n := NodeAt(d, t);
    ListStays(d, p, t, n, buf[..], d1);
    var node := v.ReadInode(t);
    var cell := new InodeCell(node);
    Teardown.DeallocateNodeBlocks(v, cell);
    ghost var d2 := v.Image();
    v.ClearInodeUsed(t);
    UprootedNow(d, p, k, t, n, buf[..], d1, d2, v.Image());
  }

  lemma UprootedNow(d: Image, p: int, k: nat, t: int, n: Inode, b: Block, d1: Image, d2: Image, d3: Image)
    requires Kempt(d) && Names(d, p, k, t) && InodeUsed(d, t) && n == NodeAt(d, t)
    requires 0 < DirBlock(d, p) < DISK_BLOCKS && d1 == d[DirBlock(d, p) := b]
    requires Teardown.Cleared(d1, Release.Elems(Release.Listed(d, n, Min(12, n.blocks))), d2)
    requires d3 == d2[INODE_BITMAP := ClearBit(d2[INODE_BITMAP], t - 1)]
    requires Chain(b, 0) && Entries(b, 0) == WithoutSlot(DirEntries(d, p), k)
    ensures Uprooted(d, p, k, d3) && Used(d3) == Used(d) - Release.Elems(Release.Listed(d, n, Min(12, n.blocks)))
  {
    hide NodeAt, Apart, NamedOnce, DirTiled, DirEntries, Chain, Entries, Owns, WithoutSlot, Release.Listed, Tree;
    DirBlockOwn(d, p);
    TableFrame(d, d3);
    assert d2[INODE_BITMAP] == d[INODE_BITMAP] && d1[BLOCK_BITMAP] == d[BLOCK_BITMAP];
    InodeUnmarked(d, t, d3);
    assert Sound(d, t);
    forall x | x in Release.Listed(d, n, Min(12, n.blocks)) ensures x != 0 && Owns(d, n, x) {
      ListedOwned(d, n, Used(d), Min(12, n.blocks), x);
    }
  }
}
