/** The directory system calls of the kernel: create_directory, copy_file, delete_file and
    delete_directory. */
module FsOps {
  import opened Bytes
  import opened Bitmap
  import opened Layout
  import opened BlockTree
  import opened Growth
  import opened Contents
  import opened Directory
  import opened FsState
  import opened FsEffects
  import opened FsStaging
  import opened Volume

  // read_blocks into a local buffer.
  method Load(v: Volume, b: int) returns (buf: array<byte>)
    requires v.Valid() && 0 <= b < DISK_BLOCKS
    ensures fresh(buf) && buf[..] == v.Image()[b]
  {
    var block := v.ReadBlock(b);
    buf := new byte[512];
    Put(buf, 0, block);
    assert buf[..] == buf[0..0 + 512];
  }

  // A directory as the operations find it: one block, tiled by used records.
  ghost predicate OneBlock(d: Image, n: Inode) {
    n.blocks == 1 && 0 < n.block[0] < DISK_BLOCKS && Chain(d[n.block[0]], 0) && AllUsed(Entries(d[n.block[0]], 0))
  }

  lemma DirIsOneBlock(d: Image, p: int)
    requires Healthy(d) && IsDir(d, p)
    ensures OneBlock(d, NodeAt(d, p)) && Entries(d[DirBlock(d, p)], 0) == DirEntries(d, p)
    ensures FIRST_FREE_BLOCK <= DirBlock(d, p) < BITS && ReservedUsed(d)
  {
    hide NodeAt, Chain, Entries, Apart, NamedOnce, EntryLive, EntryKind, Sound;
    DirBlockOwn(d, p);
    assert DirOK(d, p) && DirTiled(d, p);
  }

  /** Searches the blocks of a directory for a name. */
  method SearchDirectory(v: Volume, dir: Inode, name: Name)
    returns (found: bool, index: nat, o: nat, inode: u32, ftype: byte, ghost k: nat)
    requires v.Valid() && OneBlock(v.Image(), dir)
    ensures var b := v.Image()[dir.block[0]];
      && (found <==> Find(Entries(b, 0), name) < |Entries(b, 0)|)
      && (found ==> inode == Entries(b, 0)[Find(Entries(b, 0), name)].inode
                    && ftype == Entries(b, 0)[Find(Entries(b, 0), name)].ftype
                    && index == 0 && Steps(b, 0, Find(Entries(b, 0), name), o) && o < 512)
    ensures k == Find(Entries(v.Image()[dir.block[0]], 0), name)
  {
    hide Chain, Entries, Steps, RecordAt, AllUsed;
    found, index, o, inode, ftype := false, 0, 0, 0, 0;
    ghost var b := v.Image()[dir.block[0]];
    k := Find(Entries(b, 0), name);
    while index < dir.blocks && index < 12 && !found
      invariant index <= 1 && (found ==> index == 0)
      invariant found ==> k < |Entries(b, 0)| && Steps(b, 0, k, o) && o < 512
                          && inode == Entries(b, 0)[k].inode && ftype == Entries(b, 0)[k].ftype
      invariant !found && index == 1 ==> k == |Entries(b, 0)|
      decreases 1 - index, !found
    {
      if dir.block[index] != 0 {
        var buf := Load(v, dir.block[index]);
        ghost var j;
        o, j := ScanFor(buf, name);
        if o < 512 {
          PositionAfter(b, k, o);
          ChainHead(b, o);
          HeaderFits(b, o);
          inode := InodeOf(buf, o);
          ftype := buf[o + 8];
          found := true;
        }
      }
      if !found {
        index := index + 1;
      }
    }
  }

  /** Adds an entry to the first block of a directory that has room for it. */
  method AddToDirectory(v: Volume, dir: Inode, e: Entry) returns (added: bool)
    requires v.Valid() && OneBlock(v.Image(), dir) && |e.name| <= 255
    modifies v.disk
    ensures added <==> HasRoom(old(v.Image())[dir.block[0]], |e.name|)
    ensures added ==>
      && v.Image() == old(v.Image())[dir.block[0] := v.Image()[dir.block[0]]]
      && Chain(v.Image()[dir.block[0]], 0)
      && Entries(v.Image()[dir.block[0]], 0) == Entries(old(v.Image())[dir.block[0]], 0) + [e]
    ensures !added ==> v.Image() == old(v.Image())
  {
    hide Chain, Entries, HasRoom, AllUsed;
    added := false;
    ghost var d := v.Image();
    var index := 0;
    while index < dir.blocks && index < 12 && !added
      invariant index <= 1
      invariant added ==> HasRoom(d[dir.block[0]], |e.name|)
      invariant added ==>
        && v.Image() == d[dir.block[0] := v.Image()[dir.block[0]]]
        && Chain(v.Image()[dir.block[0]], 0)
        && Entries(v.Image()[dir.block[0]], 0) == Entries(d[dir.block[0]], 0) + [e]
      invariant !added ==> v.Image() == d && (index == 1 ==> !HasRoom(d[dir.block[0]], |e.name|))
      decreases 1 - index, !added
    {
      if dir.block[index] != 0 {
        var buf := Load(v, dir.block[index]);
        added := AppendEntry(buf, e);
        if added {
          v.WriteBlock(buf[..], dir.block[index]);
        }
      }
      if !added {
        index := index + 1;
      }
    }
  }

  // The block of a fresh directory: "." for itself in 10 bytes, ".." for its parent in the rest.
  method NewDirBlock(i: u32, p: u32) returns (b: Block)
    ensures Chain(b, 0) && Entries(b, 0) == Dots(i, p) && Last(b, 0) == 10
  {
    var buf := new byte[512](_ => 0);
    var current, parent := Entry(i, FT_DIR, DOT), Entry(p, FT_DIR, DOTDOT);
    var first := HEADER + 1;
    PutEntry(buf, 0, current, first);
    PutEntry(buf, first, parent, BLOCK_SIZE - first);
    b := buf[..];
    TwoRecords(b, current, parent);
  }

  lemma TwoRecords(b: Block, x: Entry, y: Entry)
    requires x.name == DOT && y.name == DOTDOT
    requires b[0..10] == EncodeEntry(x, 10) && b[10..21] == EncodeEntry(y, 502)
    ensures Chain(b, 0) && Entries(b, 0) == [x, y] && Last(b, 0) == 10
  {
    EncodedRecord(b, 0, x, 10);
    EncodedRecord(b, 10, y, 502);
    assert Entries(b, 10) == [y] + Entries(b, 512);
    assert Last(b, 10) == 10;
  }

  // The last record in directory block b starts at l.
  ghost predicate TailAt(d: Image, b: u32, l: nat) {
    b != 0 && Chain(BlockAt(d, b), 0) && Last(BlockAt(d, b), 0) == l
  }

  // The result code of create_directory.
  function DirHasRoom(d: Image, p: int, n: nat): bool
    requires 1 <= p <= INODES_PER_GROUP
  {
    var b := BlockAt(d, DirBlock(d, p));
    Chain(b, 0) && HasRoom(b, n)
  }

  predicate NoFreeInode(d: Image) { forall k :: 1 <= k <= INODES_PER_GROUP ==> InodeUsed(d, k) }

  function CreateOutcome(d: Image, p: int, name: Name): int
    requires 1 <= p <= INODES_PER_GROUP
  {
    if name == [] then -1
    else if !IsDirectory(NodeAt(d, p)) then -2
    else if Find(DirEntries(d, p), name) < |DirEntries(d, p)| then -3
    else if NoFreeInode(d) then -4
    else if |Used(d)| == BITS then -5
    else if !DirHasRoom(d, p, |name|) then -6
    else 0
  }

  lemma UnchangedItself(d: Image)
    ensures Unchanged(d, d)
  {
  }

  /** create_directory: on failure nothing visible changed, on success there is one entry
      more, leading to a fresh empty directory. */
  method CreateDirectory(v: Volume, p: int, name: Name) returns (rc: int, ghost e: Entry, ghost n: Inode)
    requires v.Valid() && Healthy(v.Image()) && InodeUsed(v.Image(), p)
    requires CreateOutcome(v.Image(), p, name) == -6 ==> AllocatesLow(Used(v.Image()), 1)
    modifies v.disk
    ensures rc == CreateOutcome(old(v.Image()), p, name)
    ensures rc != 0 ==> Unchanged(old(v.Image()), v.Image())
    ensures rc == 0 ==> e.ftype == FT_DIR && e.name == name && FirstFreeInode(old(v.Image()), e.inode)
    ensures rc == 0 ==> n == DirectoryNode(n.block[0]) && TailAt(v.Image(), n.block[0], 10)
    ensures rc == 0 ==> Added(old(v.Image()), p, e, n, v.Image()) && EntryFits(old(v.Image()), p, e, n)
  {
    hide NodeAt, Chain, Entries, HasRoom, Healthy, Unchanged, Added, EntryFits, Kept, AllocatesLow, DirectoryNode,
         TailAt;
    ghost var d := v.Image();
    e, n := Entry(0, FT_DIR, name), BlankInode();
    UnchangedItself(d);
    if |name| == 0 {
      return -1, e, n;
    }
    var parent := v.ReadInode(p);
    if !IsDirectory(parent) {
      return -2, e, n;
    }
    DirIsOneBlock(d, p);
    var found, index, o, inode, ftype, k := SearchDirectory(v, parent, name);
    if found {
      return -3, e, n;
    }
    var i := v.AllocateNode();
    if i == 0 {
      return -4, e, n;
    }
    rc, e, n := FillDirectory(v, p, parent, name, i, d);
  }

  predicate FirstFreeInode(d: Image, i: int) {
    1 <= i <= INODES_PER_GROUP && !InodeUsed(d, i) && forall k :: 1 <= k < i ==> InodeUsed(d, k)
  }

  // Gives back the inode and the first m direct blocks of n.
  method Rollback(v: Volume, i: int, n: Inode, m: nat, ghost d: Image)
    requires v.Valid() && ReservedUsed(d) && (Staged(d, i, n, v.Image()) || Prepared(d, i, n, v.Image()))
    requires LowBlocks(n) && forall k :: m <= k < 12 ==> n.block[k] == 0
    modifies v.disk
    ensures Unchanged(d, v.Image())
  {
    hide NodeAt, Kept, Unchanged, InodeUsed;
    ghost var d1 := v.Image();
    hide Staged, Prepared;
    v.ClearInodeUsed(i);
    ghost var d2 := v.Image();
    FreeFirst(v, n, m);
    RolledBack(d, i, n, d1, v.Image());
  }

  method FreeFirst(v: Volume, n: Inode, m: nat)
    requires v.Valid() && LowBlocks(n) && forall k :: m <= k < 12 ==> n.block[k] == 0
    modifies v.disk
    ensures v.Image() == old(v.Image())[BLOCK_BITMAP := v.Image()[BLOCK_BITMAP]]
    ensures Used(v.Image()) == Used(old(v.Image())) - FirstMapped(n, 12)
  {
    ghost var d := v.Image();
    var k := 0;
    while k < m && k < 12
      invariant 0 <= k <= 12
      invariant v.Image() == d[BLOCK_BITMAP := v.Image()[BLOCK_BITMAP]]
      invariant Used(v.Image()) == Used(d) - FirstMapped(n, k)
    {
      if n.block[k] != 0 {
        v.SetBlockFree(n.block[k]);
      }
      assert FirstMapped(n, k + 1) == FirstMapped(n, k) + if n.block[k] != 0 then {n.block[k]} else {};
      k := k + 1;
    }
    assert FirstMapped(n, k) == FirstMapped(n, 12);
  }

  // The last part of both creating calls: enter the new inode into the directory, or give
  // everything back when the directory is full.
  method LinkEntry(v: Volume, p: int, parent: Inode, e: Entry, n: Inode, m: nat, ghost d: Image) returns (added: bool)
    requires v.Valid() && Healthy(d) && IsDir(d, p) && parent == NodeAt(d, p)
    requires Prepared(d, e.inode, n, v.Image()) && WellMade(p, e.inode, n, v.Image()) && |e.name| <= 255
    requires forall k :: m <= k < 12 ==> n.block[k] == 0
    requires !DirHasRoom(d, p, |e.name|) ==> LowBlocks(n)
    modifies v.disk
    ensures added <==> DirHasRoom(d, p, |e.name|)
    ensures added ==> Added(d, p, e, n, v.Image())
    ensures added ==> forall k :: 0 <= k < 12 && n.block[k] != 0 ==>
      BlockAt(v.Image(), n.block[k]) == BlockAt(old(v.Image()), n.block[k])
    ensures !added ==> Unchanged(d, v.Image())
  {
    hide NodeAt, Chain, Entries, HasRoom, Unchanged, Added, Kept, FreshBlocks, LowBlocks, WellMade, Kempt;
    ghost var d1 := v.Image();
    SameParentBlock(d, p, e.inode, n, d1);
    added := AddToDirectory(v, parent, e);
    if added {
      ghost var d2 := v.Image();
      AddedByAppend(d, p, e, n, d1, d2[DirBlock(d, p)], d2);
      ParentRecord(d, p, e, n, d2);
      v.SyncNode(parent, p);
      AddedAndSynced(d, p, e, n, d2, v.Image());
      FreshAfterSync(d, n, d1, d2, v.Image());
    } else {
      Rollback(v, e.inode, n, m, d);
    }
  }

  lemma SameParentBlock(d: Image, p: int, i: int, n: Inode, d1: Image)
    requires Healthy(d) && IsDir(d, p) && Prepared(d, i, n, d1)
    ensures OneBlock(d1, NodeAt(d, p)) && d1[DirBlock(d, p)] == d[DirBlock(d, p)] && 0 < DirBlock(d, p) < DISK_BLOCKS
    ensures Entries(d1[DirBlock(d, p)], 0) == DirEntries(d, p)
    ensures BlockAt(d, DirBlock(d, p)) == d[DirBlock(d, p)] && ReservedUsed(d)
  {
    hide NodeAt, Chain, Entries, DirEntries, DirOK, Kempt, Kept, FreshBlocks, AllUsed;
    DirIsOneBlock(d, p);
    BlockInUse(d, p);
  }

  lemma BlockInUse(d: Image, p: int)
    requires Kempt(d) && IsDir(d, p)
    ensures DirBlock(d, p) in Used(d)
  {
    hide NodeAt, Kempt;
    DirBlockOwn(d, p);
  }

  lemma ParentRecord(d: Image, p: int, e: Entry, n: Inode, d2: Image)
    requires Added(d, p, e, n, d2)
    ensures NodeAt(d2, p) == NodeAt(d, p)
  {
    hide NodeAt, Kept, DirEntries, Lists, KeepsBlocks, FreshTree;
  }

  lemma FreshAfterSync(d: Image, n: Inode, d1: Image, d2: Image, d3: Image)
    requires forall k :: 0 <= k < 12 && n.block[k] != 0 ==> BlockAt(d2, n.block[k]) == BlockAt(d1, n.block[k])
    requires forall b :: 9 <= b < DISK_BLOCKS ==> d3[b] == d2[b]
    requires FreshBlocks(d, n, d1)
    ensures forall k :: 0 <= k < 12 && n.block[k] != 0 ==> BlockAt(d3, n.block[k]) == BlockAt(d1, n.block[k])
  {
  }

  // The record of a fresh directory with its block.
  function DirectoryNode(block: u32): Inode {
    Inode(IFDIR, BLOCK_SIZE, 1, NoPointers()[0 := block])
  }

  // Allocates and fills the block of the new directory and stores its record.
  method PrepareDirectory(v: Volume, p: int, i: int, ghost d: Image) returns (ok: bool, node: Inode)
    requires v.Valid() && ReservedUsed(d) && 1 <= p <= INODES_PER_GROUP
    requires 1 <= i <= INODES_PER_GROUP && !InodeUsed(d, i)
    requires v.Image() == d[INODE_BITMAP := SetBit(d[INODE_BITMAP], i - 1)]
    modifies v.disk
    ensures ok <==> |Used(d)| != BITS
    ensures !ok ==> Unchanged(d, v.Image())
    ensures ok ==> Prepared(d, i, node, v.Image()) && WellMade(p, i, node, v.Image())
    ensures ok ==> IsDirectory(node) && forall k :: 1 <= k < 12 ==> node.block[k] == 0
    ensures ok ==> node == DirectoryNode(node.block[0]) && TailAt(v.Image(), node.block[0], 10)
    ensures ok && AllocatesLow(Used(d), 1) ==> LowBlocks(node)
  {
    hide NodeAt, Unchanged, Staged, Prepared, WellMade, InodeUsed, AllocatesLow, Took, LowBlocks, DirectoryNode,
         TailAt;
    node := DirectoryNode(0);
    ghost var d1 := v.Image();
    BlankDirectory(0);
    StagedEmpty(d, i, node, d1);
    assert Used(d1) == Used(d);
    var block := v.AllocateBlock();
    if block < 0 {
      Rollback(v, i, node, 0, d);
      return false, node;
    }
    assert Took(d1, block, v.Image()) by { TookBy(d1, block, v.Image()); }
    if AllocatesLow(Used(d), 1) {
      FirstFitLow(d1, 1, block, v.Image());
    }
    BlankDirectory(block);
    node := StoreDirectory(v, p, i, block, d, d1);
    ok := true;
  }

  lemma BlankDirectory(block: u32)
    ensures var n := DirectoryNode(block);
      IsDirectory(n) && n.block[0] == block && forall k :: 1 <= k < 15 ==> n.block[k] == 0
    ensures block < BLOCKS_PER_GROUP ==> LowBlocks(DirectoryNode(block))
  {
  }

  lemma TookBy(d: Image, p: int, d1: Image)
    requires 0 <= p < BITS && p !in Used(d) && forall i :: 0 <= i < p ==> i in Used(d)
    requires d1 == d[BLOCK_BITMAP := d1[BLOCK_BITMAP]] && Used(d1) == Used(d) + {p}
    ensures Took(d, p, d1)
  {
  }

  // Fills the block of the new directory and stores its record.
  method StoreDirectory(v: Volume, p: int, i: int, block: u32, ghost d: Image, ghost d1: Image) returns (node: Inode)
    requires v.Valid() && ReservedUsed(d) && 1 <= p <= INODES_PER_GROUP
    requires Staged(d, i, DirectoryNode(0), d1) && Took(d1, block, v.Image())
    modifies v.disk
    ensures node == DirectoryNode(block) && TailAt(v.Image(), node.block[0], 10)
    ensures Prepared(d, i, node, v.Image()) && WellMade(p, i, node, v.Image())
  {
    hide NodeAt, Chain, Entries, Last, Prepared, WellMade, InodeUsed, Used, TailAt;
    BlankDirectory(0);
    ghost var d2 := v.Image();
    var content := NewDirBlock(i, p);
    v.WriteBlock(content, block);
    ghost var d3 := v.Image();
    node := DirectoryNode(block);
    StagedBlock(d, i, DirectoryNode(0), d1, 0, block, d2, content, node, d3);
    hide Staged, Took;
    v.SyncNode(node, i);
    PreparedBySync(d, i, node, d3, v.Image());
    DirectoryPrepared(p, i, block, d3, content, v.Image());
  }

  lemma DirectoryPrepared(p: int, i: int, block: u32, d3: Image, content: Block, d4: Image)
    requires 1 <= p <= INODES_PER_GROUP && 1 <= i <= INODES_PER_GROUP && FIRST_FREE_BLOCK <= block < DISK_BLOCKS
    requires d3[block] == content && forall b :: 9 <= b < DISK_BLOCKS ==> d4[b] == d3[b]
    requires Chain(content, 0) && Entries(content, 0) == Dots(i, p) && Last(content, 0) == 10
    ensures WellMade(p, i, DirectoryNode(block), d4) && TailAt(d4, DirectoryNode(block).block[0], 10)
  {
    hide Chain, Entries, Last;
    assert d4[block] == content;
  }

  // create_directory from the point where an inode number is taken.
  method FillDirectory(v: Volume, p: int, parent: Inode, name: Name, i: int, ghost d: Image)
    returns (rc: int, ghost e: Entry, ghost n: Inode)
    requires v.Valid() && Healthy(d) && IsDir(d, p) && parent == NodeAt(d, p) && ReservedUsed(d)
    requires |Used(d)| != BITS && !DirHasRoom(d, p, |name|) ==> AllocatesLow(Used(d), 1)
    requires 1 <= i <= INODES_PER_GROUP && !InodeUsed(d, i)
    requires v.Image() == d[INODE_BITMAP := SetBit(d[INODE_BITMAP], i - 1)]
    requires Find(DirEntries(d, p), name) == |DirEntries(d, p)|
    modifies v.disk
    ensures rc == if |Used(d)| == BITS then -5 else if !DirHasRoom(d, p, |name|) then -6 else 0
    ensures rc != 0 ==> Unchanged(d, v.Image())
    ensures rc == 0 ==> e == Entry(i, FT_DIR, name) && Added(d, p, e, n, v.Image()) && EntryFits(d, p, e, n)
    ensures rc == 0 ==> n == DirectoryNode(n.block[0]) && TailAt(v.Image(), n.block[0], 10)
  {
    hide DirectoryNode, Last, NodeAt, Chain, Entries, Healthy, Unchanged, Added, Prepared, DirHasRoom, AllocatesLow,
         LowBlocks, NewDirectory;
    e := Entry(i, FT_DIR, name);
    var ok, node := PrepareDirectory(v, p, i, d);
    n := node;
    if !ok {
      return -5, e, n;
    }
    var added := LinkEntry(v, p, parent, Entry(i, FT_DIR, name), node, 1, d);
    rc := if added then 0 else -6;
  }

  // How many blocks copy_file allocates.
  function CopyCost(n: Inode): nat { Mapped(n, BlocksToCopy(n)) }

  // The loop state of copy_file after looking at k blocks.
  ghost predicate Copying(d: Image, i: int, n: Inode, k: nat, d1: Image, m: Inode) {
    && k <= BlocksToCopy(n) && Staged(d, i, m, d1) && CopiedTo(d, n, k, d1, m)
    && |Used(d1)| == |Used(d)| + Mapped(n, k) && Mapped(n, k) <= CopyCost(n)
    && (AllocatesLow(Used(d), CopyCost(n)) ==> LowBlocks(m) && AllocatesLow(Used(d1), CopyCost(n) - Mapped(n, k)))
  }

  /** Copies the direct blocks of n into fresh blocks; gives everything back when the
      blocks run out in the middle. */
  method CopyBlocks(v: Volume, i: int, n: Inode, x: int, ghost d: Image) returns (ok: bool, m: Inode)
    requires v.Valid() && ReservedUsed(d) && Sound(d, x) && n == NodeAt(d, x)
    requires 1 <= i <= INODES_PER_GROUP && !InodeUsed(d, i)
    requires v.Image() == d[INODE_BITMAP := SetBit(d[INODE_BITMAP], i - 1)]
    requires |Used(d)| + CopyCost(n) > BITS ==> AllocatesLow(Used(d), CopyCost(n))
    modifies v.disk
    ensures ok <==> |Used(d)| + CopyCost(n) <= BITS
    ensures ok ==> Staged(d, i, m, v.Image()) && CopiedTo(d, n, BlocksToCopy(n), v.Image(), m)
    ensures ok && AllocatesLow(Used(d), CopyCost(n)) ==> LowBlocks(m)
    ensures !ok ==> Unchanged(d, v.Image())
  {
    hide NodeAt, Sound, Unchanged, Staged, CopiedTo, InodeUsed, AllocatesLow, BlocksToCopy, LowBlocks, Mapped;
    var count := BlocksToCopy(n);
    m := Inode(n.mode, n.size, n.blocks, NoPointers());
    CopyStart(d, i, n, v.Image(), m);
    var k := 0;
    while k < count && k < 12
      invariant 0 <= k <= count
      invariant Copying(d, i, n, k, v.Image(), m)
    {
      if n.block[k] != 0 {
        ghost var d1 := v.Image();
        ok, m := CopyOne(v, i, n, x, k, m, d);
        if !ok {
          CopiedSoFar(d, n, k, d1, m);
          MoreToCopy(n, k);
          Rollback(v, i, m, k, d);
          return;
        }
      } else {
        CopySkip(d, i, n, k, v.Image(), m);
      }
      k := k + 1;
    }
    MarkedSize(v.Image()[BLOCK_BITMAP]);
    ok := true;
  }

  lemma MoreToCopy(n: Inode, k: nat)
    requires k < BlocksToCopy(n)
    ensures Mapped(n, k + 1) == Mapped(n, k) + if n.block[k] != 0 then 1 else 0
    ensures Mapped(n, k + 1) <= CopyCost(n)
  {
    MappedMonotone(n, k + 1, BlocksToCopy(n));
  }

  // Copies block k to a fresh block, unless the disk is full.
  method CopyOne(v: Volume, i: int, n: Inode, x: int, k: nat, m0: Inode, ghost d: Image) returns (ok: bool, m: Inode)
    requires v.Valid() && ReservedUsed(d) && Sound(d, x) && n == NodeAt(d, x)
    requires k < BlocksToCopy(n) && n.block[k] != 0 && Copying(d, i, n, k, v.Image(), m0)
    modifies v.disk
    ensures ok <==> |Used(old(v.Image()))| < BITS
    ensures ok ==> Copying(d, i, n, k + 1, v.Image(), m)
    ensures !ok ==> v.Image() == old(v.Image()) && m == m0
  {
    hide NodeAt, InodeUsed, Copying, Sound, BlocksToCopy;
    ghost var d1 := v.Image();
    m := m0;
    var block := v.AllocateBlock();
    ok := block >= 0;
    MarkedSize(d1[BLOCK_BITMAP]);
    if ok {
      ghost var d2 := v.Image();
      SourceKept(d, i, x, n, k, d1, m, d2);
      var buffer := v.ReadBlock(n.block[k]);
      v.WriteBlock(buffer, block);
      CopyStep(d, i, n, k, d1, m, block, d2, v.Image());
      m := Inode(m.mode, m.size, m.blocks, m.block[k := block]);
    }
  }

  lemma CopyStart(d: Image, i: int, n: Inode, d1: Image, m: Inode)
    requires 1 <= i <= INODES_PER_GROUP && !InodeUsed(d, i)
    requires d1 == d[INODE_BITMAP := SetBit(d[INODE_BITMAP], i - 1)]
    requires m == Inode(n.mode, n.size, n.blocks, NoPointers())
    ensures Copying(d, i, n, 0, d1, m)
  {
    StagedEmpty(d, i, m, d1);
    assert Used(d1) == Used(d) && Mapped(n, 0) == 0;
  }

  lemma CopiedSoFar(d: Image, n: Inode, k: nat, d1: Image, m: Inode)
    requires k <= 12 && CopiedTo(d, n, k, d1, m)
    ensures forall j :: k <= j < 12 ==> m.block[j] == 0
  {
  }

  // The block that is copied still holds what it held before the call.
  lemma SourceKept(d: Image, i: int, x: int, n: Inode, k: nat, d1: Image, m: Inode, d2: Image)
    requires Sound(d, x) && n == NodeAt(d, x) && k < 12 && n.block[k] != 0
    requires Copying(d, i, n, k, d1, m) && d2 == d1[BLOCK_BITMAP := d2[BLOCK_BITMAP]]
    ensures FIRST_FREE_BLOCK <= n.block[k] < BITS
    ensures d2[n.block[k]] == BlockAt(d, n.block[k])
  {
    hide NodeAt;
    assert PtrOf(d, x, Direct(k)) == n.block[k];
    InUse(d, x, Direct(k));
  }

  lemma CopyStep(d: Image, i: int, n: Inode, k: nat, d1: Image, m: Inode, p: int, d2: Image, d3: Image)
    requires ReservedUsed(d) && k < BlocksToCopy(n) && n.block[k] != 0 && 0 < n.block[k] < DISK_BLOCKS
    requires Copying(d, i, n, k, d1, m) && Took(d1, p, d2)
    requires d2[n.block[k]] == BlockAt(d, n.block[k]) && d3 == d2[p := d2[n.block[k]]]
    ensures 0 < p && Copying(d, i, n, k + 1, d3, Inode(m.mode, m.size, m.blocks, m.block[k := p]))
  {
    hide Staged, CopiedTo, AllocatesLow, BlocksToCopy, Mapped, CopyCost, Used;
    var m2 := Inode(m.mode, m.size, m.blocks, m.block[k := p]);
    CopiedSoFar(d, n, k, d1, m);
    MoreToCopy(n, k);
    StagedBlock(d, i, m, d1, k, p, d2, d2[n.block[k]], m2, d3);
    CopiedMore(d, n, k, d1, m, p, d3);
    StepLow(d, i, n, k, d1, m, p, d2);
  }

  lemma StepLow(d: Image, i: int, n: Inode, k: nat, d1: Image, m: Inode, p: int, d2: Image)
    requires k < BlocksToCopy(n) && n.block[k] != 0 && Copying(d, i, n, k, d1, m) && Took(d1, p, d2)
    ensures |Used(d2)| == |Used(d1)| + 1 && Mapped(n, k) < CopyCost(n)
    ensures AllocatesLow(Used(d), CopyCost(n)) ==> p < BLOCKS_PER_GROUP && LowBlocks(m)
    ensures AllocatesLow(Used(d), CopyCost(n)) ==> AllocatesLow(Used(d2), CopyCost(n) - Mapped(n, k) - 1)
  {
    hide Staged, CopiedTo, AllocatesLow, BlocksToCopy, Mapped, LowBlocks, Used;
    MoreToCopy(n, k);
    if AllocatesLow(Used(d), CopyCost(n)) {
      FirstFitLow(d1, CopyCost(n) - Mapped(n, k), p, d2);
    }
  }

  lemma CopySkip(d: Image, i: int, n: Inode, k: nat, d1: Image, m: Inode)
    requires k < BlocksToCopy(n) && n.block[k] == 0 && Copying(d, i, n, k, d1, m)
    ensures Copying(d, i, n, k + 1, d1, m)
  {
    hide Staged, AllocatesLow, LowBlocks;
    MoreToCopy(n, k);
  }

  // The source inode of a copy, once the name was found.
  function Target(d: Image, p: int, name: seq<byte>): (x: u32)
    requires 1 <= p <= INODES_PER_GROUP
  {
    var es := DirEntries(d, p);
    var k := Find(es, name);
    if k < |es| then es[k].inode else 0
  }

  // The result code of copy_file.
  function CopyOutcome(d: Image, p: int, src: Name, dst: Name): int
    requires 1 <= p <= INODES_PER_GROUP
  {
    var es := DirEntries(d, p);
    var k := Find(es, src);
    if src == [] || dst == [] then -1
    else if !IsDirectory(NodeAt(d, p)) then -1
    else if k < |es| && es[k].ftype == FT_DIR then -3
    else if k == |es| then -1
    else if Find(es, dst) < |es| then -2
    else CopyNode(d, p, es[k].inode, |dst|)
  }

  function CopyNode(d: Image, p: int, x: u32, len: nat): int
    requires 1 <= p <= INODES_PER_GROUP
  {
    if !(1 <= x <= INODES_PER_GROUP) then -1
    else if IsDirectory(NodeAt(d, x)) then -3
    else if NoFreeInode(d) then -4
    else if |Used(d)| + CopyCost(NodeAt(d, x)) > BITS then -5
    else if !DirHasRoom(d, p, len) then -8
    else 0
  }

  // An entry that is not marked as a directory names a live inode.
  lemma FileEntry(d: Image, p: int, k: nat)
    requires Healthy(d) && IsDir(d, p) && k < |DirEntries(d, p)| && DirEntries(d, p)[k].ftype != FT_DIR
    ensures var t := DirEntries(d, p)[k].inode; Names(d, p, k, t) && InodeUsed(d, t) && Sound(d, t) && t != p
  {
    hide NodeAt, DirEntries, Apart, NamedOnce, Sound, EntryKind;
    assert DirOK(d, p) && DirTiled(d, p);
    assert EntryLive(d, p, DirEntries(d, p)[k]);
  }

  // Whether the blocks that a failing copy takes first can be given back.
  ghost predicate CopyLow(d: Image, p: int, src: Name, dst: Name)
    requires 1 <= p <= INODES_PER_GROUP
  {
    var x := Target(d, p, src);
    CopyOutcome(d, p, src, dst) == -5 || CopyOutcome(d, p, src, dst) == -8 ==>
      1 <= x <= INODES_PER_GROUP && AllocatesLow(Used(d), CopyCost(NodeAt(d, x)))
  }

  /** copy_file: on failure nothing visible changed, on success there is one entry more,
      leading to a new inode with copies of the direct blocks of the source. */
  method CopyFile(v: Volume, p: int, src: Name, dst: Name) returns (rc: int, ghost e: Entry, ghost m: Inode)
    requires v.Valid() && Healthy(v.Image()) && InodeUsed(v.Image(), p) && CopyLow(v.Image(), p, src, dst)
    modifies v.disk
    ensures rc == CopyOutcome(old(v.Image()), p, src, dst)
    ensures rc != 0 ==> Unchanged(old(v.Image()), v.Image())
    ensures rc == 0 ==> Copied(old(v.Image()), p, src, dst, e, m, v.Image())
  {
    hide NodeAt, Chain, Entries, HasRoom, Healthy, Unchanged, Copied, AllocatesLow, Sound, CopyCost;
    ghost var d := v.Image();
    e, m := Entry(0, FT_REG, dst), BlankInode();
    UnchangedItself(d);
    if |src| == 0 || |dst| == 0 {
      return -1, e, m;
    }
    var parent := v.ReadInode(p);
    if !IsDirectory(parent) {
      return -1, e, m;
    }
    DirIsOneBlock(d, p);
    var found, index, o, x, ftype, k := SearchDirectory(v, parent, src);
    if found && ftype == FT_DIR {
      return -3, e, m;
    }
    if !found {
      return -1, e, m;
    }
    FileEntry(d, p, k);
    var exists_, index2, o2, x2, ftype2, k2 := SearchDirectory(v, parent, dst);
    if exists_ {
      return -2, e, m;
    }
    var source := v.ReadInode(x);
    if IsDirectory(source) {
      return -3, e, m;
    }
    var i := v.AllocateNode();
    if i == 0 {
      return -4, e, m;
    }
    rc, m := FillCopy(v, p, parent, dst, x, source, i, d);
    e := Entry(i, FT_REG, dst);
    CopiedIntro(d, p, src, dst, e, m, k, rc, v.Image());
  }

  // The effect of a successful copy.
  ghost predicate Copied(d: Image, p: int, src: Name, dst: Name, e: Entry, m: Inode, d': Image) {
    && 1 <= p <= INODES_PER_GROUP && FirstFreeInode(d, e.inode) && e.ftype == FT_REG && e.name == dst
    && Added(d, p, e, m, d') && EntryFits(d, p, e, m) && !IsDirectory(m)
    && InodeUsed(d, Target(d, p, src)) && Target(d, p, src) != p
    && CopiedTo(d, NodeAt(d, Target(d, p, src)), BlocksToCopy(NodeAt(d, Target(d, p, src))), d', m)
  }

  lemma CopiedIntro(d: Image, p: int, src: Name, dst: Name, e: Entry, m: Inode, k: nat, rc: int, d': Image)
    requires IsDir(d, p) && k == Find(DirEntries(d, p), src) < |DirEntries(d, p)|
    requires var x := DirEntries(d, p)[k].inode; InodeUsed(d, x) && x != p
    requires FirstFreeInode(d, e.inode) && e.ftype == FT_REG && e.name == dst
    requires Find(DirEntries(d, p), dst) == |DirEntries(d, p)|
    requires rc == 0 ==> Added(d, p, e, m, d') && !IsDirectory(m)
    requires rc == 0 ==>
      var n := NodeAt(d, DirEntries(d, p)[k].inode); CopiedTo(d, n, BlocksToCopy(n), d', m)
    ensures rc == 0 ==> Copied(d, p, src, dst, e, m, d')
  {
    hide NodeAt, DirEntries, Added, BlocksToCopy, CopiedTo;
  }

  // copy_file from the point where an inode number is taken.
  method FillCopy(v: Volume, p: int, parent: Inode, dst: Name, x: int, source: Inode, i: int, ghost d: Image)
    returns (rc: int, m: Inode)
    requires v.Valid() && Healthy(d) && IsDir(d, p) && parent == NodeAt(d, p) && ReservedUsed(d)
    requires |Used(d)| + CopyCost(source) > BITS || !DirHasRoom(d, p, |dst|) ==> AllocatesLow(Used(d), CopyCost(source))
    requires Sound(d, x) && source == NodeAt(d, x) && !IsDirectory(source)
    requires 1 <= i <= INODES_PER_GROUP && !InodeUsed(d, i)
    requires v.Image() == d[INODE_BITMAP := SetBit(d[INODE_BITMAP], i - 1)]
    modifies v.disk
    ensures rc == if |Used(d)| + CopyCost(source) > BITS then -5
                  else if !DirHasRoom(d, p, |dst|) then -8 else 0
    ensures rc != 0 ==> Unchanged(d, v.Image())
    ensures rc == 0 ==> Added(d, p, Entry(i, FT_REG, dst), m, v.Image()) && !IsDirectory(m)
    ensures rc == 0 ==> CopiedTo(d, source, BlocksToCopy(source), v.Image(), m)
  {
    hide NodeAt, Chain, Entries, Healthy, Unchanged, Added, Prepared, Staged, DirHasRoom, CopiedTo, BlocksToCopy,
         AllocatesLow, LowBlocks, CopyCost, FreshBlocks;
    var ok;
    ok, m := CopyBlocks(v, i, source, x, d);
    if !ok {
      return -5, m;
    }
    ghost var d1 := v.Image();
    CopyIsFile(d, x, source, BlocksToCopy(source), d1, m);
    v.SyncNode(m, i);
    PreparedBySync(d, i, m, d1, v.Image());
    ghost var d2 := v.Image();
    var added := LinkEntry(v, p, parent, Entry(i, FT_REG, dst), m, 12, d);
    if !added {
      return -8, m;
    }
    CopyKept(d, i, source, BlocksToCopy(source), d1, d2, m, v.Image());
    rc := 0;
  }

  lemma CopyIsFile(d: Image, x: int, n: Inode, k: nat, d1: Image, m: Inode)
    requires CopiedTo(d, n, k, d1, m) && Sound(d, x) && n == NodeAt(d, x) && !IsDirectory(n)
    ensures !IsDirectory(m) && m.blocks == BlocksFor(m.size)
  {
    hide NodeAt, BlocksFor;
  }

  lemma CopyKept(d: Image, i: int, n: Inode, k: nat, d1: Image, d2: Image, m: Inode, d3: Image)
    requires CopiedTo(d, n, k, d1, m) && Prepared(d, i, m, d2)
    requires forall b :: 9 <= b < DISK_BLOCKS ==> d2[b] == d1[b]
    requires forall j :: 0 <= j < 12 && m.block[j] != 0 ==> BlockAt(d3, m.block[j]) == BlockAt(d2, m.block[j])
    ensures CopiedTo(d, n, k, d3, m)
  {
    hide NodeAt, Kept;
  }
}
