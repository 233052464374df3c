/** The deleting system calls of the kernel: delete_file and delete_directory. */
module FsDelete {
  import opened Bytes
  import opened Bitmap
  import opened Layout
  import opened BlockTree
  import opened Growth
  import opened Contents
  import opened Directory
  import opened DirSlots
  import opened FsState
  import opened FsEffects
  import opened FsStaging
  import opened Volume
  import Teardown
  import opened FsOps

  // The free-block counters after the mapped ones of the first k direct blocks of n were counted.
  ghost predicate Counted(v: Volume, n: Inode, k: nat, s0: u32, g0: u16)
    requires k <= 12
    reads v
  {
    && v.sFreeBlocks == Teardown.Bumped(s0, Mapped(n, k), 0x1_0000_0000)
    && v.bgFreeBlocks == Teardown.Bumped(g0, Mapped(n, k), 0x1_0000)
  }

  // The blocks a removal frees: the direct ones among the first i_blocks.
  function DirectBlocks(n: Inode): set<int> {
    set k | 0 <= k < 12 && k < n.blocks && n.block[k] != 0 :: n.block[k]
  }

  // They lie where the free functions can take them back.
  predicate LowDirect(n: Inode) {
    forall k :: 0 <= k < 12 && k < n.blocks ==> n.block[k] < BLOCKS_PER_GROUP
  }

  // A deleting system call: the direct blocks of the removed inode, and no others, are free.
  ghost predicate Removed(d: Image, p: int, k: nat, d': Image) {
    Uprooted(d, p, k, d') && Used(d') == Used(d) - DirectBlocks(NodeAt(d, DirEntries(d, p)[k].inode))
  }

  // Frees the direct blocks of an inode, counting each of them.
  method FreeDirectBlocks(v: Volume, n: Inode)
    requires v.Valid() && LowDirect(n)
    modifies v.disk, v`sFreeBlocks, v`bgFreeBlocks
    ensures v.Image() == old(v.Image())[BLOCK_BITMAP := v.Image()[BLOCK_BITMAP]]
    ensures Used(v.Image()) == Used(old(v.Image())) - DirectBlocks(n)
    ensures Counted(v, n, BlocksFreed(n), old(v.sFreeBlocks), old(v.bgFreeBlocks))
  {
    ghost var d, s0, g0 := v.Image(), v.sFreeBlocks, v.bgFreeBlocks;
    var k := 0;
    while k < n.blocks && k < 12
      invariant 0 <= k <= 12 && k <= n.blocks && Counted(v, n, k, s0, g0)
      invariant v.Image() == d[BLOCK_BITMAP := v.Image()[BLOCK_BITMAP]]
      invariant Used(v.Image()) == Used(d) - FirstBlocks(n, k)
    {
      if n.block[k] != 0 {
        v.DeallocateBlock(n.block[k]);
      }
      assert FirstBlocks(n, k + 1) == FirstBlocks(n, k) + if n.block[k] != 0 then {n.block[k]} else {};
      k := k + 1;
    }
    assert FirstBlocks(n, k) == DirectBlocks(n);
  }

  function FirstBlocks(n: Inode, m: nat): set<int> {
    set k | 0 <= k < 12 && k < m && k < n.blocks && n.block[k] != 0 :: n.block[k]
  }

  // Frees the inode at entry k of directory p and takes the entry out of its block.
  method RemoveTarget(v: Volume, p: int, parent: Inode, index: nat, o: nat, t: int, ghost k: nat)
    requires v.Valid() && Healthy(v.Image()) && IsDir(v.Image(), p) && parent == NodeAt(v.Image(), p)
    requires Names(v.Image(), p, k, t) && InodeUsed(v.Image(), t) && LowDirect(NodeAt(v.Image(), t)) && index == 0
    requires OneBlock(v.Image(), parent) && Steps(v.Image()[parent.block[0]], 0, k, o) && o < 512
    modifies v.disk, v`sFreeBlocks, v`bgFreeBlocks
    ensures Removed(old(v.Image()), p, k, v.Image())
    ensures var n := NodeAt(old(v.Image()), t);
      Counted(v, n, BlocksFreed(n), old(v.sFreeBlocks), old(v.bgFreeBlocks))
  {
    hide NodeAt, Chain, Entries, Healthy, Removed, Steps, Counted, Names, LowDirect, AllUsed, DirEntries;
    ghost var d := v.Image();
    RemoveReady(d, p, k, t);
    var target := v.ReadInode(t);
    FreeDirectBlocks(v, target);
    ghost var d1 := v.Image();
    v.ClearInodeUsed(t);
    ghost var d2 := v.Image();
    var buf := Load(v, parent.block[index]);
    RemoveEntryAt(buf, o, k);
    v.WriteBlock(buf[..], parent.block[index]);
    RemovedNow(d, p, k, t, d1, d2, v.Image()[parent.block[0]], v.Image());
  }

  lemma RemoveReady(d: Image, p: int, k: nat, t: int)
    requires Healthy(d) && Names(d, p, k, t)
    ensures k > 0 && k < |DirEntries(d, p)| && DirEntries(d, p)[k].inode == t
    ensures Entries(d[DirBlock(d, p)], 0) == DirEntries(d, p) && FIRST_FREE_BLOCK <= DirBlock(d, p) < BITS
  {
    hide NodeAt, Chain, Entries, DirEntries, Kempt, UniqueNames, EntryKind, AllUsed;
    DirIsOneBlock(d, p);
    assert DirOK(d, p);
  }

  lemma RemovedNow(d: Image, p: int, k: nat, t: int, d1: Image, d2: Image, b: Block, d3: Image)
    requires Healthy(d) && Names(d, p, k, t) && InodeUsed(d, t) && k > 0
    requires 0 < DirBlock(d, p) < DISK_BLOCKS && d3 == d2[DirBlock(d, p) := b]
    requires d1 == d[BLOCK_BITMAP := d1[BLOCK_BITMAP]] && Used(d1) == Used(d) - DirectBlocks(NodeAt(d, t))
    requires d2 == d1[INODE_BITMAP := ClearBit(d1[INODE_BITMAP], t - 1)]
    requires Chain(b, 0) && Entries(b, 0) == Without(DirEntries(d, p), k)
    ensures Removed(d, p, k, d3)
  {
    hide NodeAt, Chain, Entries, DirEntries, Kempt, Without, DirectBlocks, Owns;
    DirBlockOwn(d, p);
    TableFrame(d, d3);
    InodeUnmarked(d, t, d3);
    DirectOwned(d, NodeAt(d, t));
  }

  lemma DirectOwned(d: Image, n: Inode)
    ensures forall b :: b in DirectBlocks(n) ==> b != 0 && Owns(d, n, b)
  {
    forall b | b in DirectBlocks(n) ensures Owns(d, n, b) {
      var k :| 0 <= k < 12 && n.block[k] == b;
      assert Ptr(d, n, Direct(k)) == b;
    }
  }

  // The record of the inode that a name in directory p leads to.
  function NamedNode(d: Image, p: int, name: seq<byte>): Inode
    requires 1 <= p <= INODES_PER_GROUP
  {
    var x := Target(d, p, name);
    if 1 <= x <= INODES_PER_GROUP then NodeAt(d, x) else BlankInode()
  }

  function DeleteFileOutcome(d: Image, p: int, name: Name): int
    requires 1 <= p <= INODES_PER_GROUP
  {
    var es := DirEntries(d, p);
    var k := Find(es, name);
    if name == [] then -1
    else if !IsDirectory(NodeAt(d, p)) then -2
    else if k == |es| then -3
    else if es[k].ftype == FT_DIR then -6
    else 0
  }

  /** delete_file: removes the entry and the inode it names; anything else is refused
      without a change. */
  method DeleteFile(v: Volume, p: int, name: Name) returns (rc: int)
    requires v.Valid() && Healthy(v.Image()) && InodeUsed(v.Image(), p)
    requires DeleteFileOutcome(v.Image(), p, name) == 0 ==> LowDirect(NamedNode(v.Image(), p, name))
    modifies v.disk, v`sFreeBlocks, v`bgFreeBlocks
    ensures rc == DeleteFileOutcome(old(v.Image()), p, name)
    ensures rc != 0 ==>
      v.Image() == old(v.Image()) && v.sFreeBlocks == old(v.sFreeBlocks) && v.bgFreeBlocks == old(v.bgFreeBlocks)
    ensures rc == 0 ==> Removed(old(v.Image()), p, Find(DirEntries(old(v.Image()), p), name), v.Image())
    ensures rc == 0 ==> var n := NamedNode(old(v.Image()), p, name);
      Counted(v, n, BlocksFreed(n), old(v.sFreeBlocks), old(v.bgFreeBlocks))
  {
    hide NodeAt, Chain, Entries, Healthy, Removed, Steps, Counted, DirEntries, LowDirect, AllUsed, Names, Sound;
    ghost var d := v.Image();
    if |name| == 0 {
      return -1;
    }
    var parent := v.ReadInode(p);
    if !IsDirectory(parent) {
      return -2;
    }
    DirIsOneBlock(d, p);
    var found, index, o, t, ftype, k := SearchDirectory(v, parent, name);
    if found && ftype == FT_DIR {
      return -6;
    }
    if !found {
      return -3;
    }
    FileEntry(d, p, k);
    RemoveTarget(v, p, parent, index, o, t, k);
    return 0;
  }

  predicate AllDots(es: seq<Entry>) {
    forall k :: 0 <= k < |es| ==> IsDot(es[k].name)
  }

  // The emptiness test looks only at the blocks the target claims to have.
  predicate EmptyDirectory(d: Image, t: int)
    requires 1 <= t <= INODES_PER_GROUP
  {
    NodeAt(d, t).blocks == 0 || AllDots(DirEntries(d, t))
  }

  function DeleteDirectoryOutcome(d: Image, p: int, name: Name): int
    requires 1 <= p <= INODES_PER_GROUP
  {
    var es := DirEntries(d, p);
    var k := Find(es, name);
    if name == [] then -1
    else if !IsDirectory(NodeAt(d, p)) then -2
    else if k == |es| then -3
    else if es[k].ftype != FT_DIR then -6
    else if !(1 <= es[k].inode <= INODES_PER_GROUP) then -3
    else if !EmptyDirectory(d, es[k].inode) then -7
    else 0
  }

  // Whether the record at o is called "." or "..".
  method IsDotAt(buf: array<byte>, o: nat) returns (dot: bool)
    requires buf.Length == 512 && RecordAt(buf[..], o)
    ensures dot <==> IsDot(EntryAt(buf[..], o).name)
  {
    var len := NameLenOf(buf, o);
    ghost var name := EntryAt(buf[..], o).name;
    assert |name| == len && forall x :: 0 <= x < len ==> name[x] == buf[o + HEADER + x];
    var current := len == 1 && buf[o + HEADER] == 46;
    var parent := len == 2 && buf[o + HEADER] == 46 && buf[o + HEADER + 1] == 46;
    assert len == 1 ==> name == [name[0]];
    assert len == 2 ==> name == [name[0], name[1]];
    assert |DOT| == 1 && DOT[0] == 46 && |DOTDOT| == 2 && DOTDOT[0] == 46 && DOTDOT[1] == 46;
    assert current <==> name == DOT;
    assert parent <==> name == DOTDOT;
    dot := current || parent;
  }

  // Scans one block for an entry other than "." and "..".
  method OnlyDots(buf: array<byte>) returns (empty: bool)
    requires buf.Length == 512 && Chain(buf[..], 0) && AllUsed(Entries(buf[..], 0))
    ensures empty <==> AllDots(Entries(buf[..], 0))
  {
    hide Chain, Entries, RecordAt, EntryAt, Steps, IsDot, AllUsed;
    ghost var b := buf[..];
    ghost var es := Entries(b, 0);
    empty := true;
    var o := 0;
    ghost var k: nat := 0;
    StepsStart(b, 0);
    while o < 512
      invariant buf[..] == b
      invariant Chain(b, 0) && Steps(b, 0, k, o) && Position(b, k, o)
      invariant empty && forall i :: 0 <= i < k ==> IsDot(es[i].name)
      decreases 512 - o
    {
      ChainHead(b, o);
      HeaderFits(b, o);
      UsedHere(b, k, o);
      var inode := InodeOf(buf, o);
      var rec := RecLenOf(buf, o);
      if inode == 0 || rec == 0 || o + rec > 512 {
        break;
      }
      var dot := IsDotAt(buf, o);
      if !dot {
        assert k < |es| && es[k] == EntryAt(b, o) && !IsDot(es[k].name);
        empty := false;
        return;
      }
      StepsMore(b, 0, k, o);
      o, k := o + rec, k + 1;
      PositionAfter(b, k, o);
    }
  }

  method CheckEmpty(v: Volume, t: int, target: Inode) returns (empty: bool)
    requires v.Valid() && 1 <= t <= INODES_PER_GROUP && target == NodeAt(v.Image(), t)
    requires target.blocks == 0 || OneBlock(v.Image(), target)
    ensures empty <==> EmptyDirectory(v.Image(), t)
  {
    hide NodeAt, Chain, Entries, IsDot, AllUsed;
    assert target.blocks != 0 ==> DirEntries(v.Image(), t) == Entries(v.Image()[target.block[0]], 0);
    empty := true;
    var index := 0;
    while index < target.blocks && index < 12 && empty
      invariant index <= 1 && index <= target.blocks
      invariant !empty ==> target.blocks != 0 && !EmptyDirectory(v.Image(), t)
      invariant empty && index == 1 ==> EmptyDirectory(v.Image(), t)
      decreases 1 - index, empty
    {
      if target.block[index] != 0 {
        var buf := Load(v, target.block[index]);
        empty := OnlyDots(buf);
        assert index == 0 && Entries(buf[..], 0) == DirEntries(v.Image(), t);
      }
      if empty {
        index := index + 1;
      }
    }
  }

  lemma DirectoryEntryTarget(d: Image, p: int, k: nat)
    requires Healthy(d) && IsDir(d, p) && k < |DirEntries(d, p)|
    requires DirEntries(d, p)[k].ftype == FT_DIR && !IsDot(DirEntries(d, p)[k].name)
    ensures var t := DirEntries(d, p)[k].inode;
      InodeUsed(d, t) && Names(d, p, k, t) && (NodeAt(d, t).blocks == 0 || OneBlock(d, NodeAt(d, t)))
  {
    hide NodeAt, Chain, DirEntries, Apart, NamedOnce, Sound, OneBlock, UniqueNames;
    var e := DirEntries(d, p)[k];
    assert DirOK(d, p) && DirTiled(d, p);
    assert EntryKind(d, e) && EntryLive(d, p, e) && e.inode != 0;
    if IsDirectory(NodeAt(d, e.inode)) {
      DirIsOneBlock(d, e.inode);
    }
  }

  /** delete_directory, for names other than "." and "..". */
  method DeleteDirectory(v: Volume, p: int, name: Name) returns (rc: int)
    requires v.Valid() && Healthy(v.Image()) && InodeUsed(v.Image(), p) && !IsDot(name)
    requires DeleteDirectoryOutcome(v.Image(), p, name) == 0 ==> LowDirect(NamedNode(v.Image(), p, name))
    modifies v.disk, v`sFreeBlocks, v`bgFreeBlocks
    ensures rc == DeleteDirectoryOutcome(old(v.Image()), p, name)
    ensures rc != 0 ==>
      v.Image() == old(v.Image()) && v.sFreeBlocks == old(v.sFreeBlocks) && v.bgFreeBlocks == old(v.bgFreeBlocks)
    ensures rc == 0 ==> Removed(old(v.Image()), p, Find(DirEntries(old(v.Image()), p), name), v.Image())
    ensures rc == 0 ==> var n := NamedNode(old(v.Image()), p, name);
      Counted(v, n, BlocksFreed(n), old(v.sFreeBlocks), old(v.bgFreeBlocks))
  {
    hide NodeAt, Chain, Entries, Healthy, Removed, Steps, EmptyDirectory, IsDot, Counted, DirEntries, LowDirect,
         AllUsed, Names;
    ghost var d := v.Image();
    if |name| == 0 {
      return -1;
    }
    var parent := v.ReadInode(p);
    if !IsDirectory(parent) {
      return -2;
    }
    DirIsOneBlock(d, p);
    var found, index, o, t, ftype, k := SearchDirectory(v, parent, name);
    if found && ftype != FT_DIR {
      return -6;
    }
    if !found {
      return -3;
    }
    DirectoryEntryTarget(d, p, k);
    var target := v.ReadInode(t);
    var empty := CheckEmpty(v, t, target);
    if !empty {
      return -7;
    }
    RemoveTarget(v, p, parent, index, o, t, k);
    return 0;
  }
}
