/** The whole file system on an image: what stays true over every run of the directory
    operations, and what a single operation may change. */
module FsState {
  import opened Bytes
  import opened Bitmap
  import opened Layout
  import opened BlockTree
  import opened Growth
  import opened Contents
  import opened Directory

  const ROOT := 2
  const DOT: seq<byte> := [46]
  const DOTDOT: seq<byte> := [46, 46]

  predicate IsDot(name: seq<byte>) { name == DOT || name == DOTDOT }

  // Pointer s of inode number i.
  function PtrOf(d: Image, i: int, s: Slot): u32
    requires 1 <= i <= INODES_PER_GROUP && Valid(s)
  {
    Ptr(d, NodeAt(d, i), s)
  }

  function DirBlock(d: Image, i: int): u32
    requires 1 <= i <= INODES_PER_GROUP
  {
    NodeAt(d, i).block[0]
  }

  // The entries of directory i; empty when the block is not a proper chain.
  function DirEntries(d: Image, i: int): seq<Entry>
    requires 1 <= i <= INODES_PER_GROUP
  {
    var b := BlockAt(d, DirBlock(d, i));
    if Chain(b, 0) then Entries(b, 0) else []
  }

  predicate IsDir(d: Image, i: int) {
    InodeUsed(d, i) && IsDirectory(NodeAt(d, i))
  }

  function LiveInodes(d: Image): set<int> {
    set i | 1 <= i <= INODES_PER_GROUP && InodeUsed(d, i)
  }

  // Everything an inode points at is in use, once, and i_blocks is what the size asks for.
  ghost predicate Sound(d: Image, i: int) {
    && InodeUsed(d, i) && Tree(d, NodeAt(d, i), Used(d))
    && NodeAt(d, i).blocks == BlocksFor(NodeAt(d, i).size)
  }

  ghost predicate Apart(d: Image, i: int, j: int)
    requires 1 <= i <= INODES_PER_GROUP && 1 <= j <= INODES_PER_GROUP
  {
    forall s, t :: Valid(s) && Valid(t) && PtrOf(d, i, s) != 0 ==> PtrOf(d, i, s) != PtrOf(d, j, t)
  }

  // "." and ".." as directories start with them.
  predicate Dot(e: Entry) { e.ftype == FT_DIR && IsDot(e.name) }

  // A used entry names a live inode other than the root and its own directory.
  predicate EntryLive(d: Image, i: int, e: Entry) {
    e.inode != 0 && !Dot(e) ==> InodeUsed(d, e.inode) && e.inode != ROOT && e.inode != i
  }

  // A directory is one block, exactly tiled by records.
  ghost predicate DirTiled(d: Image, i: int)
    requires 1 <= i <= INODES_PER_GROUP
  {
    && DirBlock(d, i) != 0 && NodeAt(d, i).blocks == 1 && Chain(BlockAt(d, DirBlock(d, i)), 0)
    && forall k :: 0 <= k < |DirEntries(d, i)| ==> EntryLive(d, i, DirEntries(d, i)[k])
  }

  // Used entry k of directory i names inode x.
  predicate Names(d: Image, i: int, k: nat, x: int) {
    && IsDir(d, i) && k < |DirEntries(d, i)| && x != 0
    && !Dot(DirEntries(d, i)[k]) && DirEntries(d, i)[k].inode == x
  }

  ghost predicate NamedOnce(d: Image) {
    forall i, j, k, l, x :: Names(d, i, k, x) && Names(d, j, l, x) ==> i == j && k == l
  }

  // What every operation of the file system keeps.
  ghost predicate Kempt(d: Image) {
    && ReservedUsed(d) && IsDir(d, ROOT)
    && (forall i :: InodeUsed(d, i) ==> Sound(d, i))
    && (forall i, j :: InodeUsed(d, i) && InodeUsed(d, j) && i != j ==> Apart(d, i, j))
    && (forall i :: IsDir(d, i) ==> DirTiled(d, i))
    && NamedOnce(d)
  }

  // An entry marked as a directory leads to a directory, or to an inode whose record was lost.
  predicate EntryKind(d: Image, e: Entry) {
    e.ftype == FT_DIR && !IsDot(e.name) && 1 <= e.inode <= INODES_PER_GROUP ==>
      IsDirectory(NodeAt(d, e.inode)) || NodeAt(d, e.inode).blocks == 0
  }

  // No empty slots, unique names, "." first.
  ghost predicate DirOK(d: Image, i: int)
    requires 1 <= i <= INODES_PER_GROUP
  {
    && AllUsed(DirEntries(d, i)) && UniqueNames(DirEntries(d, i))
    && DirEntries(d, i) != [] && DirEntries(d, i)[0].name == DOT && DirEntries(d, i)[0].ftype == FT_DIR
    && forall k :: 0 <= k < |DirEntries(d, i)| ==> EntryKind(d, DirEntries(d, i)[k])
  }

  // What the directory system calls rely on.
  ghost predicate Healthy(d: Image) {
    Kempt(d) && forall i :: IsDir(d, i) ==> DirOK(d, i)
  }

  // Inode i has the same record, the same blocks and the same contents in d and d'.
  ghost predicate SameInode(d: Image, i: int, d': Image)
    requires 1 <= i <= INODES_PER_GROUP
  {
    && NodeAt(d', i) == NodeAt(d, i)
    && (forall s :: Valid(s) ==> PtrOf(d', i, s) == PtrOf(d, i, s))
    && (forall s :: Valid(s) && PtrOf(d, i, s) != 0 ==> BlockAt(d', PtrOf(d, i, s)) == BlockAt(d, PtrOf(d, i, s)))
    && FileContent(d', NodeAt(d', i)) == FileContent(d, NodeAt(d, i))
    && DirEntries(d', i) == DirEntries(d, i)
  }

  // All blocks in use, except those in `but`, hold in d' what they held in d.
  ghost predicate KeepsBlocks(d: Image, but: set<int>, d': Image) {
    forall b :: b in Used(d) && FIRST_FREE_BLOCK <= b < BITS && b !in but ==> d'[b] == d[b]
  }

  // An inode none of whose blocks may have changed did not change.
  lemma InodeFrame(d: Image, i: int, but: set<int>, d': Image)
    requires Sound(d, i) && KeepsBlocks(d, but, d') && NodeAt(d', i) == NodeAt(d, i)
    requires forall s :: Valid(s) && PtrOf(d, i, s) != 0 ==> PtrOf(d, i, s) !in but
    ensures SameInode(d, i, d')
  {
    var n := NodeAt(d, i);
    assert SameTables(d, n, d') by {
      forall s | Valid(s) && IsTable(s) && 0 < Ptr(d, n, s) < DISK_BLOCKS ensures d'[Ptr(d, n, s)] == d[Ptr(d, n, s)] {
        assert PtrOf(d, i, s) != 0;
      }
    }
    PtrFrame(d, n, d');
    forall s | Valid(s) && PtrOf(d, i, s) != 0 ensures BlockAt(d', PtrOf(d, i, s)) == BlockAt(d, PtrOf(d, i, s)) {
    }
    forall k | 0 <= k < n.size ensures FileByte(d', n, k) == FileByte(d, n, k) {
      var l := k / 512;
      if l < MAX_BLOCKS {
        assert Ptr(d, n, DataSlot(l)) == PtrOf(d, i, DataSlot(l));
      }
    }
    assert PtrOf(d, i, Direct(0)) == DirBlock(d, i);
  }

  // The bookkeeping and every live inode are as before.
  ghost predicate Unchanged(d: Image, d': Image) {
    && d'[BLOCK_BITMAP] == d[BLOCK_BITMAP] && d'[INODE_BITMAP] == d[INODE_BITMAP]
    && (forall i :: InodeUsed(d, i) ==> NodeAt(d', i) == NodeAt(d, i))
    && KeepsBlocks(d, {}, d')
  }

  /** When bitmaps, live records and blocks in use are as before, so is every directory and
      every file. */
  lemma UnchangedSame(d: Image, d': Image)
    requires Kempt(d) && Unchanged(d, d')
    ensures forall i :: InodeUsed(d, i) ==> InodeUsed(d', i) && SameInode(d, i, d')
    ensures forall i :: InodeUsed(d', i) ==> InodeUsed(d, i)
  {
    forall i | InodeUsed(d, i) ensures SameInode(d, i, d') {
      assert Sound(d, i);
      InodeFrame(d, i, {}, d');
    }
  }

  // Only blocks that hold no pointer table of i changed, so its pointers did not.
  lemma PointersFrame(d: Image, i: int, but: set<int>, d': Image)
    requires Sound(d, i) && KeepsBlocks(d, but, d') && NodeAt(d', i) == NodeAt(d, i)
    requires forall s :: Valid(s) && IsTable(s) && PtrOf(d, i, s) != 0 ==> PtrOf(d, i, s) !in but
    ensures forall s :: Valid(s) ==> PtrOf(d', i, s) == PtrOf(d, i, s)
  {
    var n := NodeAt(d, i);
    assert SameTables(d, n, d') by {
      forall s | Valid(s) && IsTable(s) && 0 < Ptr(d, n, s) < DISK_BLOCKS ensures d'[Ptr(d, n, s)] == d[Ptr(d, n, s)] {
        assert PtrOf(d, i, s) != 0;
      }
    }
    PtrFrame(d, n, d');
  }

  // The directory block of p belongs to p alone, and it holds no pointer table.
  lemma DirBlockOwn(d: Image, p: int)
    requires Kempt(d) && IsDir(d, p)
    ensures FIRST_FREE_BLOCK <= DirBlock(d, p) < BITS && DirBlock(d, p) in Used(d)
    ensures forall s :: Valid(s) && PtrOf(d, p, s) == DirBlock(d, p) ==> s == Direct(0)
    ensures forall i, s :: InodeUsed(d, i) && i != p && Valid(s) ==> PtrOf(d, i, s) != DirBlock(d, p)
    ensures Chain(d[DirBlock(d, p)], 0) && DirEntries(d, p) == Entries(d[DirBlock(d, p)], 0) && DirEntries(d, p) != []
  {
    hide NodeAt, EntryLive;
    assert PtrOf(d, p, Direct(0)) == DirBlock(d, p);
    assert Sound(d, p) && DirTiled(d, p);
    forall i, s | InodeUsed(d, i) && i != p && Valid(s) ensures PtrOf(d, i, s) != DirBlock(d, p) {
      assert Apart(d, p, i);
    }
  }

  // All that is in use outside the block of directory p holds what it held.
  lemma OtherInode(d: Image, p: int, d': Image, i: int)
    requires Kempt(d) && IsDir(d, p) && InodeUsed(d, i)
    requires KeepsBlocks(d, {DirBlock(d, p)}, d') && NodeAt(d', i) == NodeAt(d, i)
    ensures forall s :: Valid(s) ==> PtrOf(d', i, s) == PtrOf(d, i, s)
    ensures i != p ==> SameInode(d, i, d')
  {
    hide NodeAt, Chain, Entries, Apart, NamedOnce, DirTiled, FileContent, DirEntries, SameInode;
    assert Sound(d, i);
    DirBlockOwn(d, p);
    PointersFrame(d, i, {DirBlock(d, p)}, d');
    if i != p {
      InodeFrame(d, i, {DirBlock(d, p)}, d');
    }
  }

  lemma KemptReserved(d: Image)
    requires Kempt(d)
    ensures ReservedUsed(d)
  {
  }

  lemma SoundInode(d: Image, i: int)
    requires Kempt(d) && InodeUsed(d, i)
    ensures Sound(d, i)
  {
  }

  lemma InUse(d: Image, i: int, s: Slot)
    requires Sound(d, i) && Valid(s) && PtrOf(d, i, s) != 0
    ensures PtrOf(d, i, s) in Used(d) && FIRST_FREE_BLOCK <= PtrOf(d, i, s) < BITS
  {
  }

  // What concerns a single live inode, or two, carries over.
  lemma SoundFrame(d: Image, i: int, d': Image)
    requires Sound(d, i) && InodeUsed(d', i) && NodeAt(d', i) == NodeAt(d, i)
    requires forall s :: Valid(s) ==> PtrOf(d', i, s) == PtrOf(d, i, s)
    requires forall s :: Valid(s) && PtrOf(d, i, s) != 0 ==> PtrOf(d, i, s) in Used(d')
    ensures Sound(d', i)
  {
    hide NodeAt;
    forall s | Valid(s) ensures Ptr(d', NodeAt(d', i), s) == Ptr(d, NodeAt(d, i), s) {
      assert PtrOf(d', i, s) == PtrOf(d, i, s);
    }
  }

  lemma ApartFrame(d: Image, i: int, j: int, d': Image)
    requires 1 <= i <= INODES_PER_GROUP && 1 <= j <= INODES_PER_GROUP && Apart(d, i, j)
    requires forall s :: Valid(s) ==> PtrOf(d', i, s) == PtrOf(d, i, s) && PtrOf(d', j, s) == PtrOf(d, j, s)
    ensures Apart(d', i, j)
  {
  }
}
