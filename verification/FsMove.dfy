/** What a copy contains, and what mv does, which is a copy followed by a removal. */
module FsMove {
  import opened Bytes
  import opened Bitmap
  import opened Layout
  import opened BlockTree
  import opened Growth
  import opened Contents
  import opened Directory
  import opened DirSlots
  import opened FsState
  import opened FsEffects
  import opened FsStaging
  import opened Volume
  import opened FsOps
  import opened FsDelete

  lemma CopySlot(d: Image, p: int, src: Name, dst: Name, e: Entry, m: Inode, d': Image, l: nat)
    requires Copied(d, p, src, dst, e, m, d') && l < MAX_BLOCKS
    ensures var n := NodeAt(d, Target(d, p, src));
      BlockAt(d', Lookup(d', NodeAt(d', e.inode), l)) ==
      if l < BlocksKept(e.inode, BlocksToCopy(n)) then BlockAt(d, Lookup(d, n, l)) else ZeroBlock()
  {
    hide NodeAt, Added, DirEntries, Target, EntryFits, BlocksToCopy;
    var s := DataSlot(l);
    assert PtrOf(d', e.inode, s) == Ptr(d', NodeAt(d', e.inode), s);
    NewPointers(d, p, e, m, d', s);
    var n := NodeAt(d, Target(d, p, src));
    if l < 12 {
      assert s == Direct(l);
      assert Ptr(d, n, s) == n.block[l];
    }
  }

  /** The copy has the bytes of the source as far as blocks were copied and kept, and zeros
      behind them. */
  lemma CopyReads(d: Image, p: int, src: Name, dst: Name, e: Entry, m: Inode, d': Image, k: nat)
    requires Copied(d, p, src, dst, e, m, d')
    ensures var n := NodeAt(d, Target(d, p, src));
      FileByte(d', NodeAt(d', e.inode), k) ==
      if k / 512 < BlocksKept(e.inode, BlocksToCopy(n)) then FileByte(d, n, k) else 0
  {
    hide NodeAt, Copied, Target, BlocksToCopy, Ptr;
    if k / 512 < MAX_BLOCKS {
      CopySlot(d, p, src, dst, e, m, d', k / 512);
    }
  }

  lemma CopySize(d: Image, p: int, src: Name, dst: Name, e: Entry, m: Inode, d': Image)
    requires Copied(d, p, src, dst, e, m, d')
    ensures NodeAt(d', e.inode).size == if e.inode <= 30 then NodeAt(d, Target(d, p, src)).size else 0
    ensures NodeAt(d', e.inode).mode == if e.inode <= 30 then NodeAt(d, Target(d, p, src)).mode else 0
    ensures NodeAt(d', e.inode).blocks == if e.inode <= 30 then NodeAt(d, Target(d, p, src)).blocks else 0
  {
    hide NodeAt, DirEntries, Target, EntryFits, BlocksToCopy;
  }

  // The source has nothing but zeros behind the first k blocks.
  ghost predicate ZerosBehind(d: Image, n: Inode, k: nat) {
    forall x :: 512 * k <= x < n.size ==> FileByte(d, n, x) == 0
  }

  /** Copy fidelity, exactly: the copy equals the source if and only if its record reaches the
      disk, or the source is empty, and the source is all zeros behind the blocks that are kept. */
  lemma CopyFaithful(d: Image, p: int, src: Name, dst: Name, e: Entry, m: Inode, d': Image)
    requires Copied(d, p, src, dst, e, m, d')
    ensures var n := NodeAt(d, Target(d, p, src));
      FileContent(d', NodeAt(d', e.inode)) == FileContent(d, n) <==>
      (e.inode <= 30 || n.size == 0) && ZerosBehind(d, n, BlocksKept(e.inode, BlocksToCopy(n)))
  {
    hide NodeAt, Target, BlocksToCopy, FileByte;
    var n, n' := NodeAt(d, Target(d, p, src)), NodeAt(d', e.inode);
    hide Copied;
    CopySize(d, p, src, dst, e, m, d');
    var s, s' := FileContent(d, n), FileContent(d', n');
    var b := BlocksKept(e.inode, BlocksToCopy(n));
    forall k | 0 <= k < n'.size ensures s'[k] == if k < 512 * b then FileByte(d, n, k) else 0 {
      CopyReads(d, p, src, dst, e, m, d', k);
      assert k / 512 < b <==> k < 512 * b;
    }
    if s' == s {
      forall x | 512 * b <= x < n.size ensures FileByte(d, n, x) == 0 {
        assert s'[x] == s[x];
      }
    }
  }

  /** In particular every file of at most twelve blocks is copied faithfully into an inode that
      reaches the disk. */
  lemma SmallCopyFaithful(d: Image, p: int, src: Name, dst: Name, e: Entry, m: Inode, d': Image)
    requires Kempt(d) && Copied(d, p, src, dst, e, m, d') && e.inode <= 29
    requires NodeAt(d, Target(d, p, src)).size <= 12 * BLOCK_SIZE
    ensures FileContent(d', NodeAt(d', e.inode)) == FileContent(d, NodeAt(d, Target(d, p, src)))
  {
    hide NodeAt, Target, FileByte, BlocksFor, BlocksToCopy, Kempt, Added, EntryFits;
    var n := NodeAt(d, Target(d, p, src));
    SoundInode(d, Target(d, p, src));
    CopyFaithful(d, p, src, dst, e, m, d');
    WholeFile(n);
  }

  lemma WholeFile(n: Inode)
    requires n.size <= 12 * BLOCK_SIZE && n.blocks == BlocksFor(n.size)
    ensures BlocksToCopy(n) == BlocksFreed(n) == BlocksFor(n.size) && n.size <= 512 * BlocksFor(n.size)
  {
  }

  /** The source, like every other live inode but the directory, is untouched by a copy. */
  lemma CopyKeepsOthers(d: Image, p: int, src: Name, dst: Name, e: Entry, m: Inode, d': Image, i: int)
    requires Kempt(d) && Copied(d, p, src, dst, e, m, d') && InodeUsed(d, i) && i != p
    ensures InodeUsed(d', i) && SameInode(d, i, d')
  {
    hide NodeAt, SameInode, Kempt, FreshBlocks, Grafted, DirEntries, Target;
    GraftedOthers(d, p, |DirEntries(d, p)|, e, m, d', i);
  }

  // The images of a move: d before, d1 after the copy, d2 after the removal.
  ghost predicate Moved(d: Image, p: int, src: Name, dst: Name, e: Entry, m: Inode, d1: Image, d2: Image) {
    && Healthy(d) && Copied(d, p, src, dst, e, m, d1) && CopyOutcome(d, p, src, dst) == 0
    && Removed(d1, p, Find(DirEntries(d1, p), src), d2)
  }

  lemma SourceStillListed(d: Image, p: int, src: Name, dst: Name, e: Entry, m: Inode, d1: Image)
    requires Healthy(d) && Copied(d, p, src, dst, e, m, d1) && CopyOutcome(d, p, src, dst) == 0
    ensures var k := Find(DirEntries(d, p), src);
      && k == Find(DirEntries(d1, p), src) < |DirEntries(d, p)| < |DirEntries(d1, p)|
      && DirEntries(d1, p)[k] == DirEntries(d, p)[k] && DirEntries(d, p)[k].ftype != FT_DIR
      && DirEntries(d, p)[k].inode == Target(d, p, src) && DirEntries(d, p)[k].name == src && src != dst
    ensures IsDir(d1, p) && Grafted(d, p, |DirEntries(d, p)|, e, m, d1)
  {
    hide NodeAt, Kempt, FreshBlocks, Grafted, DirEntries, CopiedTo, InodeUsed;
    var es := DirEntries(d, p);
    ParentStays(d, p, |es|, e, m, d1);
    GraftedEntries(d, p, |es|, e, m, d1, p);
    assert es[..|es|] == es;
    FindAppend(es, e, src);
  }

  /** After a successful copy the removal of the source always succeeds. */
  lemma RemovalSucceeds(d: Image, p: int, src: Name, dst: Name, e: Entry, m: Inode, d1: Image)
    requires Healthy(d) && Copied(d, p, src, dst, e, m, d1) && CopyOutcome(d, p, src, dst) == 0
    ensures Healthy(d1) && DeleteFileOutcome(d1, p, src) == 0
    ensures NamedNode(d1, p, src) == NodeAt(d, Target(d, p, src))
  {
    hide NodeAt, Kempt, FreshBlocks, Grafted, DirEntries, CopiedTo, InodeUsed, DirOK, SameInode;
    SourceStillListed(d, p, src, dst, e, m, d1);
    GraftedHealthy(d, p, |DirEntries(d, p)|, e, m, d1);
    GraftedOthers(d, p, |DirEntries(d, p)|, e, m, d1, Target(d, p, src));
    InodeRange(d, Target(d, p, src));
  }

  lemma InodeRange(d: Image, i: int)
    requires InodeUsed(d, i)
    ensures 1 <= i <= INODES_PER_GROUP
  {
  }

  /** The names: the source is gone, the destination leads to the new inode, and nothing else
      changed in any directory. */
  lemma MovedMap(d: Image, p: int, src: Name, dst: Name, e: Entry, m: Inode, d1: Image, d2: Image)
    requires Moved(d, p, src, dst, e, m, d1, d2)
    ensures IsDir(d2, p) && DirMap(d2, p) == (DirMap(d, p) - {src})[dst := e]
    ensures forall i :: IsDir(d, i) && i != p ==> IsDir(d2, i) && DirMap(d2, i) == DirMap(d, i)
  {
    hide Moved, DirMap, NodeAt, IsDirectory;
    MovedHere(d, p, src, dst, e, m, d1, d2);
    forall i | IsDir(d, i) && i != p ensures IsDir(d2, i) && DirMap(d2, i) == DirMap(d, i) {
      MovedElsewhere(d, p, src, dst, e, m, d1, d2, i);
    }
  }

  lemma MovedHere(d: Image, p: int, src: Name, dst: Name, e: Entry, m: Inode, d1: Image, d2: Image)
    requires Moved(d, p, src, dst, e, m, d1, d2)
    ensures IsDir(d2, p) && DirMap(d2, p) == (DirMap(d, p) - {src})[dst := e]
  {
    hide NodeAt, Kempt, DirOK, FreshBlocks, Grafted, Uprooted, DirEntries, CopiedTo, DirMap, Target, CopyOutcome, IsDir;
    SourceStillListed(d, p, src, dst, e, m, d1);
    RemovalSucceeds(d, p, src, dst, e, m, d1);
    GraftedMap(d, p, |DirEntries(d, p)|, e, m, d1);
    UprootedMap(d1, p, Find(DirEntries(d1, p), src), d2);
  }

  lemma MovedElsewhere(d: Image, p: int, src: Name, dst: Name, e: Entry, m: Inode, d1: Image, d2: Image, i: int)
    requires Moved(d, p, src, dst, e, m, d1, d2) && IsDir(d, i) && i != p
    ensures IsDir(d2, i) && DirMap(d2, i) == DirMap(d, i)
  {
    hide NodeAt, Kempt, DirOK, FreshBlocks, KeepsBlocks, Lists, DirEntries, CopiedTo, DirMap, FreshTree, Names;
    SourceStillListed(d, p, src, dst, e, m, d1);
    RemovalSucceeds(d, p, src, dst, e, m, d1);
    GraftedMap(d, p, |DirEntries(d, p)|, e, m, d1);
    UprootedMap(d1, p, Find(DirEntries(d1, p), src), d2);
    assert i != Target(d, p, src);
    assert IsDir(d2, i);
  }

  lemma SameInodeTwice(d: Image, i: int, d1: Image, d2: Image)
    requires 1 <= i <= INODES_PER_GROUP && SameInode(d, i, d1) && SameInode(d1, i, d2)
    ensures SameInode(d, i, d2)
  {
    hide NodeAt, DirEntries, FileContent;
    forall s | Valid(s) && PtrOf(d, i, s) != 0 ensures BlockAt(d2, PtrOf(d, i, s)) == BlockAt(d, PtrOf(d, i, s)) {
      assert PtrOf(d1, i, s) == PtrOf(d, i, s);
    }
  }

  /** The inodes: the old one is gone, the new one is live and reads like the copy, and every
      other live inode but the directory is untouched. */
  lemma MovedInodes(d: Image, p: int, src: Name, dst: Name, e: Entry, m: Inode, d1: Image, d2: Image, i: int)
    requires Moved(d, p, src, dst, e, m, d1, d2)
    ensures InodeUsed(d2, i) <==> i == e.inode || (InodeUsed(d, i) && i != Target(d, p, src))
    ensures InodeUsed(d, i) && i != p && i != Target(d, p, src) ==> SameInode(d, i, d2)
    ensures i == e.inode ==> SameInode(d1, i, d2)
  {
    hide NodeAt, FreshBlocks, DirEntries, CopiedTo, SameInode, Target, CopyOutcome, Kempt, Names, KeepsBlocks, Lists,
         FreshTree, DirOK;
    SourceStillListed(d, p, src, dst, e, m, d1);
    RemovalSucceeds(d, p, src, dst, e, m, d1);
    var k := Find(DirEntries(d1, p), src);
    if InodeUsed(d, i) && i != p && i != Target(d, p, src) {
      GraftedOthers(d, p, |DirEntries(d, p)|, e, m, d1, i);
      UprootedOthers(d1, p, k, d2, i);
      SameInodeTwice(d, i, d1, d2);
    } else if i == e.inode {
      UprootedOthers(d1, p, k, d2, i);
    }
  }

  lemma FirstMappedStep(n: Inode, k: nat)
    requires k < 12 && forall i, j :: 0 <= i < j < 12 && n.block[i] != 0 ==> n.block[i] != n.block[j]
    ensures n.block[k] != 0 ==>
      FirstMapped(n, k + 1) == FirstMapped(n, k) + {n.block[k]} && n.block[k] !in FirstMapped(n, k)
    ensures n.block[k] == 0 ==> FirstMapped(n, k + 1) == FirstMapped(n, k)
  {
    forall x ensures x in FirstMapped(n, k + 1) <==> x in FirstMapped(n, k) || (x == n.block[k] && x != 0) {
    }
  }

  lemma {:induction false} FirstMappedSize(n: Inode, k: nat)
    requires k <= 12 && forall i, j :: 0 <= i < j < 12 && n.block[i] != 0 ==> n.block[i] != n.block[j]
    ensures |FirstMapped(n, k)| == Mapped(n, k)
  {
    if k == 0 {
      assert FirstMapped(n, 0) == {};
    } else {
      FirstMappedStep(n, k - 1);
      hide FirstMapped;
      FirstMappedSize(n, k - 1);
    }
  }

  lemma {:induction false} MappedAlike(m: Inode, n: Inode, k: nat, j: nat)
    requires k <= 12 && j <= 12
    requires forall i :: 0 <= i < 12 ==> (m.block[i] != 0 <==> i < k && n.block[i] != 0)
    ensures Mapped(m, j) == Mapped(n, if j < k then j else k)
  {
    if j > 0 {
      MappedAlike(m, n, k, j - 1);
    }
  }

  lemma CopyTakes(d: Image, p: int, src: Name, dst: Name, e: Entry, m: Inode, d1: Image)
    requires Copied(d, p, src, dst, e, m, d1) && ReservedUsed(d)
    ensures |Used(d1)| == |Used(d)| + CopyCost(NodeAt(d, Target(d, p, src)))
  {
    hide NodeAt, Grafted, DirEntries, Target, BlocksToCopy;
    var n := NodeAt(d, Target(d, p, src));
    MappedAlike(m, n, BlocksToCopy(n), 12);
    hide CopiedTo;
    FreshCost(d, m, d1);
  }

  lemma FreshCost(d: Image, m: Inode, d1: Image)
    requires FreshBlocks(d, m, d1) && ReservedUsed(d)
    ensures |Used(d1)| == |Used(d)| + Mapped(m, 12)
  {
    var taken := FirstMapped(m, 12);
    forall b | b in Used(d1) && b !in Used(d) ensures b in taken {
      assert b in m.block[..12];
      var k :| 0 <= k < 12 && m.block[..12][k] == b;
      assert m.block[k] == b && b != 0;
    }
    assert Used(d1) == Used(d) + taken;
    assert Used(d) !! taken;
    FirstMappedSize(m, 12);
  }

  lemma RemovalGain(d: Image, t: int, d': Image)
    requires Sound(d, t) && Used(d') == Used(d) - DirectBlocks(NodeAt(d, t))
    ensures |Used(d')| == |Used(d)| - Mapped(NodeAt(d, t), BlocksFreed(NodeAt(d, t)))
  {
    hide NodeAt, BlocksFor;
    var n := NodeAt(d, t);
    forall i, j | 0 <= i < j < 12 && n.block[i] != 0 ensures n.block[i] != n.block[j] {
      assert Ptr(d, n, Direct(i)) == n.block[i] && Ptr(d, n, Direct(j)) == n.block[j];
    }
    assert DirectBlocks(n) == FirstMapped(n, BlocksFreed(n));
    FirstMappedSize(n, BlocksFreed(n));
    forall b | b in DirectBlocks(n) ensures b in Used(d) {
      var k :| 0 <= k < 12 && n.block[k] == b && b != 0;
      assert Ptr(d, n, Direct(k)) == b;
    }
  }

  /** The books: a move leaves the number of live inodes as it was. */
  lemma MovedLive(d: Image, p: int, src: Name, dst: Name, e: Entry, m: Inode, d1: Image, d2: Image)
    requires Moved(d, p, src, dst, e, m, d1, d2)
    ensures |LiveInodes(d2)| == |LiveInodes(d)|
  {
    hide Moved, InodeUsed, Target, LiveInodes;
    MovedLiveness(d, p, src, dst, e, m, d1, d2);
    var x := Target(d, p, src);
    forall i ensures i in LiveInodes(d2) <==> i == e.inode || (i in LiveInodes(d) && i != x) {
      MovedInodes(d, p, src, dst, e, m, d1, d2, i);
      InLive(d, i);
      InLive(d2, i);
    }
    SwappedSize(LiveInodes(d), x, e.inode, LiveInodes(d2));
  }

  lemma InLive(d: Image, i: int)
    ensures i in LiveInodes(d) <==> InodeUsed(d, i)
  {
  }

  lemma SwappedSize(a: set<int>, x: int, y: int, b: set<int>)
    requires x in a && y !in a && forall i :: i in b <==> i == y || (i in a && i != x)
    ensures |b| == |a|
  {
    var c := a - {x} + {y};
    forall i ensures i in b <==> i in c {
    }
    assert b == c;
  }

  lemma MovedLiveness(d: Image, p: int, src: Name, dst: Name, e: Entry, m: Inode, d1: Image, d2: Image)
    requires Moved(d, p, src, dst, e, m, d1, d2)
    ensures 1 <= p <= INODES_PER_GROUP && Target(d, p, src) in LiveInodes(d)
    ensures 1 <= e.inode <= INODES_PER_GROUP && e.inode !in LiveInodes(d)
  {
    hide NodeAt, Healthy, Added, DirEntries, CopiedTo, Target, CopyOutcome, Removed, EntryFits;
  }

  /** It leaves the number of used blocks as it was exactly when the copy took as many blocks as
      the removal gave back. */
  lemma MovedBlocks(d: Image, p: int, src: Name, dst: Name, e: Entry, m: Inode, d1: Image, d2: Image, n: Inode)
    requires Moved(d, p, src, dst, e, m, d1, d2) && n == NodeAt(d, Target(d, p, src))
    ensures |Used(d2)| == |Used(d)| <==> CopyCost(n) == Mapped(n, BlocksFreed(n))
  {
    hide NodeAt, FreshBlocks, Grafted, Uprooted, DirEntries, CopiedTo, Target, Kempt, DirOK, CopyOutcome, InodeUsed,
         DirectBlocks, EntryFits, CopyCost, BlocksFreed, Used, SameInode;
    var x := Target(d, p, src);
    SourceStillListed(d, p, src, dst, e, m, d1);
    RemovalSucceeds(d, p, src, dst, e, m, d1);
    KemptReserved(d);
    CopyTakes(d, p, src, dst, e, m, d1);
    GraftedOthers(d, p, |DirEntries(d, p)|, e, m, d1, x);
    SoundInode(d1, x);
    RemovalGain(d1, x, d2);
  }


  /** Move, for a regular file of at most twelve blocks into an inode that reaches the disk: the
      destination has the content that the source had, and both books are as before. */
  lemma SmallMove(d: Image, p: int, src: Name, dst: Name, e: Entry, m: Inode, d1: Image, d2: Image)
    requires Moved(d, p, src, dst, e, m, d1, d2) && e.inode <= 29
    requires NodeAt(d, Target(d, p, src)).size <= 12 * BLOCK_SIZE
    ensures FileContent(d2, NodeAt(d2, e.inode)) == FileContent(d, NodeAt(d, Target(d, p, src)))
    ensures |LiveInodes(d2)| == |LiveInodes(d)| && |Used(d2)| == |Used(d)|
  {
    hide NodeAt, FreshBlocks, Grafted, DirEntries, CopiedTo, Target, FileContent, BlocksFor, Kempt, CopyOutcome, DirOK,
         Removed, EntryFits, BlocksToCopy, BlocksFreed;
    var n := NodeAt(d, Target(d, p, src));
    MovedInodes(d, p, src, dst, e, m, d1, d2, e.inode);
    SmallCopyFaithful(d, p, src, dst, e, m, d1);
    MovedLive(d, p, src, dst, e, m, d1, d2);
    MovedBlocks(d, p, src, dst, e, m, d1, d2, n);
    SoundInode(d, Target(d, p, src));
    WholeFile(n);
  }

  /** mv: the result is that of the copy; a failed copy changes nothing, a successful one is
      followed by a removal that cannot fail. */
  method HandleMv(v: Volume, p: int, src: Name, dst: Name)
    returns (rc: int, ghost e: Entry, ghost m: Inode, ghost d1: Image)
    requires v.Valid() && Healthy(v.Image()) && InodeUsed(v.Image(), p) && CopyLow(v.Image(), p, src, dst)
    requires CopyOutcome(v.Image(), p, src, dst) == 0 ==> LowDirect(NamedNode(v.Image(), p, src))
    modifies v.disk, v`sFreeBlocks, v`bgFreeBlocks
    ensures rc == CopyOutcome(old(v.Image()), p, src, dst)
    ensures rc != 0 ==> Unchanged(old(v.Image()), v.Image())
    ensures rc == 0 ==> Moved(old(v.Image()), p, src, dst, e, m, d1, v.Image()) && Healthy(v.Image())
  {
    hide NodeAt, Healthy, Unchanged, Copied, Uprooted, CopyOutcome, DeleteFileOutcome, CopyLow, DirEntries, LowDirect;
    ghost var d := v.Image();
    rc, e, m := CopyFile(v, p, src, dst);
    d1 := v.Image();
    if rc == 0 {
      RemovalSucceeds(d, p, src, dst, e, m, d1);
      SourceLive(d, p, src, dst, e, m, d1);
      var removed := DeleteFile(v, p, src);
      UprootedHealthy(d1, p, Find(DirEntries(d1, p), src), v.Image());
    }
  }

  lemma SourceLive(d: Image, p: int, src: Name, dst: Name, e: Entry, m: Inode, d1: Image)
    requires Copied(d, p, src, dst, e, m, d1)
    ensures InodeUsed(d1, p) && NamedNode(d, p, src) == NodeAt(d, Target(d, p, src))
  {
    hide NodeAt, DirEntries, Target, CopiedTo, FreshBlocks, FreshTree, KeepsBlocks, Lists;
  }

  /** A removal gives back only direct blocks: a pointer table or a block under one stays marked
      used although no live inode leads to it any more. */
  lemma RemovalLeaks(d: Image, p: int, k: nat, d': Image, s: Slot)
    requires Kempt(d) && Removed(d, p, k, d') && Valid(s)
    requires var t := DirEntries(d, p)[k].inode; 1 <= t <= INODES_PER_GROUP && PtrOf(d, t, s) != 0
    ensures var t := DirEntries(d, p)[k].inode; var b := PtrOf(d, t, s);
      && (forall i, r :: InodeUsed(d', i) && Valid(r) ==> PtrOf(d', i, r) != b)
      && (b in Used(d') <==> !(s.Direct? && s.i < 12 && s.i < NodeAt(d, t).blocks))
  {
    hide NodeAt, KeepsBlocks, Lists, DirEntries, NamedOnce, DirTiled, Names, SameInode, Owns;
    var t := DirEntries(d, p)[k].inode;
    UprootedTarget(d, p, k, d');
    assert Sound(d, t);
    forall i, r | InodeUsed(d', i) && Valid(r) ensures PtrOf(d', i, r) != PtrOf(d, t, s) {
      UprootedOthers(d, p, k, d', i);
      assert Apart(d, t, i);
    }
    LeakedSlot(d, t, s);
  }

  lemma LeakedSlot(d: Image, t: int, s: Slot)
    requires Sound(d, t) && Valid(s) && PtrOf(d, t, s) != 0
    ensures PtrOf(d, t, s) in Used(d)
    ensures PtrOf(d, t, s) in DirectBlocks(NodeAt(d, t)) <==> s.Direct? && s.i < 12 && s.i < NodeAt(d, t).blocks
  {
    hide NodeAt;
    var n, b := NodeAt(d, t), PtrOf(d, t, s);
    forall k | 0 <= k < 12 && n.block[k] == b ensures s == Direct(k) {
      assert Ptr(d, n, Direct(k)) == Ptr(d, n, s);
    }
    if s.Direct? && s.i < 12 {
      assert n.block[s.i] == b;
    }
  }
}
