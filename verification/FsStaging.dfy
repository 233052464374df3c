/** A new inode on its way into the file system: staged while its blocks are filled,
    prepared when its record is written, and rolled back when anything fails. */
module FsStaging {
  import opened Bytes
  import opened Bitmap
  import opened Layout
  import opened BlockTree
  import opened Growth
  import opened Contents
  import opened Directory
  import opened FsState
  import opened FsEffects

  // The direct blocks of a new inode: fresh, distinct, and all that was allocated.
  ghost predicate FreshIn(was: set<int>, q: Pointers, now: set<int>) {
    && q[12] == 0 && q[13] == 0 && was <= now
    && (forall k :: 0 <= k < 12 && q[k] != 0 ==>
          FIRST_FREE_BLOCK <= q[k] < BITS && q[k] < |now| && q[k] !in was && q[k] in now)
    && (forall k, l :: 0 <= k < l < 12 && q[k] != 0 ==> q[k] != q[l])
    && (forall b :: b in now && b !in was ==> exists k :: 0 <= k < 12 && q[k] == b)
  }

  ghost predicate FreshBlocks(d: Image, n: Inode, d': Image) { FreshIn(Used(d), n.block, Used(d')) }

  lemma FreshBlocksTree(d: Image, n: Inode, d': Image)
    requires FreshBlocks(d, n, d')
    ensures FreshTree(d, n, d')
  {
    forall s | Valid(s) ensures Ptr(d', n, s) != 0 ==> s.Direct? && s.i < 12 && Ptr(d', n, s) == n.block[s.i] {
    }
    forall b | b in Used(d') && b !in Used(d) ensures Owns(d', n, b) {
      var k :| 0 <= k < 12 && n.block[k] == b;
      assert Ptr(d', n, Direct(k)) == b;
    }
  }

  // A creating system call: the entry goes behind the others, the inode has direct blocks only.
  ghost predicate Added(d: Image, p: int, e: Entry, n: Inode, d': Image) {
    && 1 <= p <= INODES_PER_GROUP && FreshBlocks(d, n, d')
    && Grafted(d, p, |DirEntries(d, p)|, e, n, d')
  }

  // The pointers of the new inode are its direct blocks as far as they were stored.
  lemma NewPointers(d: Image, p: int, e: Entry, n: Inode, d': Image, s: Slot)
    requires Added(d, p, e, n, d') && Valid(s)
    ensures PtrOf(d', e.inode, s) == if s.Direct? && s.i < 12 && (e.inode <= 29 || (e.inode == 30 && s.i < 2))
                                     then n.block[s.i] else 0
  {
    hide NodeAt, DirEntries, Lists, KeepsBlocks;
    var m := Kept(e.inode, n);
    assert m.block[12] == 0 && m.block[13] == 0;
    assert Persists(30, 14) && !Persists(30, 18);
  }

  // The free functions can take the direct blocks of n back.
  predicate LowBlocks(n: Inode) {
    forall k :: 0 <= k < 12 ==> n.block[k] < BLOCKS_PER_GROUP
  }

  // n allocations by first fit stay below block 1024, or fail.
  ghost predicate AllocatesLow(used: set<int>, n: nat) {
    || (forall b :: BLOCKS_PER_GROUP <= b < BITS ==> b in used)
    || |Below(BLOCKS_PER_GROUP) - used| >= n
  }

  lemma FirstFitLow(d: Image, n: nat, p: int, d1: Image)
    requires AllocatesLow(Used(d), n) && 0 < n && Took(d, p, d1)
    ensures p < BLOCKS_PER_GROUP
    ensures AllocatesLow(Used(d1), n - 1)
  {
    var low, low1 := Below(BLOCKS_PER_GROUP) - Used(d), Below(BLOCKS_PER_GROUP) - Used(d1);
    if |low| >= n {
      assert low != {};
      var b :| b in low;
      assert low1 == low - {p};
    }
  }

  // Inode i is marked used; its blocks so far are those of n; the table is untouched.
  ghost predicate Staged(d0: Image, i: int, n: Inode, d: Image) {
    && 1 <= i <= INODES_PER_GROUP && !InodeUsed(d0, i)
    && d[INODE_BITMAP] == SetBit(d0[INODE_BITMAP], i - 1)
    && (forall b :: 5 <= b < 9 ==> d[b] == d0[b])
    && FreshBlocks(d0, n, d)
    && KeepsBlocks(d0, {}, d)
  }

  // The record of the new inode is written as well.
  ghost predicate Prepared(d0: Image, i: int, n: Inode, d: Image) {
    && 1 <= i <= INODES_PER_GROUP && !InodeUsed(d0, i)
    && d[INODE_BITMAP] == SetBit(d0[INODE_BITMAP], i - 1)
    && NodeAt(d, i) == Kept(i, n)
    && (forall k :: 1 <= k <= INODES_PER_GROUP && k != i ==> NodeAt(d, k) == NodeAt(d0, k))
    && FreshBlocks(d0, n, d)
    && KeepsBlocks(d0, {}, d)
  }

  lemma StagedEmpty(d0: Image, i: int, n: Inode, d: Image)
    requires 1 <= i <= INODES_PER_GROUP && !InodeUsed(d0, i)
    requires d == d0[INODE_BITMAP := SetBit(d0[INODE_BITMAP], i - 1)]
    requires forall k :: 0 <= k < 14 ==> n.block[k] == 0
    ensures Staged(d0, i, n, d)
  {
  }

  lemma TookBound(d: Image, p: int, d1: Image)
    requires ReservedUsed(d) && Took(d, p, d1)
    ensures FIRST_FREE_BLOCK <= p < |Used(d1)| == |Used(d)| + 1
  {
    FirstFitBound(d[BLOCK_BITMAP], p);
  }

  lemma FreshMore(was: set<int>, q: Pointers, now: set<int>, k: nat, p: u32)
    requires FreshIn(was, q, now) && 0 in was && k < 12 && q[k] == 0
    requires FIRST_FREE_BLOCK <= p < BITS && p !in now && p <= |now|
    ensures FreshIn(was, q[k := p], now + {p})
  {
    var q2 := q[k := p];
    forall b | b in now + {p} && b !in was ensures exists j :: 0 <= j < 12 && q2[j] == b {
      if b == p {
        assert q2[k] == b;
      } else {
        var j :| 0 <= j < 12 && q[j] == b;
        assert q2[j] == b;
      }
    }
  }

  // One more block was allocated for position k and filled.
  lemma StagedBlock(d0: Image, i: int, n: Inode, d: Image, k: nat, p: int, d1: Image, buf: Block, n2: Inode, d2: Image)
    requires Staged(d0, i, n, d) && ReservedUsed(d0) && k < 12 && n.block[k] == 0
    requires Took(d, p, d1) && d2 == d1[p := buf]
    requires n2 == Inode(n.mode, n.size, n.blocks, n.block[k := p])
    ensures Staged(d0, i, n2, d2) && FIRST_FREE_BLOCK <= p
    ensures Used(d2) == Used(d1)
    ensures BlockAt(d2, p) == buf
    ensures forall j :: 0 <= j < 12 && j != k ==> BlockAt(d2, n2.block[j]) == BlockAt(d, n.block[j])
  {
    hide InodeUsed, FreshIn, Used, SetBit;
    FreshDiffers(Used(d0), n.block, Used(d), p);
    TookBound(d, p, d1);
    TookSets(d, p, d1, d2);
    FreshMore(Used(d0), n.block, Used(d), k, p);
  }

  lemma TookSets(d: Image, p: int, d1: Image, d2: Image)
    requires Took(d, p, d1) && FIRST_FREE_BLOCK <= p && d2[BLOCK_BITMAP] == d1[BLOCK_BITMAP]
    ensures 0 <= p < BITS && p !in Used(d) && Used(d2) == Used(d1) == Used(d) + {p}
    ensures forall b :: 0 <= b < DISK_BLOCKS && b != BLOCK_BITMAP ==> d1[b] == d[b]
  {
  }

  lemma FreshDiffers(was: set<int>, q: Pointers, now: set<int>, p: int)
    requires FreshIn(was, q, now)
    ensures was <= now && forall j :: 0 <= j < 12 ==> q[j] == 0 || q[j] >= FIRST_FREE_BLOCK
    ensures p !in now ==> p !in was && forall j :: 0 <= j < 12 && q[j] != 0 ==> q[j] != p
  {
  }

  lemma PreparedBySync(d0: Image, i: int, n: Inode, d: Image, d1: Image)
    requires Staged(d0, i, n, d) && NodeWritten(d, i, n, d1)
    ensures Prepared(d0, i, n, d1)
    ensures forall b :: 9 <= b < DISK_BLOCKS ==> d1[b] == d[b]
  {
    hide NodeAt, TableBytes, RecordWritten;
    TableFrame(d0, d);
    ReadAfterWrite(d, i, n, d1);
  }

  // The record fits the size, and a directory starts with its two dot entries.
  ghost predicate WellMade(p: int, i: int, n: Inode, d: Image) {
    && 1 <= p <= INODES_PER_GROUP && 1 <= i <= INODES_PER_GROUP && n.blocks == BlocksFor(n.size)
    && (IsDirectory(n) ==> NewDirectory(d, p, i, n))
  }

  // The entry was written into the directory block of p.
  lemma AddedByAppend(d0: Image, p: int, e: Entry, n: Inode, d: Image, b: Block, d1: Image)
    requires IsDir(d0, p) && 0 < DirBlock(d0, p) < DISK_BLOCKS && d1 == d[DirBlock(d0, p) := b]
    requires Kempt(d0) && Prepared(d0, e.inode, n, d) && WellMade(p, e.inode, n, d)
    requires Chain(b, 0) && Entries(b, 0) == DirEntries(d0, p) + [e]
    ensures Added(d0, p, e, n, d1)
    ensures forall k :: 0 <= k < 12 && n.block[k] != 0 ==> BlockAt(d1, n.block[k]) == BlockAt(d, n.block[k])
  {
    hide NodeAt, Chain, Entries, DirEntries, Kempt, Tree, BlocksFor, Dots;
    DirBlockOwn(d0, p);
    InodeMarked(d0, e.inode, d1);
    TableFrame(d, d1);
    FreshBlocksTree(d0, n, d1);
    var es := DirEntries(d0, p);
    assert es[..|es|] == es;
  }

  lemma AddedAndSynced(d0: Image, p: int, e: Entry, n: Inode, d: Image, d1: Image)
    requires Kempt(d0) && Added(d0, p, e, n, d) && NodeWritten(d, p, NodeAt(d, p), d1)
    ensures Added(d0, p, e, n, d1)
    ensures forall b :: 9 <= b < DISK_BLOCKS ==> d1[b] == d[b]
  {
    hide NodeAt, TableBytes, RecordWritten, Chain, Entries, DirEntries, Kempt, Tree, BlocksFor, Dots, Entered;
    DirBlockOwn(d0, p);
    SyncSame(d, p, d1);
    FreshBlocksTree(d0, n, d1);
  }

  // The inode bit is cleared again and all fresh blocks are freed.
  lemma RolledBack(d0: Image, i: int, n: Inode, d: Image, d1: Image)
    requires ReservedUsed(d0) && (Staged(d0, i, n, d) || Prepared(d0, i, n, d))
    requires d1[INODE_BITMAP] == ClearBit(d[INODE_BITMAP], i - 1)
    requires Used(d1) == Used(d) - FirstMapped(n, 12)
    requires forall b :: 5 <= b < DISK_BLOCKS ==> d1[b] == d[b]
    ensures Unchanged(d0, d1)
  {
    hide NodeAt, FreshIn, Used, FirstMapped;
    assert d1[INODE_BITMAP] == d0[INODE_BITMAP] by { SetThenClear(d0[INODE_BITMAP], i - 1); }
    FreshFreed(Used(d0), n, Used(d));
    assert d1[BLOCK_BITMAP] == d0[BLOCK_BITMAP] by { UsedDetermines(d1, d0); }
    TableFrame(d, d1);
    if Staged(d0, i, n, d) {
      TableFrame(d0, d);
    }
  }

  lemma UsedDetermines(d: Image, d': Image)
    requires Used(d) == Used(d')
    ensures d[BLOCK_BITMAP] == d'[BLOCK_BITMAP]
  {
    MarkedDetermines(d[BLOCK_BITMAP], d'[BLOCK_BITMAP]);
  }

  // The blocks that the first m direct pointers name.
  function FirstMapped(n: Inode, m: nat): set<int>
    requires m <= 12
  {
    set j | 0 <= j < m && n.block[j] != 0 :: n.block[j]
  }

  lemma FreshFreed(was: set<int>, n: Inode, now: set<int>)
    requires FreshIn(was, n.block, now) && 0 in was
    ensures now - FirstMapped(n, 12) == was && was <= now
  {
    forall b | b in now && b !in was ensures b in FirstMapped(n, 12) {
      var k :| 0 <= k < 12 && n.block[k] == b;
    }
  }

  // How many blocks copy_file looks at, and how many of the first k it allocates.
  function BlocksToCopy(n: Inode): (k: nat)
    ensures k <= 12
  {
    var whole := (n.size + 511) % 0x1_0000_0000 / 512;
    var count := if whole > n.blocks then n.blocks else whole;
    if count < 12 then count else 12
  }

  function Mapped(n: Inode, k: nat): nat
    requires k <= 12
  {
    if k == 0 then 0 else Mapped(n, k - 1) + if n.block[k - 1] != 0 then 1 else 0
  }

  // How many direct pointers a removal looks at.
  function BlocksFreed(n: Inode): (k: nat)
    ensures k <= 12
  {
    if n.blocks < 12 then n.blocks else 12
  }

  lemma {:induction false} MappedMonotone(n: Inode, k: nat, m: nat)
    requires k <= m <= 12
    ensures Mapped(n, k) <= Mapped(n, m) <= Mapped(n, k) + m - k
  {
    if k < m {
      MappedMonotone(n, k, m - 1);
    }
  }

  // The first k direct blocks of n were copied to fresh blocks of m; m has no others.
  ghost predicate CopiedTo(d0: Image, n: Inode, k: nat, d: Image, m: Inode) {
    && m.mode == n.mode && m.size == n.size && m.blocks == n.blocks
    && (forall j :: 12 <= j < 15 ==> m.block[j] == 0)
    && (forall j :: 0 <= j < 12 ==>
          if j < k && n.block[j] != 0
          then m.block[j] != 0 && BlockAt(d, m.block[j]) == BlockAt(d0, n.block[j])
          else m.block[j] == 0)
  }

  lemma CopiedMore(d0: Image, n: Inode, k: nat, d: Image, m: Inode, p: u32, d1: Image)
    requires k < 12 && CopiedTo(d0, n, k, d, m) && n.block[k] != 0 && p != 0
    requires BlockAt(d1, p) == BlockAt(d0, n.block[k])
    requires forall j :: 0 <= j < 12 && j != k ==> BlockAt(d1, m.block[j]) == BlockAt(d, m.block[j])
    ensures CopiedTo(d0, n, k + 1, d1, Inode(m.mode, m.size, m.blocks, m.block[k := p]))
  {
  }
}
