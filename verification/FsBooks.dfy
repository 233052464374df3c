/** The accounting over write and delete: what a deletion gives back of what a write took, and
    the counters of free inodes over whole runs, from formatting on. */
module FsBooks {
  import opened Bytes
  import opened Bitmap
  import opened Layout
  import opened BlockTree
  import opened Growth
  import opened Contents
  import Release
  import opened Files
  import opened Directory
  import opened DirSlots
  import opened FsState
  import opened FsEffects
  import opened FsStaging
  import opened Volume
  import opened FsOps
  import opened FsFormat
  import opened FsWrite
  import opened FsRuns

  // A write, and later in the same directory the deletion of what it entered.
  ghost predicate WrittenAndTaken(d: Image, p: int, name: Name, isDir: bool, data: seq<byte>, i: int, n: Inode,
                                  d1: Image, d2: Image) {
    && Kempt(d) && WrittenAs(d, p, name, isDir, data, i, n, d1) && WriteOutcome(d, p, name, |data|) == 0
    && Fits(d, p, name) && Taken(d1, p, name, d2)
  }

  lemma KeptFilled(d: Image, i: int, n: Inode, k: nat)
    requires 1 <= i <= INODES_PER_GROUP && FilledTo(d, n, k)
    ensures FilledTo(d, Kept(i, n), BlocksKept(i, k))
  {
    hide Ptr, Kept;
    forall s | Valid(s) ensures Ptr(d, Kept(i, n), s) != 0 <==> Needed(s, BlocksKept(i, k)) {
      KeptSlot(d, i, n, s);
    }
  }

  // What a deletion frees of a new inode: all that its record still leads to.
  lemma FreedWhole(d: Image, i: int, n: Inode, k: nat, used: set<int>)
    requires 1 <= i <= INODES_PER_GROUP && FilledTo(d, n, k) && n.blocks == k && Tree(d, n, used)
    ensures Release.Listed(d, Kept(i, n), Min(12, Kept(i, n).blocks)) == Release.FreeList(d, Kept(i, n))
    ensures forall b :: b in Release.FreeList(d, Kept(i, n)) <==> b != 0 && Owns(d, Kept(i, n), b)
  {
    hide Release.Listed, Release.FreeList, Tree, FilledTo, Ptr, Needed;
    var m, j := Kept(i, n), BlocksKept(i, k);
    KeptFilled(d, i, n, k);
    KeptTree(d, i, n, used);
    Release.FreeListExact(d, m, used);
    ListedFrom(d, m, j, Min(12, m.blocks));
  }

  lemma KeptTree(d: Image, i: int, n: Inode, used: set<int>)
    requires 1 <= i <= INODES_PER_GROUP && Tree(d, n, used)
    ensures Tree(d, Kept(i, n), used)
  {
    hide Ptr, Kept;
    forall s | Valid(s) ensures Ptr(d, Kept(i, n), s) == Ptr(d, n, s) || Ptr(d, Kept(i, n), s) == 0 {
      KeptSlot(d, i, n, s);
    }
  }

  lemma ListedFrom(d: Image, n: Inode, j: nat, k: nat)
    requires FilledTo(d, n, j) && Min(12, j) <= k <= 12
    ensures Release.Listed(d, n, k) == Release.FreeList(d, n)
  {
    hide Release.Under, Release.Directs;
    forall x | Min(12, j) <= x < 12 ensures n.block[x] == 0 {
      assert Ptr(d, n, Direct(x)) == n.block[x];
    }
    Release.DirectsStop(n, k, 12);
  }

  /** A deletion undoes what a write did to the bookkeeping, exactly: the number of live inodes is
      what it was, and the block bitmap is restored byte for byte if and only if the record of
      the inode still led to all its blocks. */
  lemma WriteThenDelete(d: Image, p: int, name: Name, isDir: bool, data: seq<byte>, i: int, n: Inode,
                        d1: Image, d2: Image)
    requires WrittenAndTaken(d, p, name, isDir, data, i, n, d1, d2)
    ensures forall x :: InodeUsed(d2, x) <==> InodeUsed(d, x)
    ensures d2[BLOCK_BITMAP] == d[BLOCK_BITMAP] <==> BlocksKept(i, n.blocks) == n.blocks
  {
    hide NodeAt, DirEntries, Kempt, WrittenAs, Taken, WriteOutcome, FilledTo, Owns, Fits, Kept, FreshTree, Used,
         GaveBack,
         Release.FreeList, Release.Listed, Ptr;
    WrittenTree(d, p, name, isDir, data, i, n, d1);
    WrittenName(d, p, name, isDir, data, i, n, d1);
    TakenBlocks(d1, p, name, i, d2);
    WrittenLive(d, p, name, isDir, data, i, n, d1);
    FreedWhole(d1, i, n, n.blocks, Used(d1));
    var m := Kept(i, n);
    assert GaveBack(d1, m, d2) by { BackGiven(d1, m, d2); }
    forall s | Valid(s) ensures Ptr(d1, m, s) == Ptr(d1, n, s) || Ptr(d1, m, s) == 0 {
      KeptSlot(d1, i, n, s);
    }
    if BlocksKept(i, n.blocks) == n.blocks {
      SlotsKept(d1, i, n);
      KemptReserved(d);
      AllFreed(d, d1, n, m, d2);
      UsedDetermines(d2, d);
    } else {
      var s := LostSlot(d1, i, n, n.blocks);
      SomeLeft(d, d1, n, m, s, d2);
      UsedOfBitmap(d, d2);
    }
  }

  lemma UsedOfBitmap(d: Image, d': Image)
    ensures d[BLOCK_BITMAP] == d'[BLOCK_BITMAP] ==> Used(d) == Used(d')
  {
  }

  lemma BackGiven(d1: Image, m: Inode, d2: Image)
    requires Used(d2) == Used(d1) - Release.Elems(Release.FreeList(d1, m))
    requires forall b :: b in Release.FreeList(d1, m) <==> b != 0 && Owns(d1, m, b)
    ensures GaveBack(d1, m, d2)
  {
    hide Release.FreeList, Owns, Used;
  }

  // When the count of blocks is kept, so is every pointer.
  lemma SlotsKept(d: Image, i: int, n: Inode)
    requires 1 <= i <= INODES_PER_GROUP && FilledTo(d, n, n.blocks) && BlocksKept(i, n.blocks) == n.blocks
    ensures forall s :: Valid(s) ==> Ptr(d, Kept(i, n), s) == Ptr(d, n, s)
  {
    hide Kept, Ptr;
    forall s | Valid(s) ensures Ptr(d, Kept(i, n), s) == Ptr(d, n, s) {
      KeptSlot(d, i, n, s);
      assert Needed(s, n.blocks) <==> Ptr(d, n, s) != 0;
    }
  }

  lemma WrittenTree(d: Image, p: int, name: Name, isDir: bool, data: seq<byte>, i: int, n: Inode, d1: Image)
    requires WrittenAs(d, p, name, isDir, data, i, n, d1)
    ensures 1 <= i <= INODES_PER_GROUP && 1 <= p <= INODES_PER_GROUP
    ensures FreshTree(d, n, d1) && Tree(d1, n, Used(d1)) && FilledTo(d1, n, n.blocks)
  {
    hide NodeAt, DirEntries, FileContent, KeepsBlocks, Lists, Kept, Cost, Tree, Owns, FilledTo, Chain, Last;
  }

  lemma WrittenLive(d: Image, p: int, name: Name, isDir: bool, data: seq<byte>, i: int, n: Inode, d1: Image)
    requires WrittenAs(d, p, name, isDir, data, i, n, d1)
    ensures !InodeUsed(d, i) && forall x :: InodeUsed(d1, x) <==> InodeUsed(d, x) || x == i
  {
    hide NodeAt, DirEntries, FileContent, KeepsBlocks, Lists, Kept, Cost, FreshTree, FilledTo, Chain, Last;
  }

  lemma TakenBlocks(d1: Image, p: int, name: Name, i: int, d2: Image)
    requires 1 <= p <= INODES_PER_GROUP && Taken(d1, p, name, d2) && NamedInode(d1, p, name) == i
    requires 1 <= i <= INODES_PER_GROUP
    ensures forall x :: InodeUsed(d2, x) <==> InodeUsed(d1, x) && x != i
    ensures var m := NodeAt(d1, i); Used(d2) == Used(d1) - Release.Elems(Release.Listed(d1, m, Min(12, m.blocks)))
  {
    hide NodeAt, DirEntries, KeepsBlocks, Lists, Release.Listed, Owns, WithoutSlot;
  }

  // What the deletion gave back: everything that the record m of the new inode leads to.
  ghost predicate GaveBack(d1: Image, m: Inode, d2: Image) {
    Used(d2) <= Used(d1) && forall b :: b in Used(d1) && b !in Used(d2) <==> b in Used(d1) && b != 0 && Owns(d1, m, b)
  }

  lemma AllFreed(d: Image, d1: Image, n: Inode, m: Inode, d2: Image)
    requires ReservedUsed(d) && FreshTree(d, n, d1) && GaveBack(d1, m, d2)
    requires forall s :: Valid(s) ==> Ptr(d1, m, s) == Ptr(d1, n, s)
    ensures Used(d2) == Used(d)
  {
    hide Ptr, Used;
    forall b ensures b in Used(d2) <==> b in Used(d) {
      if b in Used(d1) && b !in Used(d) {
        var s :| Valid(s) && Ptr(d1, n, s) == b;
        assert Ptr(d1, m, s) == b;
        assert b != 0;
      }
    }
  }

  // A block that the record no longer leads to.
  lemma LostSlot(d: Image, i: int, n: Inode, k: nat) returns (s: Slot)
    requires 1 <= i <= INODES_PER_GROUP && FilledTo(d, n, k) && BlocksKept(i, k) != k
    ensures Valid(s) && Ptr(d, n, s) != 0 && Ptr(d, Kept(i, n), s) == 0
  {
    hide Ptr, Kept;
    s := if i == 30 then Direct(2) else Direct(0);
    assert Needed(s, k);
    KeptSlot(d, i, n, s);
  }

  lemma SomeLeft(d: Image, d1: Image, n: Inode, m: Inode, s: Slot, d2: Image)
    requires FreshTree(d, n, d1) && GaveBack(d1, m, d2)
    requires forall r :: Valid(r) ==> Ptr(d1, m, r) == Ptr(d1, n, r) || Ptr(d1, m, r) == 0
    requires Valid(s) && Ptr(d1, n, s) != 0 && Ptr(d1, m, s) == 0
    ensures Used(d2) != Used(d)
  {
    hide Ptr, Used;
    var b := Ptr(d1, n, s);
    forall r | Valid(r) ensures Ptr(d1, m, r) != b {
      assert Ptr(d1, n, r) == b ==> r == s;
    }
    assert b in Used(d2) && b !in Used(d);
  }

  // The image with the two counters of free inodes.
  datatype Books = Books(d: Image, free: u32, groupFree: u16)

  ghost function BooksOf(v: Volume): Books
    requires v.Valid()
    reads v, v.disk
  {
    Books(v.Image(), v.sFreeInodes, v.bgFreeInodes)
  }

  // The superblock counts the inodes that are not in use; the group descriptor starts one
  // higher, because formatting does not count the root there, and stays so.
  ghost predicate Accounted(b: Books) {
    b.free == INODES_PER_GROUP - |LiveInodes(b.d)| && b.groupFree == b.free + 1
  }

  ghost predicate BooksKept(b: Books) { Kempt(b.d) && Accounted(b) }

  // A write or a deletion with its bookkeeping; the system calls leave these counters alone.
  ghost predicate Booked(b: Books, r: Request, rc: int, b': Books)
    requires 1 <= r.p <= INODES_PER_GROUP
  {
    && (r.Put? || r.Take?) && Step(b.d, r, rc, b'.d)
    && (rc != 0 ==> b' == b)
    && (rc == 0 && r.Put? ==>
          b'.free == (b.free - 1) % 0x1_0000_0000 && b'.groupFree == (b.groupFree - 1) % 0x1_0000)
    && (rc == 0 && r.Take? ==>
          b'.free == (b.free + 1) % 0x1_0000_0000 && b'.groupFree == (b.groupFree + 1) % 0x1_0000)
  }

  lemma PutLive(d: Image, p: int, name: Name, isDir: bool, data: seq<byte>, i: int, n: Inode, d': Image)
    requires WrittenAs(d, p, name, isDir, data, i, n, d')
    ensures |LiveInodes(d')| == |LiveInodes(d)| + 1
  {
    hide WrittenAs, InodeUsed;
    WrittenTree(d, p, name, isDir, data, i, n, d');
    WrittenLive(d, p, name, isDir, data, i, n, d');
    assert LiveInodes(d') == LiveInodes(d) + {i};
  }

  lemma TakenLive(d: Image, p: int, k: nat, d': Image)
    requires Kempt(d) && Uprooted(d, p, k, d')
    ensures |LiveInodes(d')| == |LiveInodes(d)| - 1
  {
    hide NodeAt, DirEntries, Kempt, KeepsBlocks, Lists, Names, Owns;
    var t := DirEntries(d, p)[k].inode;
    UprootedTarget(d, p, k, d');
    assert LiveInodes(d') == LiveInodes(d) - {t};
  }

  lemma LiveBound(d: Image, n: nat)
    requires n == INODES_PER_GROUP
    ensures |LiveInodes(d)| <= n
  {
    SubsetSize(LiveInodes(d), Below(n + 1) - {0});
  }

  /** Each write and each deletion keeps the books in order: the invariant that needs neither "."
      nor unique names, and both counters exact. */
  lemma BookedKept(b: Books, r: Request, rc: int, b': Books)
    requires BooksKept(b) && InodeUsed(b.d, r.p) && Booked(b, r, rc, b')
    ensures BooksKept(b')
  {
    hide Kempt, NodeAt, WrittenAs, Uprooted, WriteOutcome, DeleteOutcome, LiveInodes, DirEntries, Unchanged, Freed;
    LiveBound(b.d, INODES_PER_GROUP);
    LiveBound(b'.d, INODES_PER_GROUP);
    if rc == 0 {
      match r
      case Put(p, name, isDir, data) =>
        var i, n :| WrittenAs(b.d, p, name, isDir, data, i, n, b'.d);
        WrittenKempt(b.d, p, name, isDir, data, i, n, b'.d);
        PutLive(b.d, p, name, isDir, data, i, n, b'.d);
      case Take(p, name, isDir, past) =>
        var k := FindUsed(DirEntries(b.d, p), Cut(name));
        UprootedKempt(b.d, p, k, b'.d);
        TakenLive(b.d, p, k, b'.d);
    }
  }

  ghost predicate EntryOf(b: Books, r: Request, rc: int, b': Books) {
    Lawful(b.d, r) && Booked(b, r, rc, b')
  }

  ghost predicate Ledger(bs: seq<Books>, rs: seq<Request>, rcs: seq<int>) {
    && |bs| == |rs| + 1 && |rcs| == |rs|
    && forall k :: 0 <= k < |rs| ==> EntryOf(bs[k], rs[k], rcs[k], bs[k + 1])
  }

  /** Over every run of write and delete from a freshly formatted disk the books are exact. */
  lemma {:induction false} LedgerKept(bs: seq<Books>, rs: seq<Request>, rcs: seq<int>, k: nat)
    requires Ledger(bs, rs, rcs) && k <= |rs|
    requires Formatted(bs[0].d) && bs[0].free == 31 && bs[0].groupFree == 32
    ensures BooksKept(bs[k])
  {
    hide Kempt, Formatted, Booked, Lawful, LiveInodes;
    if k == 0 {
      FormattedKempt(bs[0].d);
    } else {
      LedgerKept(bs, rs, rcs, k - 1);
      assert EntryOf(bs[k - 1], rs[k - 1], rcs[k - 1], bs[k]);
      LawfulLive(bs[k - 1].d, rs[k - 1]);
      BookedKept(bs[k - 1], rs[k - 1], rcs[k - 1], bs[k]);
    }
  }

  lemma FormattedKempt(d: Image)
    requires Formatted(d)
    ensures Kempt(d) && |LiveInodes(d)| == 1
  {
    hide NodeAt, Chain, Entries, Kempt, Last;
    FormattedHealthy(d);
    assert LiveInodes(d) == {ROOT};
  }

  // One write or deletion on the volume is such a step.
  method Carry(v: Volume, r: Request) returns (rc: int)
    requires v.Valid() && BooksKept(BooksOf(v)) && Lawful(v.Image(), r) && (r.Put? || r.Take?)
    modifies v.disk, v`sFreeInodes, v`bgFreeInodes, v`bgUsedDirs
    ensures Booked(old(BooksOf(v)), r, rc, BooksOf(v)) && BooksKept(BooksOf(v))
  {
    hide Kempt, NodeAt, WrittenAs, Uprooted, WriteOutcome, DeleteOutcome, DirEntries, Cost, Deletable, Freed, Accounted,
         Booked;
    ghost var b := BooksOf(v);
    match r {
      case Put(p, name, isDir, data) =>
        ghost var i, n;
        rc, i, n := Write(v, p, name, isDir, data);
        assert Booked(b, r, rc, BooksOf(v)) by { PutBooked(b, r, rc, BooksOf(v), i, n); }
      case Take(p, name, isDir, past) =>
        rc := Delete(v, p, name, isDir, past);
        assert Booked(b, r, rc, BooksOf(v)) by { TakeBooked(b, r, rc, BooksOf(v)); }
    }
    BookedKept(b, r, rc, BooksOf(v));
  }

  lemma PutBooked(b: Books, r: Request, rc: int, b': Books, i: int, n: Inode)
    requires r.Put? && 1 <= r.p <= INODES_PER_GROUP && rc == WriteOutcome(b.d, r.p, r.name, |r.data|)
    requires rc != 0 ==> b' == b
    requires rc == 0 ==> WrittenAs(b.d, r.p, r.name, r.isDir, r.data, i, n, b'.d)
    requires rc == 0 ==> b'.free == (b.free - 1) % 0x1_0000_0000 && b'.groupFree == (b.groupFree - 1) % 0x1_0000
    ensures Booked(b, r, rc, b')
  {
    hide WrittenAs, WriteOutcome, Unchanged;
    UnchangedItself(b.d);
  }

  lemma TakeBooked(b: Books, r: Request, rc: int, b': Books)
    requires r.Take? && 1 <= r.p <= INODES_PER_GROUP
    requires rc == DeleteOutcome(b.d, r.p, r.name, r.isDir, r.past)
    requires rc != 0 ==> b' == b
    requires rc == 0 ==> Taken(b.d, r.p, r.name, b'.d)
    requires rc == 0 ==> b'.free == (b.free + 1) % 0x1_0000_0000 && b'.groupFree == (b.groupFree + 1) % 0x1_0000
    ensures Booked(b, r, rc, b')
  {
    hide Taken, DeleteOutcome, Unchanged;
    UnchangedItself(b.d);
  }
}
