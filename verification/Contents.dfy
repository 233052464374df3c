/** What a file contains, and what it costs to store one. */
module Contents {
  import opened Bytes
  import opened Bitmap
  import opened Layout
  import opened BlockTree
  import opened Growth

  function BlocksFor(size: nat): nat {
    size / BLOCK_SIZE + if size % BLOCK_SIZE != 0 then 1 else 0
  }

  // Pointer tables needed for k data blocks.
  function Overhead(k: nat): nat {
    if k <= FIRST_SINGLE then 0
    else if k <= FIRST_DOUBLE then 1
    else 2 + (k - FIRST_DOUBLE + 127) / 128
  }

  function BlockAt(d: Image, p: u32): Block {
    if 0 < p < DISK_BLOCKS then d[p] else ZeroBlock()
  }

  // Byte k of a file: unmapped blocks read as zeros.
  function FileByte(d: Image, n: Inode, k: nat): byte {
    BlockAt(d, Lookup(d, n, k / 512))[k % 512]
  }

  function FileContent(d: Image, n: Inode): (s: seq<byte>)
    ensures |s| == n.size
    ensures forall k :: 0 <= k < n.size ==> s[k] == FileByte(d, n, k)
  {
    seq(n.size, k requires 0 <= k < n.size => FileByte(d, n, k))
  }

  // The words of a block that holds a pointer table, and the way from an inode to logical block l,
  // as they stand on the disk.
  function WordIn(d: Image, b: u32, k: nat): u32
    requires k < 128
  {
    if 0 < b < 8192 then Word(d[b], 4 * k) else 0
  }

  function PointerOnDisk(d: Image, n: Inode, l: nat): u32 {
    if l < 12 then n.block[l]
    else if l < 12 + 128 then WordIn(d, n.block[12], l - 12)
    else if l < 12 + 128 + 128 * 128 then WordIn(d, WordIn(d, n.block[13], (l - 140) / 128), (l - 140) % 128)
    else 0
  }

  lemma LookupOnDisk(d: Image, n: Inode, l: nat)
    ensures Lookup(d, n, l) == PointerOnDisk(d, n, l)
  {
    if 12 <= l < 140 {
      WordOfTable(d, n.block[12], l - 12);
    } else if 140 <= l < 16524 {
      WordOfTable(d, n.block[13], (l - 140) / 128);
      WordOfTable(d, TableAt(d, n.block[13])[(l - 140) / 128], (l - 140) % 128);
    }
  }

  lemma WordOfTable(d: Image, b: u32, k: nat)
    requires k < 128
    ensures TableAt(d, b)[k] == WordIn(d, b, k)
  {
    if 0 < b < 8192 {
      DecodedWord(d[b], 128, k);
    }
  }

  /** Where byte k of a file stands: at k % 512 in the block that the pointers lead to; where they lead
      to none it is zero. */
  lemma ByteOnDisk(d: Image, n: Inode, k: nat)
    requires k < n.size
    ensures var p := PointerOnDisk(d, n, k / 512);
      FileContent(d, n)[k] == if 0 < p < 8192 then d[p][k % 512] else 0
  {
    hide Lookup, PointerOnDisk;
    LookupOnDisk(d, n, k / 512);
  }

  // Block l of the first size bytes of data, padded with zeros.
  function Chunk(data: seq<byte>, size: nat, l: nat): (c: Block)
    requires size <= |data|
    ensures forall j :: 0 <= j < 512 ==> c[j] == if 512 * l + j < size then data[512 * l + j] else 0
  {
    seq(512, j requires 0 <= j < 512 => if 512 * l + j < size then data[512 * l + j] else 0)
  }

  ghost predicate Stored(d: Image, n: Inode, data: seq<byte>, k: nat)
    requires n.size <= |data|
  {
    forall l :: 0 <= l < k ==> BlockAt(d, Lookup(d, n, l)) == Chunk(data, n.size, l)
  }

  /** A file whose blocks hold the chunks of data reads back as data. */
  lemma StoredReadsBack(d: Image, n: Inode, data: seq<byte>)
    requires n.size <= |data| && Stored(d, n, data, BlocksFor(n.size))
    ensures FileContent(d, n) == data[..n.size]
  {
    forall k | 0 <= k < n.size ensures FileContent(d, n)[k] == data[k] {
      var l := k / 512;
      assert 512 * l + k % 512 == k;
      assert l < BlocksFor(n.size);
      assert BlockAt(d, Lookup(d, n, l)) == Chunk(data, n.size, l);
    }
  }

  /** A file is what it was as long as the blocks marked used keep their contents. */
  lemma ContentFrame(d: Image, n: Inode, used: set<int>, d': Image)
    requires Tree(d, n, used)
    requires forall b :: b in used && FIRST_FREE_BLOCK <= b < BITS ==> d'[b] == d[b]
    ensures forall t :: Valid(t) ==> Ptr(d', n, t) == Ptr(d, n, t)
    ensures FileContent(d', n) == FileContent(d, n)
  {
    assert SameTables(d, n, d');
    PtrFrame(d, n, d');
    forall k | 0 <= k < n.size ensures FileByte(d', n, k) == FileByte(d, n, k) {
      var l := k / 512;
      if l < MAX_BLOCKS {
        assert Ptr(d', n, DataSlot(l)) == Ptr(d, n, DataSlot(l));
      }
    }
  }

  // The slots that are in use when the first k logical blocks are mapped.
  predicate Needed(s: Slot, k: nat) {
    match s
    case Direct(i) => if i < 12 then i < k else if i == SINGLE then FIRST_SINGLE < k else FIRST_DOUBLE < k
    case Single(i) => FIRST_SINGLE + i < k
    case First(i) => FIRST_DOUBLE + 128 * i < k
    case Second(i, j) => FIRST_DOUBLE + 128 * i + j < k
  }

  ghost predicate FilledTo(d: Image, n: Inode, k: nat) {
    forall s :: Valid(s) ==> (Ptr(d, n, s) != 0 <==> Needed(s, k))
  }

  lemma NeededStep(s: Slot, k: nat)
    requires Valid(s) && k < MAX_BLOCKS
    ensures Needed(s, k + 1) <==> Needed(s, k) || s in Path(k)
  {
  }

  lemma NeededData(l: nat, k: nat)
    requires l < MAX_BLOCKS
    ensures Needed(DataSlot(l), k) <==> l < k
  {
  }

  lemma NewInPath(d: Image, n: Inode, k: nat)
    requires k < MAX_BLOCKS && FilledTo(d, n, k)
    ensures |Empty(d, n, Path(k))| == 1 + Overhead(k + 1) - Overhead(k)
  {
    var e, s := Empty(d, n, Path(k)), DataSlot(k);
    NeededData(k, k);
    if k < FIRST_SINGLE {
      assert e == {s};
    } else if k < FIRST_DOUBLE {
      assert e == if k == FIRST_SINGLE then {Direct(SINGLE), s} else {s};
    } else {
      var i := (k - FIRST_DOUBLE) / 128;
      assert Needed(First(i), k) <==> (k - FIRST_DOUBLE) % 128 != 0;
      assert e == if k == FIRST_DOUBLE then {Direct(DOUBLE), First(i), s}
                  else if (k - FIRST_DOUBLE) % 128 == 0 then {First(i), s}
                  else {s};
    }
  }

  // The state after the first k blocks of a new file were written over d0.
  ghost predicate Written(d0: Image, d: Image, n: Inode, k: nat) {
    && Tree(d, n, Used(d)) && ReservedUsed(d0) && ReservedUsed(d) && FilledTo(d, n, k)
    && Used(d0) <= Used(d) && |Used(d)| == |Used(d0)| + k + Overhead(k)
    && (forall s :: Valid(s) && Ptr(d, n, s) != 0 ==> Ptr(d, n, s) !in Used(d0) && Ptr(d, n, s) < |Used(d)|)
    && (forall b :: b in Used(d) && b !in Used(d0) ==> Owns(d, n, b))
    && (forall b :: 0 <= b < DISK_BLOCKS && b != BLOCK_BITMAP && d[b] != d0[b] ==> b in Used(d) && b !in Used(d0))
  }

  ghost predicate Owns(d: Image, n: Inode, b: int) {
    exists s :: Valid(s) && Ptr(d, n, s) == b
  }

  lemma WrittenNothing(d: Image, n: Inode)
    requires ReservedUsed(d) && forall i :: 0 <= i < 14 ==> n.block[i] == 0
    ensures Written(d, d, n, 0)
  {
  }

  lemma ReadyToGrow(d0: Image, d: Image, n: Inode, k: nat)
    requires k < MAX_BLOCKS && Written(d0, d, n, k)
    requires |Used(d0)| + k + 1 + Overhead(k + 1) <= BITS
    ensures Growable(d, n, Path(k))
  {
    NewInPath(d, n, k);
  }

  lemma FilledGrows(d: Image, n: Inode, k: nat, d1: Image, n1: Inode)
    requires k < MAX_BLOCKS && FilledTo(d, n, k)
    requires PointersGrown(d, n, Empty(d, n, Path(k)), d1, n1)
    ensures FilledTo(d1, n1, k + 1)
  {
    forall s | Valid(s) ensures Ptr(d1, n1, s) != 0 <==> Needed(s, k + 1) {
      NeededStep(s, k);
    }
  }

  lemma OwnsGrows(d: Image, n: Inode, slots: set<Slot>, d1: Image, n1: Inode, b: int)
    requires PointersGrown(d, n, slots, d1, n1) && UsedGrown(d, slots, d1, n1)
    requires b in Used(d1) && (b in Used(d) ==> b != 0 && Owns(d, n, b))
    ensures Owns(d1, n1, b)
  {
    if b in Used(d) {
      var s :| Valid(s) && Ptr(d, n, s) == b;
      assert Ptr(d1, n1, s) == b;
    } else {
      assert PointsAt(d1, n1, slots, b);
    }
  }

  // One more logical block was allocated.
  lemma WrittenGrows(d0: Image, d: Image, n: Inode, k: nat, d1: Image, n1: Inode)
    requires k < MAX_BLOCKS && Written(d0, d, n, k) && ReservedUsed(d0)
    requires Grown(d, n, Empty(d, n, Path(k)), d1, n1)
    ensures Written(d0, d1, n1, k + 1)
  {
    var slots := Empty(d, n, Path(k));
    NewInPath(d, n, k);
    FilledGrows(d, n, k, d1, n1);
    forall b | b in Used(d1) && b !in Used(d0) ensures Owns(d1, n1, b) {
      OwnsGrows(d, n, slots, d1, n1, b);
    }
    forall s | Valid(s) && Ptr(d1, n1, s) != 0
      ensures Ptr(d1, n1, s) !in Used(d0) && Ptr(d1, n1, s) < |Used(d1)|
    {
      if s !in slots {
        assert Ptr(d1, n1, s) == Ptr(d, n, s);
      }
    }
    FrameGrows(d0, d, d1, n1);
  }

  lemma FrameGrows(d0: Image, d: Image, d1: Image, n1: Inode)
    requires Tree(d1, n1, Used(d1)) && OnlyTables(d, d1, n1) && Used(d) <= Used(d1)
    requires forall s :: Valid(s) && Ptr(d1, n1, s) != 0 ==> Ptr(d1, n1, s) !in Used(d0)
    requires forall b :: 0 <= b < DISK_BLOCKS && b != BLOCK_BITMAP && d[b] != d0[b] ==> b in Used(d) && b !in Used(d0)
    ensures forall b :: 0 <= b < DISK_BLOCKS && b != BLOCK_BITMAP && d1[b] != d0[b] ==> b in Used(d1) && b !in Used(d0)
  {
    forall b | 0 <= b < DISK_BLOCKS && b != BLOCK_BITMAP && d1[b] != d0[b] ensures b in Used(d1) && b !in Used(d0) {
      if d1[b] != d[b] {
        assert HoldsTable(d1, n1, b);
      }
    }
  }

  // Writing a data block of the file leaves the pointers alone.
  lemma DataWrite(d: Image, n: Inode, l: nat, buf: Block, d': Image)
    requires l < MAX_BLOCKS && Tree(d, n, Used(d)) && Lookup(d, n, l) != 0
    requires d' == d[Lookup(d, n, l) := buf]
    ensures Used(d') == Used(d) && Tree(d', n, Used(d'))
    ensures forall t :: Valid(t) ==> Ptr(d', n, t) == Ptr(d, n, t)
    ensures forall k :: 0 <= k < MAX_BLOCKS ==>
      BlockAt(d', Lookup(d', n, k)) == if k == l then buf else BlockAt(d, Lookup(d, n, k))
  {
    assert SameTables(d, n, d');
    PtrFrame(d, n, d');
    forall k | 0 <= k < MAX_BLOCKS && k != l ensures BlockAt(d', Lookup(d', n, k)) == BlockAt(d, Lookup(d, n, k)) {
      if DataSlot(k) == DataSlot(l) {
        DataSlotInjective(k, l);
      }
    }
  }

  lemma WrittenData(d0: Image, d: Image, n: Inode, k: nat, l: nat, buf: Block, d': Image)
    requires l < MAX_BLOCKS && Written(d0, d, n, k) && Lookup(d, n, l) != 0
    requires d' == d[Lookup(d, n, l) := buf]
    ensures Written(d0, d', n, k)
  {
    DataWrite(d, n, l, buf, d');
    forall b | b in Used(d') && b !in Used(d0) ensures Owns(d', n, b) {
      var s :| Valid(s) && Ptr(d, n, s) == b;
      assert Ptr(d', n, s) == b;
    }
  }

  // Growth keeps the data blocks that were there.
  lemma GrowthKeepsData(d: Image, n: Inode, slots: set<Slot>, d1: Image, n1: Inode, l: nat)
    requires l < MAX_BLOCKS && Tree(d, n, Used(d)) && Grown(d, n, slots, d1, n1) && Lookup(d, n, l) != 0
    ensures Lookup(d1, n1, l) == Lookup(d, n, l)
    ensures BlockAt(d1, Lookup(d1, n1, l)) == BlockAt(d, Lookup(d, n, l))
  {
    var b := Lookup(d, n, l);
    assert Ptr(d1, n1, DataSlot(l)) == b;
    forall t | Valid(t) && IsTable(t) ensures Ptr(d1, n1, t) != b {
      assert t != DataSlot(l);
    }
  }

  // The finite map from logical to physical blocks that an inode stands for.
  ghost function Mapping(d: Image, n: Inode): map<int, u32> {
    map l | 0 <= l < MAX_BLOCKS && Lookup(d, n, l) != 0 :: Lookup(d, n, l)
  }

  /** Allocating a logical block is an update of that map in one place, in any of the three
      tiers, and every block of data that was mapped still holds what it held. */
  lemma GrowthIsUpdate(d: Image, n: Inode, l: nat, d': Image, n': Inode)
    requires l < MAX_BLOCKS && Tree(d, n, Used(d)) && Grown(d, n, Empty(d, n, Path(l)), d', n')
    requires Lookup(d', n', l) != 0
    ensures Mapping(d', n') == Mapping(d, n)[l := Lookup(d', n', l)]
    ensures l !in Mapping(d, n) ==> Lookup(d', n', l) !in Used(d) && Lookup(d', n', l) !in Mapping(d, n).Values
    ensures forall k :: k in Mapping(d, n) ==> BlockAt(d', Mapping(d', n')[k]) == BlockAt(d, Mapping(d, n)[k])
  {
    hide Grown, Lookup, Tree, Mapping;
    OthersStay(d, n, l, d', n');
    MappingUpdated(d, n, l, d', n');
    if l !in Mapping(d, n) {
      FreshData(d, n, l, d', n');
    }
    DataStays(d, n, l, d', n');
  }

  lemma OthersStay(d: Image, n: Inode, l: nat, d': Image, n': Inode)
    requires l < MAX_BLOCKS && Grown(d, n, Empty(d, n, Path(l)), d', n')
    ensures forall k :: 0 <= k < MAX_BLOCKS && k != l ==> Lookup(d', n', k) == Lookup(d, n, k)
  {
    hide UsedGrown, OnlyTables, Ptr;
    forall k: nat | k < MAX_BLOCKS && k != l ensures Lookup(d', n', k) == Lookup(d, n, k) {
      OnlyOwnSlot(l, k);
    }
  }

  lemma MappingUpdated(d: Image, n: Inode, l: nat, d': Image, n': Inode)
    requires l < MAX_BLOCKS && Lookup(d', n', l) != 0
    requires forall k :: 0 <= k < MAX_BLOCKS && k != l ==> Lookup(d', n', k) == Lookup(d, n, k)
    ensures Mapping(d', n') == Mapping(d, n)[l := Lookup(d', n', l)]
  {
    hide Lookup;
  }

  lemma DataStays(d: Image, n: Inode, l: nat, d': Image, n': Inode)
    requires l < MAX_BLOCKS && Tree(d, n, Used(d)) && Grown(d, n, Empty(d, n, Path(l)), d', n')
    ensures forall k :: k in Mapping(d, n) ==>
      k in Mapping(d', n') && BlockAt(d', Mapping(d', n')[k]) == BlockAt(d, Mapping(d, n)[k])
  {
    hide Grown, Lookup, Tree;
    forall k | k in Mapping(d, n)
      ensures k in Mapping(d', n') && BlockAt(d', Mapping(d', n')[k]) == BlockAt(d, Mapping(d, n)[k])
    {
      GrowthKeepsData(d, n, Empty(d, n, Path(l)), d', n', k);
    }
  }

  lemma OnlyOwnSlot(l: nat, k: nat)
    requires l < MAX_BLOCKS && k < MAX_BLOCKS && k != l
    ensures DataSlot(k) !in Path(l)
  {
    if DataSlot(k) == DataSlot(l) {
      DataSlotInjective(k, l);
    }
  }

  lemma FreshData(d: Image, n: Inode, l: nat, d': Image, n': Inode)
    requires l < MAX_BLOCKS && Tree(d, n, Used(d)) && Grown(d, n, Empty(d, n, Path(l)), d', n')
    requires l !in Mapping(d, n)
    ensures Lookup(d', n', l) !in Used(d) && Lookup(d', n', l) !in Mapping(d, n).Values
  {
    assert DataSlot(l) in Empty(d, n, Path(l));
    forall k | k in Mapping(d, n) ensures Lookup(d, n, k) in Used(d) {
      assert Ptr(d, n, DataSlot(k)) != 0;
    }
  }

  /** Storing a file harms no other: every file that was there reads as before, keeps all its
      pointers, and shares no block with the new one. */
  lemma StoringHarmsNobody(d0: Image, d: Image, n: Inode, k: nat, m: Inode)
    requires Written(d0, d, n, k) && Tree(d0, m, Used(d0))
    ensures FileContent(d, m) == FileContent(d0, m) && Tree(d, m, Used(d))
    ensures forall s, t :: Valid(s) && Valid(t) && Ptr(d, n, s) != 0 ==> Ptr(d, n, s) != Ptr(d, m, t)
  {
    ContentFrame(d0, m, Used(d0), d);
    forall s, t | Valid(s) && Valid(t) && Ptr(d, n, s) != 0 ensures Ptr(d, n, s) != Ptr(d, m, t) {
      assert Ptr(d, m, t) == Ptr(d0, m, t);
    }
  }
}
