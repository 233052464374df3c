/** The disk image: which block holds what, and how the inode table packs its
    70-byte records into the four blocks that are actually written. */
module Layout {
  import opened Bytes
  import opened Bitmap

  const DISK_BLOCKS := 8192
  const BLOCKS_PER_GROUP := 1024
  const INODES_PER_GROUP := 32
  const BLOCK_BITMAP := 3
  const INODE_BITMAP := 4
  const INODE_TABLE := 5
  const FIRST_FREE_BLOCK := 9

  const INODE_SIZE := 70
  const TABLE_SIZE := 2240
  const PERSISTED := 2048

  const IFREG: u16 := 0x8000
  const IFDIR: u16 := 0x4000

  type Image = d: seq<Block> | |d| == 8192 witness seq<Block>(8192, _ => ZeroBlock())

  // i_block: 12 direct pointers, one single, one double and one triple indirect.
  type Pointers = p: seq<u32> | |p| == 15 witness seq(15, _ => 0)

  datatype Inode = Inode(mode: u16, size: u32, blocks: u32, block: Pointers)

  function NoPointers(): (p: Pointers)
    ensures forall k :: 0 <= k < 15 ==> p[k] == 0
  {
    seq(15, _ => 0)
  }

  function BlankInode(): Inode { Inode(0, 0, 0, NoPointers()) }

  predicate IsDirectory(n: Inode) { n.mode / IFDIR % 2 == 1 }

  /** The kind test in arithmetic is the machine test of the bit of directories. */
  lemma IsDirectoryIsMask(m: bv16, n: Inode)
    requires n.mode == m as int
    ensures IsDirectory(n) <==> (m & 0x4000) == 0x4000
  {
    var h: bv16 := m >> 14;
    assert (m & 0x4000) == 0x4000 <==> (h & 1) == 1;
    assert h as int == (m as int) / 0x4000;
  }

  // Indices marked in the block bitmap, and numbers of the inodes in use.
  function Used(d: Image): set<int> { Marked(d[BLOCK_BITMAP]) }

  predicate InodeUsed(d: Image, i: int) {
    1 <= i <= INODES_PER_GROUP && Bit(d[INODE_BITMAP], i - 1)
  }

  // The in-memory inode table that read_inode builds: 32 records of 70 bytes, of which
  // only the first 2048 bytes come from the disk; the rest reads as zero.
  function TableBytes(d: Image): (s: seq<byte>)
    ensures |s| == TABLE_SIZE
    ensures forall k :: 0 <= k < PERSISTED ==> s[k] == d[INODE_TABLE + k / 512][k % 512]
    ensures forall k :: PERSISTED <= k < TABLE_SIZE ==> s[k] == 0
  {
    seq(TABLE_SIZE, k requires 0 <= k < TABLE_SIZE =>
      if k < PERSISTED then d[INODE_TABLE + k / 512][k % 512] else 0)
  }

  function InodeOffset(i: int): nat
    requires 1 <= i <= INODES_PER_GROUP
  {
    INODE_SIZE * (i - 1)
  }

  function PointersIn(e: seq<byte>): (p: Pointers)
    requires |e| == INODE_SIZE
    ensures forall k :: 0 <= k < 15 ==> p[k] == Word(e, 10 + 4 * k)
  {
    seq(15, k requires 0 <= k < 15 => Word(e, 10 + 4 * k))
  }

  function DecodeInode(e: seq<byte>): Inode
    requires |e| == INODE_SIZE
  {
    Inode(Half(e, 0), Word(e, 2), Word(e, 6), PointersIn(e))
  }

  function Fields(n: Inode): (ws: seq<u32>)
    ensures |ws| == 17
  {
    [n.size, n.blocks] + n.block
  }

  function EncodeInode(n: Inode): (s: seq<byte>)
    ensures |s| == INODE_SIZE
  {
    Bytes16(n.mode) + Words(Fields(n))
  }

  // What read_inode returns for inode number i.
  function NodeAt(d: Image, i: int): Inode
    requires 1 <= i <= INODES_PER_GROUP
  {
    DecodeInode(TableBytes(d)[InodeOffset(i)..InodeOffset(i) + INODE_SIZE])
  }

  // t' is the table t with record i overwritten by the bytes e, as far as it lies inside
  // the part that reaches the disk.
  ghost predicate RecordWritten(t: seq<byte>, i: int, e: seq<byte>, t': seq<byte>)
    requires 1 <= i <= INODES_PER_GROUP && |e| == INODE_SIZE
  {
    && |t| == |t'| == TABLE_SIZE
    && (forall k :: 0 <= k < PERSISTED ==>
          t'[k] == if InodeOffset(i) <= k < InodeOffset(i) + INODE_SIZE then e[k - InodeOffset(i)] else t[k])
    && (forall k :: PERSISTED <= k < TABLE_SIZE ==> t'[k] == t[k] == 0)
  }

  // d' is d after sync_node stored n as inode i.
  ghost predicate NodeWritten(d: Image, i: int, n: Inode, d': Image)
    requires 1 <= i <= INODES_PER_GROUP
  {
    && (forall b :: 0 <= b < DISK_BLOCKS && !(5 <= b < 9) ==> d'[b] == d[b])
    && RecordWritten(TableBytes(d), i, EncodeInode(n), TableBytes(d'))
  }

  // Writing the first 2048 bytes of t over the four table blocks.
  lemma TableStored(d: Image, t: seq<byte>, d': Image)
    requires |t| == TABLE_SIZE
    requires d' == d[5 := t[..512]][6 := t[512..1024]][7 := t[1024..1536]][8 := t[1536..2048]]
    ensures forall b :: 0 <= b < DISK_BLOCKS && !(5 <= b < 9) ==> d'[b] == d[b]
    ensures forall k :: 0 <= k < PERSISTED ==> TableBytes(d')[k] == t[k]
  {
    forall k | 0 <= k < PERSISTED ensures TableBytes(d')[k] == t[k] {
      var b := k / 512;
      assert d'[5 + b] == t[512 * b..512 * b + 512];
    }
  }

  // The field that starts x bytes into record i lies inside the bytes that reach the disk.
  predicate Persists(i: int, x: nat)
    requires 1 <= i <= INODES_PER_GROUP
  {
    InodeOffset(i) + x < PERSISTED
  }

  function KeptPointers(i: int, p: Pointers): (q: Pointers)
    requires 1 <= i <= INODES_PER_GROUP
    ensures forall k :: 0 <= k < 15 ==> q[k] == if Persists(i, 10 + 4 * k) then p[k] else 0
  {
    seq(15, k requires 0 <= k < 15 => if Persists(i, 10 + 4 * k) then p[k] else 0)
  }

  // What survives of n in slot i: everything up to slot 29, the first two block
  // pointers in slot 30, nothing in slots 31 and 32.
  function Kept(i: int, n: Inode): Inode
    requires 1 <= i <= INODES_PER_GROUP
  {
    if i <= 30 then Inode(n.mode, n.size, n.blocks, KeptPointers(i, n.block)) else BlankInode()
  }

  // How many of the first k direct pointers of a record that is: the last three slots of the
  // inode table do not reach the disk completely.
  function BlocksKept(i: int, k: nat): nat {
    if i <= 29 then k else if i == 30 && k >= 2 then 2 else if i == 30 then k else 0
  }

  lemma KeptWhole(i: int, n: Inode)
    requires 1 <= i <= 29
    ensures Kept(i, n) == n
  {
    assert KeptPointers(i, n.block) == n.block;
  }

  lemma KeptBlock(i: int, n: Inode)
    requires 1 <= i <= INODES_PER_GROUP
    ensures i <= 30 ==>
      Kept(i, n).mode == n.mode && Kept(i, n).blocks == n.blocks && Kept(i, n).block[0] == n.block[0]
    ensures i > 30 ==> Kept(i, n) == BlankInode()
  {
    assert Persists(30, 10);
  }

  lemma EncodedHeader(n: Inode)
    ensures Half(EncodeInode(n), 0) == n.mode
  {
    JoinBytes16(n.mode);
    assert EncodeInode(n)[0..2] == Bytes16(n.mode);
  }

  lemma EncodedField(n: Inode, w: nat)
    requires w < 17
    ensures Word(EncodeInode(n), 2 + 4 * w) == Fields(n)[w]
  {
    var e, ws := EncodeInode(n), Words(Fields(n));
    assert e[2 + 4 * w..6 + 4 * w] == ws[4 * w..4 * w + 4];
    WordOfWords(Fields(n), w);
  }

  lemma EncodedPointer(n: Inode, k: nat)
    requires k < 15
    ensures Word(EncodeInode(n), 10 + 4 * k) == n.block[k]
  {
    EncodedField(n, k + 2);
    assert Fields(n)[k + 2] == n.block[k];
  }

  lemma SamePointers(e: seq<byte>, p: Pointers)
    requires |e| == INODE_SIZE && forall k :: 0 <= k < 15 ==> Word(e, 10 + 4 * k) == p[k]
    ensures PointersIn(e) == p
  {
  }

  // Decoding undoes encoding.
  lemma InodeCodec(n: Inode)
    ensures DecodeInode(EncodeInode(n)) == n
  {
    EncodedHeader(n);
    EncodedField(n, 0);
    EncodedField(n, 1);
    forall k | 0 <= k < 15 ensures Word(EncodeInode(n), 10 + 4 * k) == n.block[k] {
      EncodedPointer(n, k);
    }
    SamePointers(EncodeInode(n), n.block);
  }

  // The record r read back holds the bytes e, except that bytes beyond the disk are zero.
  ghost predicate ReadBack(i: int, e: seq<byte>, r: seq<byte>)
    requires 1 <= i <= INODES_PER_GROUP
  {
    && |e| == |r| == INODE_SIZE
    && forall k :: 0 <= k < INODE_SIZE ==> r[k] == if Persists(i, k) then e[k] else 0
  }

  lemma OwnWord(i: int, e: seq<byte>, r: seq<byte>, x: nat)
    requires 1 <= i <= INODES_PER_GROUP && x + 4 <= INODE_SIZE && x % 4 == 2
    requires ReadBack(i, e, r)
    ensures Word(r, x) == if Persists(i, x) then Word(e, x) else 0
  {
    if Persists(i, x) {
      assert r[x..x + 4] == e[x..x + 4];
    } else {
      JoinZeros(r[x..x + 4]);
    }
  }

  lemma OwnPointers(i: int, e: seq<byte>, r: seq<byte>)
    requires 1 <= i <= INODES_PER_GROUP
    requires ReadBack(i, e, r)
    ensures PointersIn(r) == KeptPointers(i, PointersIn(e))
  {
    forall k | 0 <= k < 15 ensures PointersIn(r)[k] == KeptPointers(i, PointersIn(e))[k] {
      OwnWord(i, e, r, 10 + 4 * k);
    }
  }

  lemma OwnRecord(i: int, e: seq<byte>, r: seq<byte>)
    requires 1 <= i <= INODES_PER_GROUP
    requires ReadBack(i, e, r)
    ensures DecodeInode(r) == Kept(i, DecodeInode(e))
  {
    OwnPointers(i, e, r);
    OwnWord(i, e, r, 2);
    OwnWord(i, e, r, 6);
    if i <= 30 {
      assert r[0..2] == e[0..2];
    } else {
      JoinZeros(r[0..2]);
      assert PointersIn(r) == NoPointers();
    }
  }

  /** Reading an inode back after it was written gives Kept, and no other inode changes. */
  lemma ReadAfterWrite(d: Image, i: int, n: Inode, d': Image)
    requires 1 <= i <= INODES_PER_GROUP
    requires NodeWritten(d, i, n, d')
    ensures NodeAt(d', i) == Kept(i, n)
    ensures forall j :: 1 <= j <= INODES_PER_GROUP && j != i ==> NodeAt(d', j) == NodeAt(d, j)
  {
    hide EncodeInode, DecodeInode, TableBytes, Kept;
    var e, t, t' := EncodeInode(n), TableBytes(d), TableBytes(d');
    var o := InodeOffset(i);
    InodeCodec(n);
    OwnRecord(i, e, t'[o..o + INODE_SIZE]);
    forall j | 1 <= j <= INODES_PER_GROUP && j != i ensures NodeAt(d', j) == NodeAt(d, j) {
      OtherRecord(t, i, e, t', j);
    }
  }

  lemma OtherRecord(t: seq<byte>, i: int, e: seq<byte>, t': seq<byte>, j: int)
    requires 1 <= i <= INODES_PER_GROUP && 1 <= j <= INODES_PER_GROUP && i != j
    requires |e| == INODE_SIZE && RecordWritten(t, i, e, t')
    ensures var x := InodeOffset(j); t'[x..x + INODE_SIZE] == t[x..x + INODE_SIZE]
  {
  }

  /** An inode survives the trip through the disk exactly when it fits the bytes that
      are written: the last three of the 32 slots do not. */
  lemma InodeRoundTrip(d: Image, i: int, n: Inode, d': Image)
    requires 1 <= i <= INODES_PER_GROUP
    requires NodeWritten(d, i, n, d')
    ensures NodeAt(d', i) == n <==>
            || i <= 29
            || (i == 30 && forall k :: 2 <= k < 15 ==> n.block[k] == 0)
            || (i >= 31 && n == BlankInode())
  {
    ReadAfterWrite(d, i, n, d');
    if i <= 29 {
      KeptWhole(i, n);
    } else if i == 30 && forall k :: 2 <= k < 15 ==> n.block[k] == 0 {
      assert KeptPointers(i, n.block) == n.block;
    }
  }

  // A record that was read from slot i is stored there without loss.
  lemma ReadIsKept(d: Image, i: int)
    requires 1 <= i <= INODES_PER_GROUP
    ensures Kept(i, NodeAt(d, i)) == NodeAt(d, i)
  {
    var r := TableBytes(d)[InodeOffset(i)..InodeOffset(i) + INODE_SIZE];
    assert ReadBack(i, r, r);
    OwnRecord(i, r, r);
  }

  // Writing back what was read changes no inode.
  lemma SyncSame(d: Image, i: int, d': Image)
    requires 1 <= i <= INODES_PER_GROUP && NodeWritten(d, i, NodeAt(d, i), d')
    ensures forall k :: 1 <= k <= INODES_PER_GROUP ==> NodeAt(d', k) == NodeAt(d, k)
  {
    ReadAfterWrite(d, i, NodeAt(d, i), d');
    ReadIsKept(d, i);
  }

  /** Which bytes of the table hold which field of inode i: 70 bytes each, kind, size, block count,
      fifteen pointers; the first 2048 bytes are those of blocks 5 to 8. */
  lemma NodeBytes(d: Image, i: int)
    requires 1 <= i <= INODES_PER_GROUP
    ensures FieldsAt(TableBytes(d), 70 * (i - 1), NodeAt(d, i))
    ensures forall j :: 0 <= j < 2048 ==> TableBytes(d)[j] == d[5 + j / 512][j % 512]
  {
    hide DecodeInode, FieldsAt;
    RecordFields(TableBytes(d), 70 * (i - 1));
  }

  predicate FieldsAt(t: seq<byte>, o: nat, n: Inode) {
    && o + 70 <= |t|
    && n.mode == Two(t[o], t[o + 1])
    && n.size == Four(t[o + 2], t[o + 3], t[o + 4], t[o + 5])
    && n.blocks == Four(t[o + 6], t[o + 7], t[o + 8], t[o + 9])
    && forall k :: 0 <= k < 15 ==> n.block[k] == Word(t, o + 10 + 4 * k)
  }

  lemma RecordFields(t: seq<byte>, o: nat)
    requires o + INODE_SIZE <= |t|
    ensures FieldsAt(t, o, DecodeInode(t[o..o + INODE_SIZE]))
  {
    hide Two, Four, Half, Word;
    SubWord(t, o, 0);
    SubWord(t, o, 2);
    SubWord(t, o, 6);
    LittleEndian(t, o);
    LittleEndian(t, o + 2);
    LittleEndian(t, o + 6);
    forall k | 0 <= k < 15 ensures DecodeInode(t[o..o + INODE_SIZE]).block[k] == Word(t, o + 10 + 4 * k) {
      SubWord(t, o, 10 + 4 * k);
    }
  }

  // A word inside a record is a word of the table.
  lemma SubWord(t: seq<byte>, o: nat, x: nat)
    requires o + INODE_SIZE <= |t| && x + 4 <= INODE_SIZE
    ensures var r := t[o..o + INODE_SIZE]; Half(r, x) == Half(t, o + x) && Word(r, x) == Word(t, o + x)
  {
    SubSlice(t, o, INODE_SIZE, x, x + 2);
    SubSlice(t, o, INODE_SIZE, x, x + 4);
  }

  // The inode table reads the same when its four blocks are the same.
  lemma TableFrame(d: Image, d': Image)
    requires forall b :: 5 <= b < 9 ==> d'[b] == d[b]
    ensures forall k :: 1 <= k <= INODES_PER_GROUP ==> NodeAt(d', k) == NodeAt(d, k)
  {
    assert TableBytes(d') == TableBytes(d);
  }

  // Marking inode i as used makes exactly that inode used.
  lemma InodeMarked(d: Image, i: int, d': Image)
    requires 1 <= i <= INODES_PER_GROUP && d'[INODE_BITMAP] == SetBit(d[INODE_BITMAP], i - 1)
    ensures forall k :: InodeUsed(d', k) <==> InodeUsed(d, k) || k == i
  {
    SetBitMarks(d[INODE_BITMAP], i - 1);
    forall k | 1 <= k <= INODES_PER_GROUP ensures InodeUsed(d', k) <==> InodeUsed(d, k) || k == i {
      assert k - 1 in Marked(d'[INODE_BITMAP]) <==> k - 1 in Marked(d[INODE_BITMAP]) || k == i;
    }
  }

  lemma InodeUnmarked(d: Image, i: int, d': Image)
    requires 1 <= i <= INODES_PER_GROUP && d'[INODE_BITMAP] == ClearBit(d[INODE_BITMAP], i - 1)
    ensures forall k :: InodeUsed(d', k) <==> InodeUsed(d, k) && k != i
  {
    ClearBitUnmarks(d[INODE_BITMAP], i - 1);
    forall k | 1 <= k <= INODES_PER_GROUP ensures InodeUsed(d', k) <==> InodeUsed(d, k) && k != i {
      assert k - 1 in Marked(d'[INODE_BITMAP]) <==> k - 1 in Marked(d[INODE_BITMAP]) && k != i;
    }
  }
}
