/** Formatting: the file system that create_ext2 puts on a disk, whatever was there before. */
module FsFormat {
  import opened Bytes
  import opened Bitmap
  import opened Layout
  import opened BlockTree
  import opened Growth
  import opened Contents
  import opened Directory
  import opened FsState
  import opened FsEffects
  import opened Volume
  import opened FsOps

  const DOT_LENGTH := 12

  function RootPointers(): (p: Pointers)
    ensures p[0] == FIRST_FREE_BLOCK && forall k :: 1 <= k < 15 ==> p[k] == 0
  {
    NoPointers()[0 := FIRST_FREE_BLOCK]
  }

  function RootInode(): Inode { Inode(IFDIR, BLOCK_SIZE, 1, RootPointers()) }

  lemma {:induction false} NoBits(k: nat)
    ensures !BitOf(0, k)
  {
    if k > 0 {
      NoBits(k - 1);
    }
  }

  lemma ZeroUnmarked(b: Block)
    requires forall j :: 0 <= j < 512 ==> b[j] == 0
    ensures Marked(b) == {}
  {
    forall j | 0 <= j < BITS ensures !Bit(b, j) {
      NoBits(j % 8);
    }
  }

  // The block of a directory as the file system itself lays it out: "." in 12 bytes.
  method DirectoryTable(i: u32, parent: u32) returns (b: Block)
    ensures Chain(b, 0) && Entries(b, 0) == Dots(i, parent) && Last(b, 0) == DOT_LENGTH
  {
    var buf := new byte[512](_ => 0);
    var current, up := Entry(i, FT_DIR, DOT), Entry(parent, FT_DIR, DOTDOT);
    PutEntry(buf, 0, current, DOT_LENGTH);
    PutEntry(buf, DOT_LENGTH, up, BLOCK_SIZE - DOT_LENGTH);
    b := buf[..];
    DotRecords(b, current, up);
  }

  lemma DotRecords(b: Block, x: Entry, y: Entry)
    requires x.name == DOT && y.name == DOTDOT
    requires b[0..10] == EncodeEntry(x, 12) && b[12..23] == EncodeEntry(y, 500)
    ensures Chain(b, 0) && Entries(b, 0) == [x, y] && Last(b, 0) == DOT_LENGTH
  {
    EncodedRecord(b, 0, x, 12);
    EncodedRecord(b, 12, y, 500);
    assert Entries(b, 12) == [y] + Entries(b, 512);
    assert Last(b, 12) == 12;
  }

  // A freshly formatted image.
  ghost predicate Formatted(d: Image) {
    && (forall b :: b in Used(d) <==> 0 <= b <= FIRST_FREE_BLOCK)
    && (forall i :: InodeUsed(d, i) <==> i == ROOT)
    && NodeAt(d, ROOT) == RootInode()
    && Chain(d[FIRST_FREE_BLOCK], 0) && Last(d[FIRST_FREE_BLOCK], 0) == DOT_LENGTH
    && Entries(d[FIRST_FREE_BLOCK], 0) == Dots(ROOT, ROOT)
  }

  lemma RootSlots(d: Image, s: Slot)
    requires Valid(s)
    ensures Ptr(d, RootInode(), s) == if s == Direct(0) then FIRST_FREE_BLOCK else 0
  {
  }

  // The bytes of a freshly formatted disk: bitmaps of ten blocks and of inode 2, the record of
  // the root (kind, size, block count, first pointer), and its two directory records.
  predicate FormattedBytes(d: Image) {
    && d[3][0] == 255 && d[3][1] == 3 && d[4][0] == 2
    && d[5][70..84] == [0, 0x40, 0, 2, 0, 0, 1, 0, 0, 0, 9, 0, 0, 0]
    && d[9][..10] == [2, 0, 0, 0, 12, 0, 1, 0, 2, 46]
    && d[9][12..23] == [2, 0, 0, 0, 0xF4, 1, 2, 0, 2, 46, 46]
  }

  /** What is on the disk after formatting, byte for byte. */
  lemma FormattedLayout(d: Image)
    requires Formatted(d)
    ensures FormattedBytes(d)
  {
    hide NodeAt, Chain, Entries, Last;
    FirstBytes(d);
    RootRecord(d);
    RootRecords(d[9]);
  }

  lemma FirstBytes(d: Image)
    requires Formatted(d)
    ensures d[3][0] == 255 && d[3][1] == 3 && d[4][0] == 2
  {
    hide NodeAt, Chain, Entries, Last, BitOf;
    KnownBits();
    forall k: nat | k < 8 ensures BitOf(d[3][0], k) && (BitOf(d[3][1], k) <==> k < 2) {
      assert k in Used(d) && (8 + k in Used(d) <==> k < 2);
      assert Bit(d[3], k) && (Bit(d[3], 8 + k) <==> k < 2);
    }
    forall k: nat | k < 8 ensures BitOf(d[4][0], k) <==> k == 1 {
      assert InodeUsed(d, k + 1) <==> k + 1 == ROOT;
      assert Bit(d[4], k) <==> k == 1;
    }
    SameByte(d[3][0], 255);
    SameByte(d[3][1], 3);
    SameByte(d[4][0], 2);
  }

  lemma KnownBits()
    ensures forall k: nat :: k < 8 ==> BitOf(255, k) && (BitOf(3, k) <==> k < 2) && (BitOf(2, k) <==> k == 1)
  {
    forall k: nat | k < 8 ensures BitOf(255, k) && (BitOf(3, k) <==> k < 2) && (BitOf(2, k) <==> k == 1) {
      OnesAndZeros(8, 255, k);
      OnesAndZeros(2, 3, k);
      OnesAndZeros(1, 1, if k > 0 then k - 1 else 0);
    }
  }

  // The lowest n bits are set in the number that is one less than the n-th power of two.
  lemma {:induction false} OnesAndZeros(n: nat, x: nat, k: nat)
    requires x == Pow2(n) - 1
    ensures BitOf(x, k) <==> k < n
    decreases k
  {
    if n == 0 {
      NoBits(k);
    } else if k > 0 {
      OnesAndZeros(n - 1, x / 2, k - 1);
    }
  }

  lemma RootRecord(d: Image)
    requires Formatted(d)
    ensures d[5][70..84] == [0, 0x40, 0, 2, 0, 0, 1, 0, 0, 0, 9, 0, 0, 0]
  {
    hide NodeAt, Chain, Entries, Last, TableBytes, FieldsAt;
    NodeBytes(d, ROOT);
    var t := TableBytes(d);
    RecordShows(t);
    forall j | 70 <= j < 84 ensures t[j] == d[5][j] {
    }
  }

  lemma RecordShows(t: seq<byte>)
    requires |t| == TABLE_SIZE && FieldsAt(t, 70, RootInode())
    ensures t[70] == 0 && t[71] == 0x40 && t[72] == 0 && t[73] == 2 && t[74] == 0 && t[75] == 0
    ensures t[76] == 1 && t[77] == 0 && t[78] == 0 && t[79] == 0
    ensures t[80] == 9 && t[81] == 0 && t[82] == 0 && t[83] == 0
  {
    LittleEndian(t, 80);
    assert RootInode().block[0] == Word(t, 70 + 10 + 4 * 0);
    hide Word;
  }

  lemma RootRecords(b: Block)
    requires Chain(b, 0) && Last(b, 0) == DOT_LENGTH && Entries(b, 0) == Dots(ROOT, ROOT)
    ensures b[..10] == [2, 0, 0, 0, 12, 0, 1, 0, 2, 46]
    ensures b[12..23] == [2, 0, 0, 0, 0xF4, 1, 2, 0, 2, 46, 46]
  {
    hide EntryAt, Half, Word;
    ChainHead(b, 0);
    var o := RecLen(b, 0);
    ChainHead(b, o);
    ChainEnd(b, o + RecLen(b, o));
    assert o == 12;
    var es := Dots(ROOT, ROOT);
    assert es[0] == EntryAt(b, 0) && es[1..] == Entries(b, 12) && es[1] == Entries(b, 12)[0] == EntryAt(b, 12);
    assert DOT[0] == 46 && DOTDOT[0] == 46 && DOTDOT[1] == 46;
    ShownRecord(b, 0, ROOT, 12, FT_DIR, DOT);
    ShownRecord(b, 12, ROOT, 500, FT_DIR, DOTDOT);
    var x, y := b[..10], b[12..23];
    forall k | 0 <= k < 10 ensures x[k] == [2, 0, 0, 0, 12, 0, 1, 0, 2, 46][k] {
      assert x[k] == b[k];
    }
    forall k | 0 <= k < 11 ensures y[k] == [2, 0, 0, 0, 0xF4, 1, 2, 0, 2, 46, 46][k] {
      assert y[k] == b[12 + k];
    }
  }

  // The bytes of a record for a small inode number.
  lemma ShownRecord(b: Block, o: nat, i: int, len: u16, ftype: byte, name: seq<byte>)
    requires RecordAt(b, o) && 0 <= i < 256 && |name| < 256 && RecLen(b, o) == len
    requires EntryAt(b, o) == Entry(i, ftype, name)
    ensures b[o] == i && b[o + 1] == 0 && b[o + 2] == 0 && b[o + 3] == 0
    ensures b[o + 4] == len % 256 && b[o + 5] == len / 256 && b[o + 6] == |name| && b[o + 7] == 0 && b[o + 8] == ftype
    ensures o + 9 + |name| <= 512 && forall k :: 0 <= k < |name| ==> b[o + 9 + k] == name[k]
  {
    RecordBytes(b, o);
    hide EntryAt, RecLen, RecordAt;
    var n := Two(b[o + 6], b[o + 7]);
    assert |b[o + 9..o + 9 + n]| == n == |name|;
    forall k | 0 <= k < |name| ensures b[o + 9 + k] == name[k] {
      assert b[o + 9..o + 9 + n][k] == name[k];
    }
  }

  /** The file system starts out healthy. */
  lemma FormattedHealthy(d: Image)
    requires Formatted(d)
    ensures Healthy(d)
  {
    hide NodeAt, Chain, Entries, Last, DirOK, DirTiled, Dot;
    forall s | Valid(s)
      ensures PtrOf(d, ROOT, s) == Ptr(d, NodeAt(d, ROOT), s) == if s == Direct(0) then FIRST_FREE_BLOCK else 0
    {
      RootSlots(d, s);
    }
    assert Sound(d, ROOT);
    RootDirectory(d);
    assert forall i, k, x :: !Names(d, i, k, x);
  }

  lemma RootDirectory(d: Image)
    requires Formatted(d)
    ensures IsDir(d, ROOT) && DirTiled(d, ROOT) && DirOK(d, ROOT) && DirEntries(d, ROOT) == Dots(ROOT, ROOT)
    ensures forall k :: 0 <= k < |DirEntries(d, ROOT)| ==> Dot(DirEntries(d, ROOT)[k])
  {
    hide NodeAt, Chain, Entries, Last;
    assert DirEntries(d, ROOT) == Dots(ROOT, ROOT);
    DotsAreDots(ROOT, ROOT);
  }

  lemma RecordStored(d: Image, t: seq<byte>, i: int, n: Inode)
    requires 1 <= i <= 29 && |t| == TABLE_SIZE
    requires t[InodeOffset(i)..InodeOffset(i) + INODE_SIZE] == EncodeInode(n)
    requires forall k :: 0 <= k < PERSISTED ==> TableBytes(d)[k] == t[k]
    ensures NodeAt(d, i) == n
  {
    var o := InodeOffset(i);
    assert TableBytes(d)[o..o + INODE_SIZE] == t[o..o + INODE_SIZE];
    InodeCodec(n);
  }

  // Marks the reserved blocks, one bit at a time.
  method ReservedBitmap() returns (b: Block)
    ensures forall j :: j in Marked(b) <==> 0 <= j < FIRST_FREE_BLOCK
    ensures |Marked(b)| == FIRST_FREE_BLOCK
  {
    hide Marked, SetBit;
    b := seq(512, _ => 0);
    ZeroUnmarked(b);
    var i := 0;
    while i < FIRST_FREE_BLOCK
      invariant 0 <= i <= FIRST_FREE_BLOCK
      invariant |Marked(b)| == i && forall j :: j in Marked(b) <==> 0 <= j < i
    {
      OneMoreMarked(b, i);
      b := SetBit(b, i);
      i := i + 1;
    }
  }

  lemma OneMoreMarked(b: Block, i: nat)
    requires i < BITS && |Marked(b)| == i && forall j :: j in Marked(b) <==> 0 <= j < i
    ensures |Marked(SetBit(b, i))| == i + 1 && forall j :: j in Marked(SetBit(b, i)) <==> 0 <= j < i + 1
  {
    SetBitMarks(b, i);
    hide Bit, SetBit;
  }

  lemma OnlyRoot(d: Image, b: Block)
    requires Marked(b) == {} && d[INODE_BITMAP] == SetBit(b, 1)
    ensures forall i :: InodeUsed(d, i) <==> i == ROOT
  {
    SetBitMarks(b, 1);
    forall i | 1 <= i <= INODES_PER_GROUP ensures InodeUsed(d, i) <==> i == ROOT {
      assert i - 1 in Marked(d[INODE_BITMAP]) <==> i - 1 == 1;
    }
  }

  // Writes the two bitmaps and takes the first free block for the root directory.
  method WriteBitmaps(v: Volume, ghost inodes: Block) returns (p: int)
    requires v.Valid() && forall j :: 0 <= j < 512 ==> inodes[j] == 0
    modifies v.disk
    ensures p == FIRST_FREE_BLOCK && v.Image()[INODE_BITMAP] == inodes
    ensures forall b :: b in Used(v.Image()) <==> 0 <= b <= FIRST_FREE_BLOCK
  {
    hide Marked;
    var blocks := ReservedBitmap();
    v.WriteBlock(blocks, BLOCK_BITMAP);
    v.WriteBlock(seq(512, _ => 0), INODE_BITMAP);
    ghost var d := v.Image();
    assert d[INODE_BITMAP] == inodes && d[BLOCK_BITMAP] == blocks;
    assert FIRST_FREE_BLOCK !in Used(d) && |Used(d)| == FIRST_FREE_BLOCK;
    p := v.AllocateBlock();
    assert p > FIRST_FREE_BLOCK ==> FIRST_FREE_BLOCK in Used(d);
  }

  // Writes an inode table that holds nothing but the root.
  method WriteRootTable(v: Volume, root: Inode)
    requires v.Valid()
    modifies v.disk
    ensures NodeAt(v.Image(), ROOT) == root
    ensures forall b :: 0 <= b < DISK_BLOCKS && !(5 <= b < 9) ==> v.Image()[b] == old(v.Image())[b]
  {
    hide NodeAt, EncodeInode;
    var t: seq<byte> := seq(INODE_SIZE, _ => 0) + EncodeInode(root) + seq(TABLE_SIZE - 2 * INODE_SIZE, _ => 0);
    v.WriteTable(t);
    RecordStored(v.Image(), t, ROOT, root);
  }

  /** create_ext2: the bitmaps, the root directory and the counters of a new file system. */
  method CreateExt2(v: Volume)
    requires v.Valid()
    modifies v, v.disk
    ensures v.Valid() && Formatted(v.Image()) && Healthy(v.Image())
    ensures v.sFreeInodes == 31 && v.bgFreeInodes == 32 && v.bgUsedDirs == 0
    ensures v.sFreeBlocks == 1015 && v.bgFreeBlocks == 1015 && FormattedBytes(v.Image())
  {
    hide NodeAt, Chain, Entries, Last, Marked, Dots, FormattedBytes;
    v.sFreeBlocks, v.bgFreeBlocks := BLOCKS_PER_GROUP - 9, BLOCKS_PER_GROUP - 9;
    v.sFreeInodes, v.bgFreeInodes, v.bgUsedDirs := INODES_PER_GROUP - 1, INODES_PER_GROUP, 0;
    ghost var inodes: Block := ZeroBlock();
    var p := WriteBitmaps(v, inodes);
    ghost var d0 := v.Image();
    var root := Inode(IFDIR, BLOCK_SIZE, 1, NoPointers()[0 := p]);
    assert root == RootInode();
    var table := DirectoryTable(ROOT, ROOT);
    v.WriteBlock(table, p);
    WriteRootTable(v, root);
    ghost var d := v.Image();
    v.WriteBlock(SetBit(v.disk[INODE_BITMAP], 1), INODE_BITMAP);
    ZeroUnmarked(inodes);
    OnlyRoot(v.Image(), inodes);
    TableFrame(d, v.Image());
    assert v.Image()[FIRST_FREE_BLOCK] == table;
    assert v.Image()[BLOCK_BITMAP] == d0[BLOCK_BITMAP];
    assert NodeAt(v.Image(), ROOT) == RootInode();
    assert Used(v.Image()) == Used(d0);
    assert forall b :: b in Used(v.Image()) <==> 0 <= b <= FIRST_FREE_BLOCK;
    assert forall i :: InodeUsed(v.Image(), i) <==> i == ROOT;
    assert Chain(v.Image()[FIRST_FREE_BLOCK], 0);
    FormattedHealthy(v.Image());
    FormattedLayout(v.Image());
  }
}
