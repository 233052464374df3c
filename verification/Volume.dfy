/** The mounted volume: the disk and the counters kept in memory, with the primitive
    operations on single blocks, bitmap bits and inode records. */
module Volume {
  import opened Bytes
  import opened Bitmap
  import opened Layout

  // An inode variable that functions receive by pointer and update.
  class InodeCell {
    var node: Inode

    constructor (n: Inode)
      ensures node == n
    {
      node := n;
    }
  }

  class Volume {
    const disk: array<Block>
    var sFreeBlocks: u32
    var bgFreeBlocks: u16
    var sFreeInodes: u32
    var bgFreeInodes: u16
    var bgUsedDirs: u16

    ghost predicate Valid()
      reads this
    {
      disk.Length == DISK_BLOCKS
    }

    ghost function Image(): Image
      requires Valid()
      reads this, disk
    {
      disk[..]
    }

    method ReadBlock(b: int) returns (buf: Block)
      requires Valid() && 0 <= b < DISK_BLOCKS
      ensures buf == Image()[b]
    {
      buf := disk[b];
    }

    method WriteBlock(buf: Block, b: int)
      requires Valid() && 0 <= b < DISK_BLOCKS
      modifies disk
      ensures Image() == old(Image())[b := buf]
    {
      disk[b] := buf;
    }

    // First fit over all 4096 bits of the block bitmap.
    method AllocateBlock() returns (block: int)
      requires Valid()
      modifies disk
      ensures block == -1 <==> |Used(old(Image()))| == BITS
      ensures block == -1 ==> Image() == old(Image())
      ensures block != -1 ==>
        && 0 <= block < BITS && block !in Used(old(Image()))
        && (forall i :: 0 <= i < block ==> i in Used(old(Image())))
        && Image() == old(Image())[BLOCK_BITMAP := SetBit(old(Image())[BLOCK_BITMAP], block)]
        && Used(Image()) == Used(old(Image())) + {block}
    {
      var buffer := ReadBlock(BLOCK_BITMAP);
      MarkedSize(buffer);
      var j := 0;
      while j < BITS
        invariant 0 <= j <= BITS
        invariant forall i :: 0 <= i < j ==> Bit(buffer, i)
      {
        if !Bit(buffer, j) {
          SetBitMarks(buffer, j);
          WriteBlock(SetBit(buffer, j), BLOCK_BITMAP);
          return j;
        }
        j := j + 1;
      }
      return -1;
    }

    method SetBlockFree(block: u32)
      requires Valid() && block < BLOCKS_PER_GROUP
      modifies disk
      ensures Image() == old(Image())[BLOCK_BITMAP := Image()[BLOCK_BITMAP]]
      ensures Used(Image()) == Used(old(Image())) - {block}
    {
      var buffer := ReadBlock(BLOCK_BITMAP);
      ClearBitUnmarks(buffer, block);
      WriteBlock(ClearBit(buffer, block), BLOCK_BITMAP);
    }

    // Frees a block and counts it: the two counters wrap at their field widths.
    method DeallocateBlock(block: u32)
      requires Valid() && block < BLOCKS_PER_GROUP
      modifies disk, this`sFreeBlocks, this`bgFreeBlocks
      ensures Image() == old(Image())[BLOCK_BITMAP := Image()[BLOCK_BITMAP]]
      ensures block != 0 ==> Used(Image()) == Used(old(Image())) - {block}
      ensures block == 0 ==> Image() == old(Image())
      ensures sFreeBlocks == (old(sFreeBlocks) + if block == 0 then 0 else 1) % 0x1_0000_0000
      ensures bgFreeBlocks == (old(bgFreeBlocks) + if block == 0 then 0 else 1) % 0x1_0000
    {
      if block == 0 {
        return;
      }
      SetBlockFree(block);
      bgFreeBlocks := (bgFreeBlocks + 1) % 0x1_0000;
      sFreeBlocks := (sFreeBlocks + 1) % 0x1_0000_0000;
    }

    // First fit over the 32 inode bits; 0 means that none is free.
    method AllocateNode() returns (i: int)
      requires Valid()
      modifies disk
      ensures 0 <= i <= INODES_PER_GROUP
      ensures i == 0 ==> forall k :: 1 <= k <= INODES_PER_GROUP ==> InodeUsed(old(Image()), k)
      ensures i == 0 ==> Image() == old(Image())
      ensures i != 0 ==>
        && !InodeUsed(old(Image()), i)
        && (forall k :: 1 <= k < i ==> InodeUsed(old(Image()), k))
        && Image() == old(Image())[INODE_BITMAP := SetBit(old(Image())[INODE_BITMAP], i - 1)]
    {
      var buffer := ReadBlock(INODE_BITMAP);
      var j := 0;
      while j < INODES_PER_GROUP
        invariant 0 <= j <= INODES_PER_GROUP
        invariant forall k :: 1 <= k <= j ==> InodeUsed(old(Image()), k)
      {
        if !Bit(buffer, j) {
          assert !InodeUsed(old(Image()), j + 1);
          WriteBlock(SetBit(buffer, j), INODE_BITMAP);
          return j + 1;
        }
        j := j + 1;
      }
      return 0;
    }

    method ClearInodeUsed(i: int)
      requires Valid() && 1 <= i <= INODES_PER_GROUP
      modifies disk
      ensures Image() == old(Image())[INODE_BITMAP := ClearBit(old(Image())[INODE_BITMAP], i - 1)]
    {
      var buffer := ReadBlock(INODE_BITMAP);
      WriteBlock(ClearBit(buffer, i - 1), INODE_BITMAP);
    }

    method ReadTable() returns (t: seq<byte>)
      requires Valid()
      ensures t == TableBytes(Image())
    {
      var b0: seq<byte> := ReadBlock(INODE_TABLE);
      var b1: seq<byte> := ReadBlock(INODE_TABLE + 1);
      var b2: seq<byte> := ReadBlock(INODE_TABLE + 2);
      var b3: seq<byte> := ReadBlock(INODE_TABLE + 3);
      t := b0 + b1 + b2 + b3 + seq(TABLE_SIZE - PERSISTED, _ => 0);
    }

    method ReadInode(i: int) returns (n: Inode)
      requires Valid() && 1 <= i <= INODES_PER_GROUP
      ensures n == NodeAt(Image(), i)
    {
      var t := ReadTable();
      n := DecodeInode(t[InodeOffset(i)..InodeOffset(i) + INODE_SIZE]);
    }

    // Of the 2240 bytes in memory, the four blocks take the first 2048.
    method WriteTable(t: seq<byte>)
      requires Valid() && |t| == TABLE_SIZE
      modifies disk
      ensures forall b :: 0 <= b < DISK_BLOCKS && !(5 <= b < 9) ==> Image()[b] == old(Image())[b]
      ensures forall k :: 0 <= k < PERSISTED ==> TableBytes(Image())[k] == t[k]
    {
      WriteBlock(t[..512], INODE_TABLE);
      WriteBlock(t[512..1024], INODE_TABLE + 1);
      WriteBlock(t[1024..1536], INODE_TABLE + 2);
      WriteBlock(t[1536..2048], INODE_TABLE + 3);
      TableStored(old(Image()), t, Image());
    }

    method SyncNode(n: Inode, i: int)
      requires Valid() && 1 <= i <= INODES_PER_GROUP
      modifies disk
      ensures NodeWritten(old(Image()), i, n, Image())
    {
      var t := ReadTable();
      var o := InodeOffset(i);
      WriteTable(t[..o] + EncodeInode(n) + t[o + INODE_SIZE..]);
    }
  }
}
