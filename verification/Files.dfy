/** Whole files: storing a buffer block by block, reading it back. */
module Files {
  import opened Bytes
  import opened Bitmap
  import opened Layout
  import opened BlockTree
  import opened Growth
  import opened Contents
  import opened Volume
  import opened FileStore

  function Min(a: nat, b: nat): nat { if a <= b then a else b }

  /** Stores the first i_size bytes of data in a fresh inode. */
  method AllocateNodeBlocks(v: Volume, data: seq<byte>, cell: InodeCell)
    requires v.Valid() && ReservedUsed(v.Image())
    requires cell.node.size <= |data| && forall i :: 0 <= i < 14 ==> cell.node.block[i] == 0
    requires |Used(v.Image())| + BlocksFor(cell.node.size) + Overhead(BlocksFor(cell.node.size)) <= BITS
    modifies v.disk, cell
    ensures cell.node.mode == old(cell.node.mode) && cell.node.size == old(cell.node.size)
    ensures cell.node.blocks == BlocksFor(cell.node.size) && cell.node.block[14] == old(cell.node.block[14])
    ensures Written(old(v.Image()), v.Image(), cell.node, BlocksFor(cell.node.size))
    ensures FileContent(v.Image(), cell.node) == data[..cell.node.size]
  {
    hide Written;
    ghost var d0 := v.Image();
    var needed := Min(BlocksFor(cell.node.size), MAX_BLOCKS);
    cell.node := cell.node.(blocks := needed);
    WrittenNothing(d0, cell.node);
    var l := 0;
    while l < needed
      invariant 0 <= l <= needed
      invariant cell.node.mode == old(cell.node.mode) && cell.node.size == old(cell.node.size)
      invariant cell.node.blocks == needed && cell.node.block[14] == old(cell.node.block[14])
      invariant Written(d0, v.Image(), cell.node, l)
      invariant Stored(v.Image(), cell.node, data, l)
    {
      OverheadMonotone(l + 1, needed);
      StoreBlock(v, data, cell, l, d0);
      l := l + 1;
    }
    StoredReadsBack(v.Image(), cell.node, data);
  }

  // One round of the loop: allocate logical block l and write its part of data.
  method StoreBlock(v: Volume, data: seq<byte>, cell: InodeCell, l: nat, ghost d0: Image)
    requires v.Valid() && l < BlocksFor(cell.node.size) && l < MAX_BLOCKS && ReservedUsed(d0)
    requires cell.node.size <= |data| && |Used(d0)| + l + 1 + Overhead(l + 1) <= BITS
    requires Written(d0, v.Image(), cell.node, l) && Stored(v.Image(), cell.node, data, l)
    modifies v.disk, cell
    ensures cell.node == old(cell.node).(block := cell.node.block)
    ensures cell.node.block[14] == old(cell.node.block[14])
    ensures Written(d0, v.Image(), cell.node, l + 1) && Stored(v.Image(), cell.node, data, l + 1)
  {
    hide Written, FilledTo, Path, UsedGrown, OnlyTables;
    ghost var d, n := v.Image(), cell.node;
    var size := cell.node.size;
    ReadyToGrow(d0, d, n, l);
    var p := AllocateLogicalBlock(v, cell, l);
    ghost var d1 := v.Image();
    var buffer := PaddedBlock(data[512 * l..512 * l + Min(size - 512 * l, BLOCK_SIZE)]);
    v.WriteBlock(buffer, p);
    BlockStored(d0, d, n, data, l, d1, cell.node, v.Image());
  }

  // A zeroed block with s copied to its start.
  function PaddedBlock(s: seq<byte>): (b: Block)
    requires |s| <= BLOCK_SIZE
    ensures forall j :: 0 <= j < BLOCK_SIZE ==> b[j] == if j < |s| then s[j] else 0
  {
    s + seq(BLOCK_SIZE - |s|, _ => 0)
  }

  lemma BlockStored(d0: Image, d: Image, n: Inode, data: seq<byte>, l: nat, d1: Image, n1: Inode, d2: Image)
    requires l < BlocksFor(n.size) && l < MAX_BLOCKS && ReservedUsed(d0) && n.size <= |data|
    requires Written(d0, d, n, l) && Stored(d, n, data, l)
    requires Grown(d, n, Empty(d, n, Path(l)), d1, n1) && Lookup(d1, n1, l) != 0
    requires d2 == d1[Lookup(d1, n1, l) := PaddedBlock(data[512 * l..512 * l + Min(n.size - 512 * l, BLOCK_SIZE)])]
    ensures Written(d0, d2, n1, l + 1) && Stored(d2, n1, data, l + 1)
  {
    hide Written, Stored, Lookup, Path, Tree, UsedGrown, OnlyTables, PaddedBlock, Chunk;
    var buffer := PaddedBlock(data[512 * l..512 * l + Min(n.size - 512 * l, BLOCK_SIZE)]);
    assert buffer == Chunk(data, n.size, l) by { PaddedChunk(data, n.size, l); }
    WrittenGrows(d0, d, n, l, d1, n1);
    WrittenData(d0, d1, n1, l + 1, l, buffer, d2);
    StoredGrows(d0, d, n, data, l, Empty(d, n, Path(l)), d1, n1, d2);
  }

  lemma PaddedChunk(data: seq<byte>, size: nat, l: nat)
    requires l < BlocksFor(size) && size <= |data|
    ensures 512 * l <= size
    ensures PaddedBlock(data[512 * l..512 * l + Min(size - 512 * l, BLOCK_SIZE)]) == Chunk(data, size, l)
  {
  }

  lemma OverheadMonotone(k: nat, n: nat)
    requires k <= n
    ensures Overhead(k) <= Overhead(n)
  {
  }

  lemma StoredGrows(d0: Image, d: Image, n: Inode, data: seq<byte>, l: nat, slots: set<Slot>, d1: Image,
                    n1: Inode, d2: Image)
    requires l < MAX_BLOCKS && n.size == n1.size <= |data| && Written(d0, d, n, l)
    requires Stored(d, n, data, l) && Grown(d, n, slots, d1, n1) && Lookup(d1, n1, l) != 0
    requires d2 == d1[Lookup(d1, n1, l) := Chunk(data, n.size, l)]
    ensures Stored(d2, n1, data, l + 1)
  {
    DataWrite(d1, n1, l, Chunk(data, n.size, l), d2);
    forall k | 0 <= k < l ensures BlockAt(d2, Lookup(d2, n1, k)) == Chunk(data, n1.size, k) {
      NeededData(k, l);
      GrowthKeepsData(d, n, slots, d1, n1, k);
    }
  }

  /** Reads min(size, i_size) bytes of a file into the caller's buffer. */
  method ReadInodeData(v: Volume, n: Inode, out: array<byte>, size: u32)
    requires v.Valid() && Tree(v.Image(), n, Used(v.Image()))
    requires Min(size, n.size) <= out.Length
    modifies out
    ensures out[..Min(size, n.size)] == FileContent(v.Image(), n)[..Min(size, n.size)]
    ensures forall k :: Min(size, n.size) <= k < out.Length ==> out[k] == old(out[k])
  {
    hide Tree, FileByte;
    var read, l := 0, 0;
    var total := BlocksFor(n.size);
    while read < size && l < total
      invariant 0 <= l <= total
      invariant read == Min(512 * l, Min(size, n.size))
      invariant forall k :: 0 <= k < read ==> out[k] == FileByte(v.Image(), n, k)
      invariant forall k :: read <= k < out.Length ==> out[k] == old(out[k])
    {
      var count := Min(Min(size - read, BLOCK_SIZE), n.size - read);
      CopyBlock(v, n, l, out, read, count);
      read := read + count;
      l := l + 1;
    }
  }

  // One round of the loop: a mapped block is copied, an unmapped one reads as zeros.
  method CopyBlock(v: Volume, n: Inode, l: nat, out: array<byte>, at: nat, count: nat)
    requires v.Valid() && Tree(v.Image(), n, Used(v.Image()))
    requires at == 512 * l && count <= BLOCK_SIZE && at + count <= n.size && at + count <= out.Length
    modifies out
    ensures forall k :: 0 <= k < out.Length ==>
      out[k] == if at <= k < at + count then FileByte(v.Image(), n, k) else old(out[k])
  {
    hide FileByte, Lookup, Tree;
    var block: Block := ZeroBlock();
    var p := GetPhysicalBlock(v, n, l, Used(v.Image()));
    if p != 0 {
      MappedInside(v.Image(), n, l);
      block := v.ReadBlock(p);
    }
    assert block == BlockAt(v.Image(), Lookup(v.Image(), n, l));
    InBlock(v.Image(), n, l, block);
    CopyInto(out, at, block[..count]);
  }

  lemma MappedInside(d: Image, n: Inode, l: nat)
    requires Tree(d, n, Used(d)) && Lookup(d, n, l) != 0
    ensures 0 < Lookup(d, n, l) < DISK_BLOCKS
  {
    assert Ptr(d, n, DataSlot(l)) == Lookup(d, n, l);
  }

  lemma InBlock(d: Image, n: Inode, l: nat, block: Block)
    requires block == BlockAt(d, Lookup(d, n, l))
    ensures forall k :: 512 * l <= k < 512 * l + 512 ==> FileByte(d, n, k) == block[k - 512 * l]
  {
    forall k | 512 * l <= k < 512 * l + 512 ensures FileByte(d, n, k) == block[k - 512 * l] {
      assert k / 512 == l && k % 512 == k - 512 * l;
    }
  }

  // memcpy into the output buffer.
  method CopyInto(out: array<byte>, at: nat, s: seq<byte>)
    requires at + |s| <= out.Length
    modifies out
    ensures forall k :: at <= k < at + |s| ==> out[k] == s[k - at]
    ensures forall k :: 0 <= k < out.Length && !(at <= k < at + |s|) ==> out[k] == old(out[k])
  {
    var i := 0;
    while i < |s|
      invariant 0 <= i <= |s|
      invariant forall k :: at <= k < at + i ==> out[k] == s[k - at]
      invariant forall k :: 0 <= k < out.Length && !(at <= k < at + i) ==> out[k] == old(out[k])
    {
      out[at + i] := s[i];
      i := i + 1;
    }
  }
}
