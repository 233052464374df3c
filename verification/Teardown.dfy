/** The two teardowns of an inode: nested loops over the tables, and a recursive walk
    that also maintains the free-block counters. */
module Teardown {
  import opened Bytes
  import opened Bitmap
  import opened Layout
  import opened BlockTree
  import opened Growth
  import opened Contents
  import opened Release
  import opened Volume
  import opened Files

  // d' differs from d only in the block bitmap, where the blocks of s are cleared.
  ghost predicate Cleared(d: Image, s: set<int>, d': Image) {
    d' == d[BLOCK_BITMAP := d'[BLOCK_BITMAP]] && Used(d') == Used(d) - s
  }

  // Frees all data blocks of the table in block b, then the table; d is the image in
  // which the list of blocks was taken, and done was freed since.
  method FreeTable(v: Volume, b: u32, ghost d: Image, ghost done: set<int>)
    requires v.Valid() && b != 0 && Cleared(d, done, v.Image()) && Freeable(Under(d, b, 1))
    modifies v.disk
    ensures Cleared(d, done + Elems(Under(d, b, 1)), v.Image())
  {
    hide Entries;
    ghost var t := TableAt(d, b);
    UnderElems(d, b, 1);
    assert b in Elems(Under(d, b, 1));
    var buffer := v.ReadBlock(b);
    var table := DecodeTable(buffer);
    NoEntries(d, t, 1);
    var i := 0;
    while i < 128
      invariant 0 <= i <= 128
      invariant Cleared(d, done + Elems(Entries(d, t, i, 1)), v.Image())
    {
      EntryListed(d, t, 128, 1, i);
      EntriesStep(d, t, i, 1);
      if table[i] != 0 {
        assert Elems(Entry(d, t[i], 1)) == {t[i]};
        assert table[i] in Elems(Entries(d, t, 128, 1));
        v.SetBlockFree(table[i]);
      }
      i := i + 1;
    }
    v.SetBlockFree(b);
  }

  // The same one level up: all tables under the table in block b, then that table.
  method FreeDoubleTable(v: Volume, b: u32, ghost d: Image, ghost done: set<int>)
    requires v.Valid() && b != 0 && Cleared(d, done, v.Image()) && Freeable(Under(d, b, 2))
    modifies v.disk
    ensures Cleared(d, done + Elems(Under(d, b, 2)), v.Image())
  {
    hide Entries, Under;
    ghost var t := TableAt(d, b);
    UnderElems(d, b, 2);
    assert b in Elems(Under(d, b, 2));
    var buffer := v.ReadBlock(b);
    var double := DecodeTable(buffer);
    NoEntries(d, t, 2);
    var i := 0;
    while i < 128
      invariant 0 <= i <= 128
      invariant Cleared(d, done + Elems(Entries(d, t, i, 2)), v.Image())
    {
      EntryListed(d, t, 128, 2, i);
      EntriesStep(d, t, i, 2);
      if double[i] != 0 {
        assert Entry(d, t[i], 2) == Under(d, t[i], 1);
        assert forall x :: x in Under(d, t[i], 1) ==> x in Elems(Entries(d, t, 128, 2));
        FreeTable(v, double[i], d, done + Elems(Entries(d, t, i, 2)));
        assert done + Elems(Entries(d, t, i, 2)) + Elems(Under(d, t[i], 1)) == done + Elems(Entries(d, t, i + 1, 2));
      } else {
        assert Elems(Entry(d, t[i], 2)) == {};
      }
      i := i + 1;
    }
    v.SetBlockFree(b);
  }

  /** Frees everything the inode points at and resets its pointers. */
  method DeallocateNodeBlocks(v: Volume, cell: InodeCell)
    requires v.Valid() && Freeable(Listed(v.Image(), cell.node, Min(12, cell.node.blocks)))
    modifies v.disk, cell
    ensures var d, n := old(v.Image()), old(cell.node); Cleared(d, Elems(Listed(d, n, Min(12, n.blocks))), v.Image())
    ensures cell.node == Inode(old(cell.node).mode, old(cell.node).size, 0, NoPointers())
  {
    hide Entries, Under, Directs;
    ghost var d := v.Image();
    var n := cell.node;
    ghost var m := Min(12, n.blocks);
    ListedElems(d, n, m);
    ghost var all := Elems(Listed(d, n, m));
    FreeDirects(v, n, d);
    ghost var done := Elems(Directs(n, m));
    if n.block[SINGLE] != 0 {
      assert forall x :: x in Under(d, n.block[SINGLE], 1) ==> x in all;
      FreeTable(v, n.block[SINGLE], d, done);
    } else {
      UnderNothing(d, 1);
    }
    done := done + Elems(Under(d, n.block[SINGLE], 1));
    if n.block[DOUBLE] != 0 {
      assert forall x :: x in Under(d, n.block[DOUBLE], 2) ==> x in all;
      FreeDoubleTable(v, n.block[DOUBLE], d, done);
    } else {
      UnderNothing(d, 2);
    }
    cell.node := Inode(n.mode, n.size, 0, NoPointers());
  }

  lemma UnderNothing(d: Image, level: nat)
    ensures Elems(Under(d, 0, level)) == {} && |Under(d, 0, level)| == 0
  {
  }

  method FreeDirects(v: Volume, n: Inode, ghost d: Image)
    requires v.Valid() && v.Image() == d && Freeable(Directs(n, Min(12, n.blocks)))
    modifies v.disk
    ensures Cleared(d, Elems(Directs(n, Min(12, n.blocks))), v.Image())
  {
    var i := 0;
    assert Elems(Directs(n, 0)) == {};
    hide Directs;
    while i < 12 && i < n.blocks
      invariant 0 <= i <= Min(12, n.blocks)
      invariant Cleared(d, Elems(Directs(n, i)), v.Image())
    {
      DirectsStep(n, i);
      if n.block[i] != 0 {
        DirectListed(n, Min(12, n.blocks), i);
        v.SetBlockFree(n.block[i]);
      }
      i := i + 1;
    }
  }

  /** Storing a file and freeing it again leaves the block bitmap as it was, bit for bit. */
  lemma StoreThenFree(d0: Image, d: Image, n: Inode, k: nat, d': Image)
    requires Written(d0, d, n, k)
    requires Cleared(d, Elems(Listed(d, n, Min(12, k))), d')
    ensures d'[BLOCK_BITMAP] == d0[BLOCK_BITMAP]
  {
    StoredListedWhole(d, n, k);
    ReleaseUndoesStore(d0, d, n, k);
    MarkedDetermines(d'[BLOCK_BITMAP], d0[BLOCK_BITMAP]);
  }

  // A counter field after n increments, each wrapping at m.
  function Bumped(c: nat, n: nat, m: nat): (r: nat)
    requires c < m
    ensures r < m
  {
    if n == 0 then c else (Bumped(c, n - 1, m) + 1) % m
  }

  lemma {:induction false} BumpedMore(c: nat, a: nat, b: nat, m: nat)
    requires c < m
    ensures Bumped(Bumped(c, a, m), b, m) == Bumped(c, a + b, m)
  {
    if b > 0 {
      BumpedMore(c, a, b - 1, m);
    }
  }

  lemma NextModulo(x: nat)
    ensures (x % 0x1_0000 + 1) % 0x1_0000 == (x + 1) % 0x1_0000
    ensures (x % 0x1_0000_0000 + 1) % 0x1_0000_0000 == (x + 1) % 0x1_0000_0000
  {
  }

  lemma {:induction false} BumpedIsSum(c: nat, n: nat)
    ensures c < 0x1_0000 ==> Bumped(c, n, 0x1_0000) == (c + n) % 0x1_0000
    ensures c < 0x1_0000_0000 ==> Bumped(c, n, 0x1_0000_0000) == (c + n) % 0x1_0000_0000
  {
    if n > 0 {
      BumpedIsSum(c, n - 1);
      NextModulo(c + n - 1);
    }
  }

  // Since the bitmap marked u and the counters stood at s0 and g0, exactly the blocks of
  // `done` were freed, and each of them was counted.
  ghost predicate Tally(v: Volume, u: set<int>, s0: u32, g0: u16, done: seq<u32>)
    requires v.Valid()
    reads v, v.disk
  {
    && Used(v.Image()) == u - Elems(done)
    && v.sFreeBlocks == Bumped(s0, |done|, 0x1_0000_0000)
    && v.bgFreeBlocks == Bumped(g0, |done|, 0x1_0000)
  }

  // The same, and nothing but the bitmap changed since image d.
  ghost predicate Freed(v: Volume, d: Image, s0: u32, g0: u16, done: seq<u32>)
    requires v.Valid()
    reads v, v.disk
  {
    Cleared(d, Elems(done), v.Image()) && Tally(v, Used(d), s0, g0, done)
  }

  lemma TallyCleared(v: Volume, d: Image, s0: u32, g0: u16, done: seq<u32>)
    requires v.Valid() && Tally(v, Used(d), s0, g0, done)
    requires v.Image() == d[BLOCK_BITMAP := v.Image()[BLOCK_BITMAP]]
    ensures Freed(v, d, s0, g0, done)
  {
  }

  // One block freed and counted.
  method CountBlock(v: Volume, b: u32, ghost u: set<int>, ghost s0: u32, ghost g0: u16, ghost done: seq<u32>)
    requires v.Valid() && Tally(v, u, s0, g0, done) && FIRST_FREE_BLOCK <= b < BLOCKS_PER_GROUP
    modifies v.disk, v`sFreeBlocks, v`bgFreeBlocks
    ensures Tally(v, u, s0, g0, done + [b])
    ensures v.Image() == old(v.Image())[BLOCK_BITMAP := v.Image()[BLOCK_BITMAP]]
  {
    ElemsConcat(done, [b]);
    assert Elems([b]) == {b};
    v.DeallocateBlock(b);
  }

  /** The recursive teardown of one pointer table. */
  method DeallocateIndirectBlock(v: Volume, b: u32, level: nat,
                                 ghost d: Image, ghost s0: u32, ghost g0: u16, ghost done: seq<u32>)
    requires v.Valid() && Freed(v, d, s0, g0, done) && Freeable(Under(d, b, level))
    modifies v.disk, v`sFreeBlocks, v`bgFreeBlocks
    ensures Freed(v, d, s0, g0, done + Under(d, b, level))
    decreases level
  {
    hide Entries, Entry, Bumped;
    if b == 0 {
      assert done + [] == done;
      return;
    }
    ghost var t := TableAt(d, b);
    assert b in Under(d, b, level);
    var buffer := v.ReadBlock(b);
    var table := DecodeTable(buffer);
    NoEntries(d, t, level);
    assert done + Entries(d, t, 0, level) == done;
    var i := 0;
    while i < 128
      invariant 0 <= i <= 128
      invariant Freed(v, d, s0, g0, done + Entries(d, t, i, level))
    {
      EntryListed(d, t, 128, level, i);
      NextEntry(d, t, i, level);
      assert forall x :: x in Entry(d, t[i], level) ==> x in Under(d, b, level);
      assert done + Entries(d, t, i, level) + Entry(d, t[i], level) == done + Entries(d, t, i + 1, level);
      CountEntry(v, table[i], level, d, s0, g0, done + Entries(d, t, i, level));
      i := i + 1;
    }
    assert done + Entries(d, t, 128, level) + [b] == done + Under(d, b, level);
    CountBlock(v, b, Used(d), s0, g0, done + Entries(d, t, 128, level));
  }

  method CountEntry(v: Volume, p: u32, level: nat,
                    ghost d: Image, ghost s0: u32, ghost g0: u16, ghost done: seq<u32>)
    requires v.Valid() && Freed(v, d, s0, g0, done) && Freeable(Entry(d, p, level))
    modifies v.disk, v`sFreeBlocks, v`bgFreeBlocks
    ensures Freed(v, d, s0, g0, done + Entry(d, p, level))
    decreases level, 0
  {
    hide Under, Bumped, Tally;
    if p != 0 {
      assert level <= 1 ==> p in Entry(d, p, level);
      if level > 1 {
        DeallocateIndirectBlock(v, p, level - 1, d, s0, g0, done);
      } else {
        CountBlock(v, p, Used(d), s0, g0, done);
        TallyCleared(v, d, s0, g0, done + [p]);
      }
    } else {
      assert done + [] == done;
    }
  }

  // What the recursive teardown frees: the size decides which tables it visits.
  function Visited(d: Image, b: u32, visit: bool, level: nat): seq<u32> {
    if visit then Under(d, b, level) else []
  }

  function ListedBySize(d: Image, n: Inode): seq<u32> {
    Directs(n, Min(12, BlocksFor(n.size)))
    + Visited(d, n.block[SINGLE], BlocksFor(n.size) > FIRST_SINGLE, 1)
    + Visited(d, n.block[DOUBLE], BlocksFor(n.size) > FIRST_DOUBLE, 2)
    + Visited(d, n.block[14], BlocksFor(n.size) > MAX_BLOCKS, 3)
  }

  lemma FreeableParts(a: seq<u32>, b: seq<u32>)
    requires Freeable(a + b)
    ensures Freeable(a) && Freeable(b)
  {
    assert forall x :: x in a || x in b ==> x in a + b;
  }

  // The pointers it leaves behind.
  predicate PointersReset(n: Inode, p: Pointers) {
    forall i :: 0 <= i < 15 ==>
      p[i] == if i < BlocksFor(n.size)
                 && (i != SINGLE || BlocksFor(n.size) > FIRST_SINGLE)
                 && (i != DOUBLE || BlocksFor(n.size) > FIRST_DOUBLE)
                 && (i != 14 || BlocksFor(n.size) > MAX_BLOCKS)
              then 0 else n.block[i]
  }

  /** Of a stored file it leaves no pointer behind. */
  lemma ResetWhole(d: Image, n: Inode, p: Pointers)
    requires FilledTo(d, n, BlocksFor(n.size)) && BlocksFor(n.size) <= MAX_BLOCKS && n.block[14] == 0
    requires PointersReset(n, p)
    ensures p == NoPointers()
  {
    forall i | 0 <= i < 14 ensures p[i] == 0 {
      assert Ptr(d, n, Direct(i)) == n.block[i];
      assert Ptr(d, n, Direct(i)) != 0 <==> Needed(Direct(i), BlocksFor(n.size));
    }
  }

  method DeallocateInodeBlocks(v: Volume, cell: InodeCell)
    requires v.Valid() && Freeable(ListedBySize(v.Image(), cell.node))
    modifies v.disk, v`sFreeBlocks, v`bgFreeBlocks, cell
    ensures Freed(v, old(v.Image()), old(v.sFreeBlocks), old(v.bgFreeBlocks),
                  ListedBySize(old(v.Image()), old(cell.node)))
    ensures cell.node.mode == old(cell.node).mode && cell.node.size == 0 && cell.node.blocks == 0
    ensures PointersReset(old(cell.node), cell.node.block)
  {
    hide Directs, Visited, Freeable, Freed;
    ghost var d, s0, g0 := v.Image(), v.sFreeBlocks, v.bgFreeBlocks;
    var n := cell.node;
    var total := BlocksFor(n.size);
    ghost var a, b := Directs(n, Min(12, total)), Visited(d, n.block[SINGLE], total > FIRST_SINGLE, 1);
    ghost var c := Visited(d, n.block[DOUBLE], total > FIRST_DOUBLE, 2);
    ghost var e := Visited(d, n.block[14], total > MAX_BLOCKS, 3);
    FreeableParts(a + b + c, e);
    FreeableParts(a + b, c);
    FreeableParts(a, b);
    var p := DeallocateDirects(v, n);
    var q := DeallocateTree(v, n.block[SINGLE], total > FIRST_SINGLE, 1, d, s0, g0, a);
    p := p[SINGLE := q];
    q := DeallocateTree(v, n.block[DOUBLE], total > FIRST_DOUBLE, 2, d, s0, g0, a + b);
    p := p[DOUBLE := q];
    q := DeallocateTree(v, n.block[14], total > MAX_BLOCKS, 3, d, s0, g0, a + b + c);
    p := p[14 := q];
    cell.node := Inode(n.mode, 0, 0, p);
  }

  // One guarded call of the recursive walk; returns the pointer that stays behind.
  method DeallocateTree(v: Volume, b: u32, visit: bool, level: nat,
                        ghost d: Image, ghost s0: u32, ghost g0: u16, ghost done: seq<u32>)
    returns (q: u32)
    requires v.Valid() && Freed(v, d, s0, g0, done) && Freeable(Visited(d, b, visit, level))
    modifies v.disk, v`sFreeBlocks, v`bgFreeBlocks
    ensures Freed(v, d, s0, g0, done + Visited(d, b, visit, level))
    ensures q == if visit then 0 else b
  {
    hide Entries, Bumped, Freed;
    assert done + [] == done;
    q := b;
    if visit && b != 0 {
      DeallocateIndirectBlock(v, b, level, d, s0, g0, done);
      q := 0;
    }
  }

  method DeallocateDirects(v: Volume, n: Inode) returns (p: Pointers)
    requires v.Valid() && Freeable(Directs(n, Min(12, BlocksFor(n.size))))
    modifies v.disk, v`sFreeBlocks, v`bgFreeBlocks
    ensures Freed(v, old(v.Image()), old(v.sFreeBlocks), old(v.bgFreeBlocks), Directs(n, Min(12, BlocksFor(n.size))))
    ensures forall i :: 0 <= i < 15 ==> p[i] == if i < 12 && i < BlocksFor(n.size) then 0 else n.block[i]
  {
    hide Bumped;
    ghost var d, s0, g0 := v.Image(), v.sFreeBlocks, v.bgFreeBlocks;
    var total := BlocksFor(n.size);
    p := n.block;
    var i := 0;
    NothingFreed(v);
    while i < 12 && i < total
      invariant 0 <= i <= Min(12, total)
      invariant Freed(v, d, s0, g0, Directs(n, i))
      invariant forall k :: 0 <= k < 15 ==> p[k] == if k < i then 0 else n.block[k]
    {
      if n.block[i] != 0 {
        DirectListed(n, Min(12, total), i);
        CountBlock(v, n.block[i], Used(d), s0, g0, Directs(n, i));
        p := p[i := 0];
      } else {
        assert Directs(n, i) + [] == Directs(n, i);
      }
      i := i + 1;
    }
  }

  lemma NothingFreed(v: Volume)
    requires v.Valid()
    ensures Freed(v, v.Image(), v.sFreeBlocks, v.bgFreeBlocks, [])
  {
  }

  /** For every stored file both teardowns free the same blocks, in the same order: all
      that the file owns. */
  lemma TeardownsAgree(d0: Image, d: Image, n: Inode)
    requires Written(d0, d, n, BlocksFor(n.size)) && BlocksFor(n.size) <= MAX_BLOCKS
    requires n.blocks == BlocksFor(n.size)
    ensures ListedBySize(d, n) == Listed(d, n, Min(12, n.blocks)) == FreeList(d, n)
    ensures |ListedBySize(d, n)| == BlocksFor(n.size) + Overhead(BlocksFor(n.size))
  {
    var k := BlocksFor(n.size);
    StoredListedWhole(d, n, k);
    ReleaseUndoesStore(d0, d, n, k);
    assert Ptr(d, n, Direct(SINGLE)) == n.block[SINGLE] && Ptr(d, n, Direct(DOUBLE)) == n.block[DOUBLE];
  }
}
