/** Removing a range of logical blocks from a file. */
module Truncation {
  import opened Bytes
  import opened Bitmap
  import opened Layout
  import opened BlockTree
  import opened Growth
  import opened Contents
  import opened Release
  import opened Volume
  import opened FileStore
  import opened Teardown

  predicate InRange(k: int, start: nat, end: nat) { start <= k < end }

  // The single indirect table has lost its last entry to the range.
  ghost predicate Emptied(d: Image, n: Inode, start: nat, end: nat) {
    && (exists i :: 0 <= i < 128 && Ptr(d, n, Single(i)) != 0)
    && (forall i :: 0 <= i < 128 && Ptr(d, n, Single(i)) != 0 ==> InRange(FIRST_SINGLE + i, start, end))
  }

  // The pointer in slot t after logical blocks start .. end - 1 were removed.
  ghost function Trimmed(d: Image, n: Inode, start: nat, end: nat, t: Slot): u32
    requires Valid(t)
  {
    match t
    case Direct(i) =>
      if i < 12 && InRange(i, start, end) then 0
      else if i == SINGLE && Emptied(d, n, start, end) then 0
      else n.block[i]
    case Single(i) => if InRange(FIRST_SINGLE + i, start, end) then 0 else Ptr(d, n, t)
    case _ => Ptr(d, n, t)
  }

  // The blocks freed when logical block end - 1 is removed after start .. end - 2, and all
  // that are freed on the way.
  ghost function DroppedAt(d: Image, n: Inode, start: nat, end: nat): seq<u32>
    requires start < end
  {
    (if Lookup(d, n, end - 1) != 0 then [Lookup(d, n, end - 1)] else [])
    + (if Emptied(d, n, start, end) && !Emptied(d, n, start, end - 1) then [n.block[SINGLE]] else [])
  }

  ghost function Dropped(d: Image, n: Inode, start: nat, end: nat): seq<u32>
    decreases end
  {
    if end <= start then [] else Dropped(d, n, start, end - 1) + DroppedAt(d, n, start, end)
  }

  // (d', n') is (d, n) with the range removed from the pointers; besides the bitmap only
  // the single indirect table was written.
  ghost predicate RangeRemoved(d: Image, n: Inode, start: nat, end: nat, d': Image, n': Inode) {
    && (forall t :: Valid(t) ==> Ptr(d', n', t) == Trimmed(d, n, start, end, t))
    && n'.mode == n.mode && n'.size == n.size && n'.block[14] == n.block[14]
    && OnlyThese(d, n.block[SINGLE], d')
  }

  ghost predicate OnlyThese(d: Image, q: u32, d': Image) {
    forall b :: 0 <= b < DISK_BLOCKS && b != BLOCK_BITMAP && (b == 0 || b != q) ==> d'[b] == d[b]
  }

  // Removing pointers keeps the rest a tree.
  lemma TrimmedTree(d: Image, n: Inode, used: set<int>, start: nat, end: nat, d': Image, n': Inode)
    requires Tree(d, n, used) && RangeRemoved(d, n, start, end, d', n')
    ensures Tree(d', n', used)
  {
    forall t | Valid(t) && Ptr(d', n', t) != 0 ensures Ptr(d', n', t) == Ptr(d, n, t) {
    }
  }

  lemma RemovedNothing(d: Image, n: Inode, start: nat)
    ensures RangeRemoved(d, n, start, start, d, n) && Dropped(d, n, start, start) == []
  {
  }

  // One more logical block that was not mapped, or that the source leaves mapped.
  lemma SameTrim(d: Image, n: Inode, start: nat, l: nat)
    requires start <= l && (l >= FIRST_DOUBLE || Lookup(d, n, l) == 0)
    ensures Emptied(d, n, start, l + 1) <==> Emptied(d, n, start, l)
    ensures forall t :: Valid(t) ==> Trimmed(d, n, start, l + 1, t) == Trimmed(d, n, start, l, t)
  {
    if FIRST_SINGLE <= l < FIRST_DOUBLE {
      assert Ptr(d, n, Single(l - FIRST_SINGLE)) == 0;
    }
    if Emptied(d, n, start, l) {
      EmptiedStays(d, n, start, l);
    }
  }

  lemma EmptiedStays(d: Image, n: Inode, start: nat, l: nat)
    requires Emptied(d, n, start, l)
    ensures Emptied(d, n, start, l + 1)
  {
  }

  // Entry i leaves the single indirect table; with the last entry the table goes too.
  ghost predicate Alone(d: Image, n: Inode, i: nat) {
    forall j :: 0 <= j < 128 && j != i ==> Ptr(d, n, Single(j)) == 0
  }

  ghost predicate EntryRemoved(d: Image, n: Inode, i: nat, d': Image, n': Inode) {
    && (forall t :: Valid(t) ==>
          Ptr(d', n', t) == if t == Single(i) || (t == Direct(SINGLE) && Alone(d, n, i)) then 0 else Ptr(d, n, t))
    && n'.mode == n.mode && n'.size == n.size && n'.blocks == n.blocks && n'.block[14] == n.block[14]
    && OnlyThese(d, n.block[SINGLE], d')
  }

  lemma AloneIsEmptied(d0: Image, n0: Inode, start: nat, l: nat, d: Image, n: Inode)
    requires start <= l && FIRST_SINGLE <= l < FIRST_DOUBLE && Lookup(d0, n0, l) != 0
    requires RangeRemoved(d0, n0, start, l, d, n)
    ensures Alone(d, n, l - FIRST_SINGLE) <==> Emptied(d0, n0, start, l + 1)
    ensures !Emptied(d0, n0, start, l)
  {
    var i := l - FIRST_SINGLE;
    assert Ptr(d0, n0, Single(i)) != 0;
    forall j | 0 <= j < 128 ensures Ptr(d, n, Single(j)) == Trimmed(d0, n0, start, l, Single(j)) {
    }
  }

  lemma SingleStep(d0: Image, n0: Inode, start: nat, l: nat, d: Image, n: Inode, d': Image, n': Inode)
    requires start <= l && FIRST_SINGLE <= l < FIRST_DOUBLE && Lookup(d0, n0, l) != 0
    requires RangeRemoved(d0, n0, start, l, d, n) && EntryRemoved(d, n, l - FIRST_SINGLE, d', n')
    ensures RangeRemoved(d0, n0, start, l + 1, d', n')
    ensures DroppedAt(d0, n0, start, l + 1) ==
            [Lookup(d0, n0, l)] + if Alone(d, n, l - FIRST_SINGLE) then [n.block[SINGLE]] else []
  {
    AloneIsEmptied(d0, n0, start, l, d, n);
    assert Ptr(d, n, Direct(SINGLE)) == Trimmed(d0, n0, start, l, Direct(SINGLE));
    forall t | Valid(t) ensures Ptr(d', n', t) == Trimmed(d0, n0, start, l + 1, t) {
      assert Ptr(d, n, t) == Trimmed(d0, n0, start, l, t);
    }
  }

  lemma DirectStep(d0: Image, n0: Inode, start: nat, l: nat, d: Image, n: Inode, d': Image, n': Inode)
    requires start <= l < FIRST_SINGLE && Lookup(d0, n0, l) != 0
    requires RangeRemoved(d0, n0, start, l, d, n) && SameTables(d, n, d')
    requires OnlyThese(d, 0, d')
    requires n' == Inode(n.mode, n.size, n.blocks, n.block[l := 0])
    ensures RangeRemoved(d0, n0, start, l + 1, d', n')
    ensures DroppedAt(d0, n0, start, l + 1) == [Lookup(d0, n0, l)]
  {
    PtrFrame(d, n, d');
    assert Emptied(d0, n0, start, l + 1) <==> Emptied(d0, n0, start, l);
    forall t | Valid(t) ensures Ptr(d', n', t) == Trimmed(d0, n0, start, l + 1, t) {
      assert Ptr(d, n, t) == Trimmed(d0, n0, start, l, t);
      assert t != Direct(l) ==> Ptr(d', n', t) == Ptr(d', n, t);
    }
  }

  lemma OtherStep(d0: Image, n0: Inode, start: nat, l: nat, d: Image, n: Inode, d': Image)
    requires start <= l && (l >= FIRST_DOUBLE || Lookup(d0, n0, l) == 0)
    requires RangeRemoved(d0, n0, start, l, d, n) && SameTables(d, n, d') && OnlyThese(d, 0, d')
    ensures RangeRemoved(d0, n0, start, l + 1, d', n)
    ensures DroppedAt(d0, n0, start, l + 1) == if Lookup(d0, n0, l) != 0 then [Lookup(d0, n0, l)] else []
  {
    PtrFrame(d, n, d');
    SameTrim(d0, n0, start, l);
    forall t | Valid(t) ensures Ptr(d', n, t) == Trimmed(d0, n0, start, l + 1, t) {
      assert Ptr(d, n, t) == Trimmed(d0, n0, start, l, t);
    }
  }

  method AllEmpty(table: Table) returns (empty: bool)
    ensures empty <==> forall i :: 0 <= i < 128 ==> table[i] == 0
  {
    var i := 0;
    while i < 128
      invariant 0 <= i <= 128
      invariant forall k :: 0 <= k < i ==> table[k] == 0
    {
      if table[i] != 0 {
        return false;
      }
      i := i + 1;
    }
    return true;
  }

  // Clears entry i of the single indirect table, and drops the table when it is empty.
  method RemoveEntry(v: Volume, cell: InodeCell, i: nat, ghost used: set<int>,
                     ghost u: set<int>, ghost s0: u32, ghost g0: u16, ghost done: seq<u32>)
    requires v.Valid() && i < 128 && Tree(v.Image(), cell.node, used) && Tally(v, u, s0, g0, done)
    requires Ptr(v.Image(), cell.node, Single(i)) != 0
    requires Ptr(v.Image(), cell.node, Direct(SINGLE)) < BLOCKS_PER_GROUP
    modifies v.disk, v`sFreeBlocks, v`bgFreeBlocks, cell
    ensures EntryRemoved(old(v.Image()), old(cell.node), i, v.Image(), cell.node)
    ensures Tally(v, u, s0, g0,
      done + if Alone(old(v.Image()), old(cell.node), i) then [old(cell.node).block[SINGLE]] else [])
  {
    hide Bumped, Tree, EntryRemoved, Ptr, Used, OnlyThese;
    ghost var d := v.Image();
    var n := cell.node;
    var q := n.block[SINGLE];
    HoldsSingles(d, n, used, i);
    var b := v.ReadBlock(q);
    var table: Table := DecodeTable(b);
    table := table[i := 0];
    v.WriteBlock(EncodeTable(table), q);
    ghost var d1 := v.Image();
    EntryCleared(d, n, used, i, table, d1);
    TallyStays(d, d1, u);
    var empty := AllEmpty(table);
    if empty {
      CountBlock(v, q, u, s0, g0, done);
      cell.node := Inode(n.mode, n.size, n.blocks, n.block[SINGLE := 0]);
      TableRemoved(d, n, used, i, d1, v.Image(), cell.node);
    } else {
      assert done + [] == done;
    }
  }

  lemma HoldsSingles(d: Image, n: Inode, used: set<int>, i: nat)
    requires Tree(d, n, used) && i < 128 && Ptr(d, n, Single(i)) != 0
    ensures FIRST_FREE_BLOCK <= n.block[SINGLE] < 4096 && Ptr(d, n, Direct(SINGLE)) == n.block[SINGLE]
    ensures forall j :: 0 <= j < 128 ==> DecodeTable(d[n.block[SINGLE]])[j] == Ptr(d, n, Single(j))
  {
    assert Ptr(d, n, Direct(SINGLE)) == n.block[SINGLE];
  }

  // Entry i was cleared in the table that is written back.
  lemma EntryCleared(d: Image, n: Inode, used: set<int>, i: nat, table: Table, d1: Image)
    requires Tree(d, n, used) && i < 128 && Ptr(d, n, Single(i)) != 0 && n.block[SINGLE] < 4096
    requires table == DecodeTable(d[n.block[SINGLE]])[i := 0] && d1 == d[n.block[SINGLE] := EncodeTable(table)]
    ensures forall t :: Valid(t) ==> Ptr(d1, n, t) == if t == Single(i) then 0 else Ptr(d, n, t)
    ensures Tree(d1, n, used) && d1[BLOCK_BITMAP] == d[BLOCK_BITMAP]
    ensures (forall j :: 0 <= j < 128 ==> table[j] == 0) <==> Alone(d, n, i)
    ensures OnlyThese(d, n.block[SINGLE], d1) && (!Alone(d, n, i) ==> EntryRemoved(d, n, i, d1, n))
  {
    HoldsSingles(d, n, used, i);
    LinkData(d, n, used, Single(i), 0, d1);
    assert forall j :: 0 <= j < 128 && j != i ==> table[j] == Ptr(d, n, Single(j));
  }

  lemma TallyStays(d: Image, d1: Image, u: set<int>)
    requires d1[BLOCK_BITMAP] == d[BLOCK_BITMAP]
    ensures Used(d1) == Used(d)
  {
  }

  lemma TableRemoved(d: Image, n: Inode, used: set<int>, i: nat, d1: Image, d2: Image, n': Inode)
    requires i < 128 && Alone(d, n, i) && Tree(d1, n, used) && OnlyThese(d, n.block[SINGLE], d1)
    requires forall t :: Valid(t) ==> Ptr(d1, n, t) == if t == Single(i) then 0 else Ptr(d, n, t)
    requires d2 == d1[BLOCK_BITMAP := d2[BLOCK_BITMAP]]
    requires n' == Inode(n.mode, n.size, n.blocks, n.block[SINGLE := 0])
    ensures EntryRemoved(d, n, i, d2, n')
  {
    hide Ptr, Tree;
    forall j | 0 <= j < 128 ensures Ptr(d1, n, Single(j)) == 0 {
    }
    TableDropped(d1, n, used, d2, n');
  }

  lemma TableDropped(d: Image, n: Inode, used: set<int>, d': Image, n': Inode)
    requires forall j :: 0 <= j < 128 ==> Ptr(d, n, Single(j)) == 0
    requires Tree(d, n, used) && OnlyThese(d, 0, d')
    requires n' == Inode(n.mode, n.size, n.blocks, n.block[SINGLE := 0])
    ensures forall t :: Valid(t) ==> Ptr(d', n', t) == if t == Direct(SINGLE) then 0 else Ptr(d, n, t)
  {
    assert SameTables(d, n, d');
    PtrFrame(d, n, d');
    forall t | Valid(t) ensures Ptr(d', n', t) == if t == Direct(SINGLE) then 0 else Ptr(d, n, t) {
      assert !t.Single? && t != Direct(SINGLE) ==> Ptr(d', n', t) == Ptr(d', n, t);
    }
  }

  /** Removes logical blocks start .. end - 1; the argument of the source is end - 1. */
  method DeallocateLogicalBlockRange(v: Volume, cell: InodeCell, start: nat, end: nat)
    requires v.Valid() && start <= end && Tree(v.Image(), cell.node, Used(v.Image()))
    requires forall t :: Valid(t) ==> Ptr(v.Image(), cell.node, t) < BLOCKS_PER_GROUP
    modifies v.disk, v`sFreeBlocks, v`bgFreeBlocks, cell
    ensures RangeRemoved(old(v.Image()), old(cell.node), start, end, v.Image(), cell.node)
    ensures Tally(v, Used(old(v.Image())), old(v.sFreeBlocks), old(v.bgFreeBlocks),
                  Dropped(old(v.Image()), old(cell.node), start, end))
    ensures cell.node.blocks == Remaining(cell.node, start)
  {
    hide Tree, Tally, RangeRemoved, Remaining;
    ghost var d0, n0 := v.Image(), cell.node;
    ghost var s0, g0 := v.sFreeBlocks, v.bgFreeBlocks;
    RemovedNothing(d0, n0, start);
    NothingTallied(v);
    var l := start;
    while l < end
      invariant start <= l <= end
      invariant RangeRemoved(d0, n0, start, l, v.Image(), cell.node)
      invariant Tally(v, Used(d0), s0, g0, Dropped(d0, n0, start, l))
    {
      RemoveOne(v, cell, l, d0, n0, start, s0, g0);
      l := l + 1;
    }
    var n := cell.node;
    var remaining := CountRemaining(n, start);
    cell.node := Inode(n.mode, n.size, remaining, n.block);
    CountNotRead(d0, n0, start, end, v.Image(), n, cell.node);
  }

  // The block count that the source estimates: the direct pointers that are left, and, when a
  // table is left, all blocks that the size asks for behind the start of the range.
  function Remaining(n: Inode, start: nat): u32 {
    (|Directs(n, 12)| + if TableLeft(n) then BlocksFor(n.size) - start else 0) % 0x1_0000_0000
  }

  predicate TableLeft(n: Inode) { n.block[12] != 0 || n.block[13] != 0 || n.block[14] != 0 }

  method CountRemaining(n: Inode, start: nat) returns (remaining: u32)
    ensures remaining == Remaining(n, start)
  {
    remaining := 0;
    var i := 0;
    while i < 15
      invariant 0 <= i <= 15 && remaining == |Directs(n, if i < 12 then i else 12)| <= 12
      invariant forall k :: 12 <= k < i ==> n.block[k] == 0
    {
      if n.block[i] != 0 {
        if i < 12 {
          DirectsStep(n, i);
          DirectsBound(n, i + 1);
          remaining := remaining + 1;
        } else {
          remaining := (remaining + (BlocksFor(n.size) - start)) % 0x1_0000_0000;
          return;
        }
      } else if i < 12 {
        DirectsStep(n, i);
      }
      i := i + 1;
    }
  }

  lemma {:induction false} DirectsBound(n: Inode, k: nat)
    requires k <= 12
    ensures |Directs(n, k)| <= k
  {
    if k > 0 {
      DirectsBound(n, k - 1);
    }
  }

  lemma CountNotRead(d0: Image, n0: Inode, start: nat, end: nat, d: Image, n: Inode, n': Inode)
    requires RangeRemoved(d0, n0, start, end, d, n) && n' == Inode(n.mode, n.size, n'.blocks, n.block)
    requires n'.blocks == Remaining(n, start)
    ensures RangeRemoved(d0, n0, start, end, d, n') && n'.blocks == Remaining(n', start)
  {
    forall t | Valid(t) ensures Ptr(d, n', t) == Ptr(d, n, t) {
    }
    forall k: nat | k <= 12 ensures Directs(n', k) == Directs(n, k) {
      SameDirects(n, n', k);
    }
  }

  lemma {:induction false} SameDirects(n: Inode, n': Inode, k: nat)
    requires k <= 12 && n'.block == n.block
    ensures Directs(n', k) == Directs(n, k)
  {
    if k > 0 {
      SameDirects(n, n', k - 1);
    }
  }

  lemma NothingTallied(v: Volume)
    requires v.Valid()
    ensures Tally(v, Used(v.Image()), v.sFreeBlocks, v.bgFreeBlocks, [])
  {
  }

  lemma TrimmedAt(d0: Image, n0: Inode, start: nat, l: nat, d: Image, n: Inode)
    requires start <= l && RangeRemoved(d0, n0, start, l, d, n)
    ensures Lookup(d, n, l) == Lookup(d0, n0, l)
  {
    if l < MAX_BLOCKS {
      assert Ptr(d, n, DataSlot(l)) == Trimmed(d0, n0, start, l, DataSlot(l));
    }
  }

  lemma BitmapOnly(d0: Image, n0: Inode, start: nat, l: nat, d: Image, n: Inode, used: set<int>, d1: Image)
    requires RangeRemoved(d0, n0, start, l, d, n) && Tree(d, n, used)
    requires d1 == d[BLOCK_BITMAP := d1[BLOCK_BITMAP]]
    ensures RangeRemoved(d0, n0, start, l, d1, n) && Tree(d1, n, used)
    ensures SameTables(d, n, d1) && OnlyThese(d, 0, d1)
  {
    assert SameTables(d, n, d1);
    PtrFrame(d, n, d1);
  }

  // One round of the loop.
  method RemoveOne(v: Volume, cell: InodeCell, l: nat,
                   ghost d0: Image, ghost n0: Inode, ghost start: nat, ghost s0: u32, ghost g0: u16)
    requires v.Valid() && start <= l && Tree(d0, n0, Used(d0))
    requires forall t :: Valid(t) ==> Ptr(d0, n0, t) < BLOCKS_PER_GROUP
    requires RangeRemoved(d0, n0, start, l, v.Image(), cell.node)
    requires Tally(v, Used(d0), s0, g0, Dropped(d0, n0, start, l))
    modifies v.disk, v`sFreeBlocks, v`bgFreeBlocks, cell
    ensures RangeRemoved(d0, n0, start, l + 1, v.Image(), cell.node)
    ensures Tally(v, Used(d0), s0, g0, Dropped(d0, n0, start, l + 1))
  {
    hide Tally, Tree, RangeRemoved, EntryRemoved, DroppedAt, OnlyThese;
    ghost var d, n := v.Image(), cell.node;
    ghost var done := Dropped(d0, n0, start, l);
    TrimmedTree(d0, n0, Used(d0), start, l, d, n);
    TrimmedAt(d0, n0, start, l, d, n);
    BitmapOnly(d0, n0, start, l, d, n, Used(d0), d);
    assert done + [] == done;
    var p := GetPhysicalBlock(v, cell.node, l, Used(d0));
    if p == 0 {
      OtherStep(d0, n0, start, l, d, n, d);
    } else {
      PointerInRange(d0, n0, l);
      CountBlock(v, p, Used(d0), s0, g0, done);
      BitmapOnly(d0, n0, start, l, d, n, Used(d0), v.Image());
      Unlink(v, cell, l, d0, n0, start, s0, g0, done + [p]);
      assert done + [p] + [] == done + [p];
    }
  }

  lemma PointerInRange(d: Image, n: Inode, l: nat)
    requires Tree(d, n, Used(d)) && forall t :: Valid(t) ==> Ptr(d, n, t) < BLOCKS_PER_GROUP
    requires Lookup(d, n, l) != 0
    ensures FIRST_FREE_BLOCK <= Lookup(d, n, l) < BLOCKS_PER_GROUP
  {
  }

  // The block of l was freed: clear the reference to it.
  method Unlink(v: Volume, cell: InodeCell, l: nat, ghost d0: Image, ghost n0: Inode, ghost start: nat,
                ghost s0: u32, ghost g0: u16, ghost done: seq<u32>)
    requires v.Valid() && start <= l && Tree(d0, n0, Used(d0)) && Lookup(d0, n0, l) != 0
    requires forall t :: Valid(t) ==> Ptr(d0, n0, t) < BLOCKS_PER_GROUP
    requires RangeRemoved(d0, n0, start, l, v.Image(), cell.node)
    requires Tally(v, Used(d0), s0, g0, done)
    requires done == Dropped(d0, n0, start, l) + [Lookup(d0, n0, l)]
    modifies v.disk, v`sFreeBlocks, v`bgFreeBlocks, cell
    ensures RangeRemoved(d0, n0, start, l + 1, v.Image(), cell.node)
    ensures Tally(v, Used(d0), s0, g0, Dropped(d0, n0, start, l + 1))
  {
    hide Tally, Tree, RangeRemoved, EntryRemoved, DroppedAt;
    ghost var d, n := v.Image(), cell.node;
    TrimmedTree(d0, n0, Used(d0), start, l, d, n);
    BitmapOnly(d0, n0, start, l, d, n, Used(d0), d);
    if l < FIRST_SINGLE {
      cell.node := Inode(cell.node.mode, cell.node.size, cell.node.blocks, cell.node.block[l := 0]);
      DirectStep(d0, n0, start, l, d, n, d, cell.node);
    } else if l < FIRST_DOUBLE {
      SingleReady(d0, n0, start, l, d, n);
      RemoveEntry(v, cell, l - FIRST_SINGLE, Used(d0), Used(d0), s0, g0, done);
      SingleStep(d0, n0, start, l, d, n, v.Image(), cell.node);
      assert done + (if Alone(d, n, l - FIRST_SINGLE) then [n.block[SINGLE]] else [])
          == Dropped(d0, n0, start, l) + DroppedAt(d0, n0, start, l + 1);
    } else {
      OtherStep(d0, n0, start, l, d, n, d);
    }
  }

  lemma SingleReady(d0: Image, n0: Inode, start: nat, l: nat, d: Image, n: Inode)
    requires start <= l && FIRST_SINGLE <= l < FIRST_DOUBLE && Lookup(d0, n0, l) != 0
    requires forall t :: Valid(t) ==> Ptr(d0, n0, t) < BLOCKS_PER_GROUP
    requires RangeRemoved(d0, n0, start, l, d, n)
    ensures Ptr(d, n, Single(l - FIRST_SINGLE)) != 0
    ensures Ptr(d, n, Direct(SINGLE)) < BLOCKS_PER_GROUP
  {
    assert Ptr(d, n, Single(l - FIRST_SINGLE)) == Trimmed(d0, n0, start, l, Single(l - FIRST_SINGLE));
    assert Ptr(d, n, Direct(SINGLE)) == Trimmed(d0, n0, start, l, Direct(SINGLE));
    assert Ptr(d0, n0, Direct(SINGLE)) < BLOCKS_PER_GROUP;
  }

  /** Every logical block outside the range keeps its mapping, every one inside that lies
      below the double indirect region loses it, and the indirect table is given up exactly
      when the range took its last entry. */
  lemma TruncatedMapping(d: Image, n: Inode, start: nat, end: nat, d': Image, n': Inode)
    requires start <= end && RangeRemoved(d, n, start, end, d', n')
    ensures forall l :: 0 <= l && !(start <= l < end) ==> Lookup(d', n', l) == Lookup(d, n, l)
    ensures forall l :: start <= l < end && l < FIRST_DOUBLE ==> Lookup(d', n', l) == 0
    ensures n'.block[SINGLE] == if Emptied(d, n, start, end) then 0 else n.block[SINGLE]
  {
    forall l: nat | l < MAX_BLOCKS
      ensures Lookup(d', n', l) == if start <= l < end && l < FIRST_DOUBLE then 0 else Lookup(d, n, l)
    {
      assert Ptr(d', n', DataSlot(l)) == Trimmed(d, n, start, end, DataSlot(l));
    }
    assert Ptr(d', n', Direct(SINGLE)) == Trimmed(d, n, start, end, Direct(SINGLE));
  }

  /** The whole range ends up unmapped exactly when nothing in it was mapped through the
      double indirect table, whose entries the source never clears. */
  lemma TruncatesExactly(d: Image, n: Inode, start: nat, end: nat, d': Image, n': Inode)
    requires start <= end && RangeRemoved(d, n, start, end, d', n')
    ensures (forall l :: start <= l < end ==> Lookup(d', n', l) == 0)
       <==> (forall l :: start <= l < end && FIRST_DOUBLE <= l ==> Lookup(d, n, l) == 0)
  {
    TruncatedMapping(d, n, start, end, d', n');
    forall l: nat | FIRST_DOUBLE <= l < MAX_BLOCKS ensures Lookup(d', n', l) == Lookup(d, n, l) {
      assert Ptr(d', n', DataSlot(l)) == Trimmed(d, n, start, end, DataSlot(l));
    }
  }

  // Logical block l of the range is mapped to x.
  ghost predicate MappedIn(d: Image, n: Inode, start: nat, end: nat, x: int) {
    x != 0 && exists l: nat :: start <= l < end && Lookup(d, n, l) == x
  }

  /** The blocks given back are the mapped blocks of the range, and the indirect table exactly
      when the range took its last entry. */
  lemma {:induction false} DroppedExact(d: Image, n: Inode, start: nat, end: nat, x: int)
    requires start <= end
    ensures x in Dropped(d, n, start, end) <==>
            MappedIn(d, n, start, end, x) || (Emptied(d, n, start, end) && x == n.block[SINGLE])
    decreases end
  {
    hide Emptied, MappedIn, Lookup;
    MappedStep(d, n, start, end, x);
    if start == end {
      EmptiedNothing(d, n, start);
    } else {
      DroppedExact(d, n, start, end - 1, x);
      if Emptied(d, n, start, end - 1) {
        EmptiedStays(d, n, start, end - 1);
      }
    }
  }

  lemma MappedStep(d: Image, n: Inode, start: nat, end: nat, x: int)
    requires start <= end
    ensures MappedIn(d, n, start, end, x) <==>
            start < end && (MappedIn(d, n, start, end - 1, x) || (x != 0 && Lookup(d, n, end - 1) == x))
  {
    hide Lookup;
  }

  /** No block is given back twice, so what is counted is what is freed. */
  lemma {:induction false} DroppedOnce(d: Image, n: Inode, used: set<int>, start: nat, end: nat)
    requires start <= end && Tree(d, n, used)
    ensures NoDup(Dropped(d, n, start, end))
    decreases end
  {
    hide Tree, Emptied, Lookup;
    if start < end {
      DroppedOnce(d, n, used, start, end - 1);
      forall x | x in Dropped(d, n, start, end - 1) ensures x !in DroppedAt(d, n, start, end) {
        NotYetDropped(d, n, used, start, end, x);
      }
      if Lookup(d, n, end - 1) != 0 {
        TableNotData(d, n, used, end - 1);
      }
      NoDupConcat(Dropped(d, n, start, end - 1), DroppedAt(d, n, start, end));
    }
  }

  lemma TableNotData(d: Image, n: Inode, used: set<int>, l: nat)
    requires Tree(d, n, used) && Lookup(d, n, l) != 0
    ensures Lookup(d, n, l) != n.block[SINGLE]
  {
    assert Ptr(d, n, Direct(SINGLE)) == n.block[SINGLE];
  }

  lemma NotYetDropped(d: Image, n: Inode, used: set<int>, start: nat, end: nat, x: u32)
    requires start < end && Tree(d, n, used) && x in Dropped(d, n, start, end - 1)
    ensures x !in DroppedAt(d, n, start, end)
  {
    hide Tree, Emptied, Lookup, Dropped;
    DroppedExact(d, n, start, end - 1, x);
    if Lookup(d, n, end - 1) != 0 {
      TableNotData(d, n, used, end - 1);
    }
    if l: nat :| start <= l < end - 1 && Lookup(d, n, l) == x && x != 0 {
      TableNotData(d, n, used, l);
      MappedApart(d, n, used, l, end - 1);
    }
  }

  lemma MappedApart(d: Image, n: Inode, used: set<int>, k: nat, l: nat)
    requires Tree(d, n, used) && k != l && Lookup(d, n, k) != 0
    ensures Lookup(d, n, k) != Lookup(d, n, l)
  {
    if l < MAX_BLOCKS {
      if DataSlot(k) == DataSlot(l) {
        DataSlotInjective(k, l);
      }
    }
  }

  /** After a stored file of k blocks was cut at `start`, its new block count is the number of blocks
      that are left if and only if no table is left, or the two errors happen to cancel. */
  lemma TruncatedCount(d: Image, n: Inode, k: nat, start: nat, end: nat, d': Image, n': Inode)
    requires FilledTo(d, n, k) && n.block[14] == 0 && BlocksFor(n.size) == k <= MAX_BLOCKS && start <= k <= end
    requires RangeRemoved(d, n, start, end, d', n') && n'.blocks == Remaining(n', start)
    ensures n'.blocks == start <==> if start <= FIRST_SINGLE then k <= FIRST_DOUBLE else k + 12 == 2 * start
  {
    hide RangeRemoved, Remaining, FilledTo;
    CutDirects(d, n, k, start, end, d', n');
    CutTables(d, n, k, start, end, d', n');
    assert Remaining(n', start) == (|Directs(n', 12)| + if TableLeft(n') then k - start else 0) % 0x1_0000_0000 by {
      SizeStays(d, n, start, end, d', n');
    }
  }

  lemma SizeStays(d: Image, n: Inode, start: nat, end: nat, d': Image, n': Inode)
    requires RangeRemoved(d, n, start, end, d', n')
    ensures n'.size == n.size
    ensures Remaining(n', start) ==
            (|Directs(n', 12)| + if TableLeft(n') then BlocksFor(n.size) - start else 0) % 0x1_0000_0000
  {
  }

  lemma CutDirects(d: Image, n: Inode, k: nat, start: nat, end: nat, d': Image, n': Inode)
    requires FilledTo(d, n, k) && start <= k <= end && RangeRemoved(d, n, start, end, d', n')
    ensures |Directs(n', 12)| == if start < 12 then start else 12
  {
    var m := if start < 12 then start else 12;
    forall i | 0 <= i < 12 ensures n'.block[i] != 0 <==> i < m {
      assert Ptr(d', n', Direct(i)) == Trimmed(d, n, start, end, Direct(i));
      assert Ptr(d, n, Direct(i)) != 0 <==> Needed(Direct(i), k);
    }
    DirectsStop(n', m, 12);
    AllDirects(n', m);
  }

  lemma {:induction false} AllDirects(n: Inode, m: nat)
    requires m <= 12 && forall i :: 0 <= i < m ==> n.block[i] != 0
    ensures |Directs(n, m)| == m
  {
    if m > 0 {
      AllDirects(n, m - 1);
    }
  }

  lemma CutTables(d: Image, n: Inode, k: nat, start: nat, end: nat, d': Image, n': Inode)
    requires FilledTo(d, n, k) && n.block[14] == 0 && start <= k <= end && RangeRemoved(d, n, start, end, d', n')
    ensures TableLeft(n') <==> k > FIRST_DOUBLE || start > FIRST_SINGLE
  {
    assert Ptr(d', n', Direct(SINGLE)) == Trimmed(d, n, start, end, Direct(SINGLE));
    assert Ptr(d', n', Direct(DOUBLE)) == Trimmed(d, n, start, end, Direct(DOUBLE));
    assert Ptr(d, n, Direct(SINGLE)) != 0 <==> Needed(Direct(SINGLE), k);
    assert Ptr(d, n, Direct(DOUBLE)) != 0 <==> Needed(Direct(DOUBLE), k);
    assert Ptr(d, n, Single(0)) != 0 <==> Needed(Single(0), k);
    forall i | 0 <= i < 128 && Ptr(d, n, Single(i)) != 0 ensures FIRST_SINGLE + i < k {
      assert Needed(Single(i), k);
    }
  }

  lemma EmptiedNothing(d: Image, n: Inode, start: nat)
    ensures !Emptied(d, n, start, start)
  {
  }

  /** The inode stays sound, pointing only at blocks that are still in use, exactly when nothing
      in the range was mapped through the double indirect table. */
  lemma TruncationSound(d: Image, n: Inode, used: set<int>, start: nat, end: nat, d': Image, n': Inode)
    requires start <= end && Tree(d, n, used) && RangeRemoved(d, n, start, end, d', n')
    ensures Tree(d', n', used - Elems(Dropped(d, n, start, end))) <==>
            forall l :: start <= l < end && FIRST_DOUBLE <= l ==> Lookup(d, n, l) == 0
  {
    hide Emptied, Dropped, Lookup;
    var done := Dropped(d, n, start, end);
    TrimmedTree(d, n, used, start, end, d', n');
    if l: nat :| start <= l < end && FIRST_DOUBLE <= l && Lookup(d, n, l) != 0 {
      DoublyMapped(d, n, start, end, d', n', l);
    } else {
      forall t | Valid(t) && Ptr(d', n', t) != 0 ensures Ptr(d', n', t) !in done {
        LeftPointer(d, n, used, start, end, d', n', t);
      }
      hide RangeRemoved;
    }
  }

  lemma DoublyMapped(d: Image, n: Inode, start: nat, end: nat, d': Image, n': Inode, l: nat)
    requires RangeRemoved(d, n, start, end, d', n')
    requires start <= l < end && FIRST_DOUBLE <= l && Lookup(d, n, l) != 0
    ensures l < MAX_BLOCKS && Ptr(d', n', DataSlot(l)) == Lookup(d, n, l)
    ensures Lookup(d, n, l) in Dropped(d, n, start, end)
  {
    DroppedExact(d, n, start, end, Lookup(d, n, l));
    assert Ptr(d', n', DataSlot(l)) == Trimmed(d, n, start, end, DataSlot(l));
  }

  lemma LeftPointer(d: Image, n: Inode, used: set<int>, start: nat, end: nat, d': Image, n': Inode, t: Slot)
    requires start <= end && Tree(d, n, used) && RangeRemoved(d, n, start, end, d', n')
    requires forall l: nat :: start <= l < end && FIRST_DOUBLE <= l ==> Lookup(d, n, l) == 0
    requires Valid(t) && Ptr(d', n', t) != 0
    ensures Ptr(d', n', t) !in Dropped(d, n, start, end)
  {
    hide Emptied, Dropped;
    var x := Ptr(d', n', t);
    assert x == Trimmed(d, n, start, end, t) == Ptr(d, n, t);
    DroppedExact(d, n, start, end, x);
    forall l: nat | start <= l < end ensures Lookup(d, n, l) != x {
      if l < FIRST_DOUBLE {
        assert t != DataSlot(l);
      }
    }
    assert Emptied(d, n, start, end) ==> t != Direct(SINGLE);
    assert Ptr(d, n, Direct(SINGLE)) == n.block[SINGLE];
  }
}
