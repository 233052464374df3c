/** How the pointer tree grows when blocks are allocated for it. */
module Growth {
  import opened Bytes
  import opened Bitmap
  import opened Layout
  import opened BlockTree

  ghost predicate ReservedUsed(d: Image) {
    forall b :: 0 <= b < FIRST_FREE_BLOCK ==> b in Used(d)
  }

  ghost predicate HoldsTable(d: Image, n: Inode, b: int) {
    b != 0 && exists t :: Valid(t) && IsTable(t) && Ptr(d, n, t) == b
  }

  ghost predicate PointsAt(d: Image, n: Inode, slots: set<Slot>, b: int) {
    exists t :: t in slots && Valid(t) && Ptr(d, n, t) == b
  }

  // Exactly the empty slots in `slots` received a pointer.
  ghost predicate PointersGrown(d0: Image, n0: Inode, slots: set<Slot>, d: Image, n: Inode) {
    && n.mode == n0.mode && n.size == n0.size && n.blocks == n0.blocks && n.block[14] == n0.block[14]
    && (forall t :: t in slots ==> Valid(t) && Ptr(d0, n0, t) == 0 && Ptr(d, n, t) != 0)
    && (forall t :: Valid(t) && t !in slots ==> Ptr(d, n, t) == Ptr(d0, n0, t))
  }

  // The bitmap marks exactly the blocks behind these slots in addition; they were free, and
  // first fit chose none above the number of blocks in use.
  ghost predicate UsedGrown(d0: Image, slots: set<Slot>, d: Image, n: Inode) {
    && (forall t :: t in slots && Valid(t) ==> Ptr(d, n, t) !in Used(d0) && Ptr(d, n, t) < |Used(d)|)
    && Used(d0) <= Used(d) && |Used(d)| == |Used(d0)| + |slots|
    && (forall b :: b in Used(d) && b !in Used(d0) ==> PointsAt(d, n, slots, b))
  }

  // Apart from the bitmap, only pointer tables of n may differ.
  ghost predicate OnlyTables(d0: Image, d: Image, n: Inode) {
    forall b :: 0 <= b < DISK_BLOCKS && b != BLOCK_BITMAP && d[b] != d0[b] ==> HoldsTable(d, n, b)
  }

  // From (d0, n0) to (d, n) the tree grew by exactly the given slots.
  ghost predicate Grown(d0: Image, n0: Inode, slots: set<Slot>, d: Image, n: Inode) {
    && Tree(d, n, Used(d)) && ReservedUsed(d)
    && PointersGrown(d0, n0, slots, d, n)
    && UsedGrown(d0, slots, d, n)
    && OnlyTables(d0, d, n)
    && (slots == {} ==> d == d0 && n == n0)
  }

  lemma GrownNothing(d: Image, n: Inode)
    requires Tree(d, n, Used(d)) && ReservedUsed(d)
    ensures Grown(d, n, {}, d, n)
  {
  }

  lemma GrownTransitive(d0: Image, n0: Inode, a: set<Slot>, d1: Image, n1: Inode, b: set<Slot>, d2: Image, n2: Inode)
    requires Grown(d0, n0, a, d1, n1) && Grown(d1, n1, b, d2, n2)
    ensures Grown(d0, n0, a + b, d2, n2)
  {
    PointersGrownTransitive(d0, n0, a, d1, n1, b, d2, n2);
    UsedGrownTransitive(d0, n0, a, d1, n1, b, d2, n2);
    OnlyTablesTransitive(d0, d1, n1, b, d2, n2);
  }

  lemma OnlyTablesTransitive(d0: Image, d1: Image, n1: Inode, b: set<Slot>, d2: Image, n2: Inode)
    requires OnlyTables(d0, d1, n1) && PointersGrown(d1, n1, b, d2, n2) && OnlyTables(d1, d2, n2)
    ensures OnlyTables(d0, d2, n2)
  {
    forall x | 0 <= x < DISK_BLOCKS && x != BLOCK_BITMAP && d2[x] != d0[x] ensures HoldsTable(d2, n2, x) {
      if d2[x] == d1[x] {
        var t :| Valid(t) && IsTable(t) && Ptr(d1, n1, t) == x;
        assert Ptr(d2, n2, t) == x;
      }
    }
  }

  lemma PointersGrownTransitive(d0: Image, n0: Inode, a: set<Slot>, d1: Image, n1: Inode, b: set<Slot>,
                                d2: Image, n2: Inode)
    requires PointersGrown(d0, n0, a, d1, n1) && PointersGrown(d1, n1, b, d2, n2)
    ensures PointersGrown(d0, n0, a + b, d2, n2) && a !! b
  {
    forall t | t in a ensures t !in b {
      assert Ptr(d1, n1, t) != 0;
    }
  }

  lemma UsedGrownTransitive(d0: Image, n0: Inode, a: set<Slot>, d1: Image, n1: Inode, b: set<Slot>, d2: Image,
                            n2: Inode)
    requires PointersGrown(d0, n0, a, d1, n1) && PointersGrown(d1, n1, b, d2, n2)
    requires UsedGrown(d0, a, d1, n1) && UsedGrown(d1, b, d2, n2)
    ensures UsedGrown(d0, a + b, d2, n2)
  {
    PointersGrownTransitive(d0, n0, a, d1, n1, b, d2, n2);
    assert |a + b| == |a| + |b|;
    forall t | t in a + b && Valid(t) ensures Ptr(d2, n2, t) !in Used(d0) && Ptr(d2, n2, t) < |Used(d2)| {
      assert t !in b ==> Ptr(d2, n2, t) == Ptr(d1, n1, t);
    }
    forall x | x in Used(d2) && x !in Used(d0) ensures PointsAt(d2, n2, a + b, x) {
      if x in Used(d1) {
        assert PointsAt(d1, n1, a, x);
        var t :| t in a && Valid(t) && Ptr(d1, n1, t) == x;
        assert Ptr(d2, n2, t) == x;
      } else {
        assert PointsAt(d2, n2, b, x);
        var t :| t in b && Valid(t) && Ptr(d2, n2, t) == x;
        assert t in a + b;
      }
    }
  }

  // d1 is d after allocate_block returned p.
  ghost predicate Took(d: Image, p: int, d1: Image) {
    && 0 <= p < BITS && p !in Used(d)
    && (forall i :: 0 <= i < p ==> i in Used(d))
    && d1 == d[BLOCK_BITMAP := d1[BLOCK_BITMAP]]
    && Used(d1) == Used(d) + {p}
  }

  // Allocation touches no pointer table, so the tree is still the same.
  lemma TreeAfterTake(d: Image, n: Inode, p: int, d1: Image)
    requires Tree(d, n, Used(d)) && ReservedUsed(d) && Took(d, p, d1)
    ensures FIRST_FREE_BLOCK <= p < |Used(d1)|
    ensures Tree(d1, n, Used(d)) && SameTables(d, n, d1)
    ensures forall t :: Valid(t) ==> Ptr(d1, n, t) == Ptr(d, n, t)
  {
    assert forall i :: 0 <= i < p ==> Bit(d[BLOCK_BITMAP], i);
    FirstFitBound(d[BLOCK_BITMAP], p);
    assert SameTables(d, n, d1);
    PtrFrame(d, n, d1);
  }

  // One block taken and linked at slot s is growth by exactly that slot.
  lemma GrownByLink(d: Image, n: Inode, s: Slot, p: int, d1: Image, d2: Image, n2: Inode)
    requires Valid(s) && Tree(d, n, Used(d)) && ReservedUsed(d) && Took(d, p, d1)
    requires Ptr(d, n, s) == 0 && Linked(d1, n, s, p, d2, n2)
    requires n2.mode == n.mode && n2.size == n.size && n2.blocks == n.blocks && n2.block[14] == n.block[14]
    requires d2[BLOCK_BITMAP] == d1[BLOCK_BITMAP]
    requires forall b :: 0 <= b < DISK_BLOCKS && b != BLOCK_BITMAP && d2[b] != d1[b] ==> HoldsTable(d2, n2, b)
    ensures Grown(d, n, {s}, d2, n2)
  {
    TreeAfterTake(d, n, p, d1);
    TreeAfterLink(d1, n, Used(d), s, p, d2, n2);
    forall b | b in Used(d2) && b !in Used(d) ensures PointsAt(d2, n2, {s}, b) {
      assert s in {s} && Ptr(d2, n2, s) == b;
    }
  }

  // The slots that lie on the way to logical block l, and those of them that are empty.
  function Path(l: nat): (s: set<Slot>)
    requires l < MAX_BLOCKS
    ensures forall t :: t in s ==> Valid(t)
  {
    if l < FIRST_SINGLE then {DataSlot(l)}
    else if l < FIRST_DOUBLE then {Direct(SINGLE), DataSlot(l)}
    else {Direct(DOUBLE), First((l - FIRST_DOUBLE) / 128), DataSlot(l)}
  }

  function Empty(d: Image, n: Inode, slots: set<Slot>): (e: set<Slot>)
    requires forall t :: t in slots ==> Valid(t)
    ensures e <= slots
  {
    set t | t in slots && Ptr(d, n, t) == 0
  }

  // The tree is sound and there are enough free blocks to fill the empty slots among these.
  ghost predicate Growable(d: Image, n: Inode, slots: set<Slot>)
    requires forall t :: t in slots ==> Valid(t)
  {
    Tree(d, n, Used(d)) && ReservedUsed(d) && |Used(d)| + |Empty(d, n, slots)| <= BITS
  }

  lemma OneSlot(d: Image, n: Inode, s: Slot)
    requires Valid(s)
    ensures Empty(d, n, {s}) == if Ptr(d, n, s) == 0 then {s} else {}
    ensures Growable(d, n, {s}) && Ptr(d, n, s) == 0 ==> |Used(d)| < BITS
  {
    var e := Empty(d, n, {s});
    assert Ptr(d, n, s) == 0 ==> s in e && e == {s};
    assert Ptr(d, n, s) != 0 ==> e == {};
  }

  // Growing by the empty slots among a leaves those among b as they were.
  lemma PathStep(d: Image, n: Inode, a: set<Slot>, b: set<Slot>, d': Image, n': Inode)
    requires forall t :: t in a + b ==> Valid(t)
    requires a !! b && Growable(d, n, a + b) && Grown(d, n, Empty(d, n, a), d', n')
    ensures Empty(d, n, a) + Empty(d', n', b) == Empty(d, n, a + b)
    ensures Growable(d', n', b)
    ensures forall t :: t in a ==> Ptr(d', n', t) != 0
  {
    var e, f := Empty(d, n, a), Empty(d', n', b);
    assert f == Empty(d, n, b);
    assert e + f == Empty(d, n, a + b);
    assert |e + f| == |e| + |f|;
  }

  lemma GrowablePart(d: Image, n: Inode, a: set<Slot>, b: set<Slot>)
    requires forall t :: t in a ==> Valid(t)
    requires b <= a && Growable(d, n, a)
    ensures Growable(d, n, b)
  {
    SubsetSize(Empty(d, n, b), Empty(d, n, a));
  }

  // Below an empty slot everything is empty, so a mapped logical block needs nothing new.
  lemma MappedNeedsNothing(d: Image, n: Inode, l: nat)
    requires l < MAX_BLOCKS && Lookup(d, n, l) != 0
    ensures Empty(d, n, Path(l)) == {}
  {
  }
}
