/** Files as block trees on the volume: reading, growing and freeing them. */
module FileStore {
  import opened Bytes
  import opened Bitmap
  import opened Layout
  import opened BlockTree
  import opened Growth
  import opened Volume

  // Table lookup along the path of logical block l.
  method GetPhysicalBlock(v: Volume, n: Inode, l: nat, ghost used: set<int>) returns (p: u32)
    requires v.Valid() && Tree(v.Image(), n, used)
    ensures p == Lookup(v.Image(), n, l)
  {
    if l < FIRST_SINGLE {
      return n.block[l];
    } else if l < FIRST_DOUBLE {
      if n.block[SINGLE] == 0 {
        return 0;
      }
      assert Ptr(v.Image(), n, Direct(SINGLE)) == n.block[SINGLE];
      var b := v.ReadBlock(n.block[SINGLE]);
      var table := DecodeTable(b);
      return table[l - FIRST_SINGLE];
    } else if l < MAX_BLOCKS {
      if n.block[DOUBLE] == 0 {
        return 0;
      }
      assert Ptr(v.Image(), n, Direct(DOUBLE)) == n.block[DOUBLE];
      var b := v.ReadBlock(n.block[DOUBLE]);
      var double := DecodeTable(b);
      var first := (l - FIRST_DOUBLE) / 128;
      if double[first] == 0 {
        return 0;
      }
      assert Ptr(v.Image(), n, First(first)) == double[first];
      b := v.ReadBlock(double[first]);
      var table := DecodeTable(b);
      return table[(l - FIRST_DOUBLE) % 128];
    }
    return 0;
  }

  method TakeBlock(v: Volume, ghost n: Inode) returns (p: u32)
    requires v.Valid() && |Used(v.Image())| < BITS
    requires Tree(v.Image(), n, Used(v.Image())) && ReservedUsed(v.Image())
    modifies v.disk
    ensures Took(old(v.Image()), p, v.Image()) && FIRST_FREE_BLOCK <= p
    ensures Tree(v.Image(), n, Used(old(v.Image())))
    ensures forall t :: Valid(t) ==> Ptr(v.Image(), n, t) == Ptr(old(v.Image()), n, t)
  {
    var b := v.AllocateBlock();
    TreeAfterTake(old(v.Image()), n, b, v.Image());
    p := b;
  }

  // The four steps of allocate_logical_block, one for each kind of slot: an empty slot
  // receives a block, a filled one is left alone.
  method ObtainDirect(v: Volume, cell: InodeCell, i: nat)
    requires v.Valid() && i < 12 && Growable(v.Image(), cell.node, {Direct(i)})
    modifies v.disk, cell
    ensures var d, n := old(v.Image()), old(cell.node); Grown(d, n, Empty(d, n, {Direct(i)}), v.Image(), cell.node)
  {
    ghost var d := v.Image();
    var n := cell.node;
    GrownNothing(d, n);
    OneSlot(d, n, Direct(i));
    if n.block[i] == 0 {
      var p := TakeBlock(v, n);
      cell.node := n.(block := n.block[i := p]);
      LinkDirect(v.Image(), n, i, p, cell.node);
      GrownByLink(d, n, Direct(i), p, v.Image(), v.Image(), cell.node);
    }
  }

  method ObtainRoot(v: Volume, cell: InodeCell, i: nat)
    requires v.Valid() && (i == SINGLE || i == DOUBLE) && Growable(v.Image(), cell.node, {Direct(i)})
    modifies v.disk, cell
    ensures var d, n := old(v.Image()), old(cell.node); Grown(d, n, Empty(d, n, {Direct(i)}), v.Image(), cell.node)
  {
    ghost var d := v.Image();
    var n := cell.node;
    GrownNothing(d, n);
    OneSlot(d, n, Direct(i));
    if n.block[i] == 0 {
      var p := TakeBlock(v, n);
      ghost var d1 := v.Image();
      cell.node := n.(block := n.block[i := p]);
      v.WriteBlock(ZeroBlock(), p);
      LinkRootTable(d1, n, Used(d), i, p, v.Image(), cell.node);
      assert Ptr(v.Image(), cell.node, Direct(i)) == p;
      GrownByLink(d, n, Direct(i), p, d1, v.Image(), cell.node);
    }
  }

  method ObtainInner(v: Volume, cell: InodeCell, i: nat)
    requires v.Valid() && i < 128 && cell.node.block[DOUBLE] != 0 && Growable(v.Image(), cell.node, {First(i)})
    modifies v.disk
    ensures Grown(old(v.Image()), cell.node, Empty(old(v.Image()), cell.node, {First(i)}), v.Image(), cell.node)
  {
    ghost var d := v.Image();
    var n := cell.node;
    var q := n.block[DOUBLE];
    assert Ptr(d, n, Direct(DOUBLE)) == q;
    GrownNothing(d, n);
    OneSlot(d, n, First(i));
    var b := v.ReadBlock(q);
    var double := DecodeTable(b);
    if double[i] == 0 {
      var p := TakeBlock(v, n);
      ghost var d1 := v.Image();
      v.WriteBlock(EncodeTable(double[i := p]), q);
      ghost var d2 := v.Image();
      v.WriteBlock(ZeroBlock(), p);
      assert d1[q] == d[q];
      InnerTableLinked(d, n, i, p, d1, d2, v.Image());
    }
  }

  lemma InnerTableLinked(d: Image, n: Inode, i: nat, p: u32, d1: Image, d2: Image, d3: Image)
    requires i < 128 && n.block[DOUBLE] != 0 && Tree(d, n, Used(d)) && ReservedUsed(d)
    requires Took(d, p, d1) && Ptr(d, n, First(i)) == 0
    requires EntryWritten(d1, n.block[DOUBLE], i, p, d2) && d3 == d2[p := ZeroBlock()]
    ensures Grown(d, n, {First(i)}, d3, n)
  {
    var q := n.block[DOUBLE];
    assert Ptr(d, n, Direct(DOUBLE)) == q;
    TreeAfterTake(d, n, p, d1);
    LinkInnerTable(d1, n, Used(d), i, p, d2, d3);
    assert Ptr(d3, n, First(i)) == p && Ptr(d3, n, Direct(DOUBLE)) == q;
    GrownByLink(d, n, First(i), p, d1, d3, n);
  }

  method ObtainEntry(v: Volume, cell: InodeCell, ghost s: Slot, home: u32, k: nat) returns (p: u32)
    requires v.Valid() && Valid(s) && (s.Single? || s.Second?) && Growable(v.Image(), cell.node, {s})
    requires home == HomeOf(v.Image(), cell.node, s) != 0 && k == IndexOf(s)
    modifies v.disk
    ensures Grown(old(v.Image()), cell.node, Empty(old(v.Image()), cell.node, {s}), v.Image(), cell.node)
    ensures p == Ptr(v.Image(), cell.node, s)
  {
    hide Ptr, HomeOf, Tree, Grown, EncodeTable, DecodeTable;
    ghost var d, n := v.Image(), cell.node;
    EntryHome(d, n, s, home);
    var b := v.ReadBlock(home);
    var table := DecodeTable(b);
    GrownNothing(d, n);
    OneSlot(d, n, s);
    if table[k] == 0 {
      p := TakeBlock(v, n);
      ghost var d1 := v.Image();
      v.WriteBlock(EncodeTable(table[k := p]), home);
      assert d1[home] == d[home];
      EntryLinked(d, n, s, p, home, d1, v.Image());
    } else {
      p := table[k];
    }
  }

  lemma EntryHome(d: Image, n: Inode, s: Slot, home: u32)
    requires Tree(d, n, Used(d)) && Valid(s) && (s.Single? || s.Second?) && home == HomeOf(d, n, s) != 0
    ensures FIRST_FREE_BLOCK <= home < BITS && Ptr(d, n, s) == DecodeTable(d[home])[IndexOf(s)]
  {
    assert Ptr(d, n, ParentOf(s)) == home;
  }

  lemma EntryLinked(d: Image, n: Inode, s: Slot, p: u32, home: u32, d1: Image, d2: Image)
    requires Valid(s) && (s.Single? || s.Second?) && Tree(d, n, Used(d)) && ReservedUsed(d)
    requires Took(d, p, d1) && Ptr(d, n, s) == 0 && home == HomeOf(d, n, s) != 0
    requires EntryWritten(d1, home, IndexOf(s), p, d2)
    ensures Grown(d, n, {s}, d2, n) && Ptr(d2, n, s) == p
  {
    assert Ptr(d, n, ParentOf(s)) == home;
    TreeAfterTake(d, n, p, d1);
    assert HomeOf(d1, n, s) == home by { assert Ptr(d1, n, ParentOf(s)) == home; }
    LinkData(d1, n, Used(d), s, p, d2);
    assert Ptr(d2, n, ParentOf(s)) == home;
    GrownByLink(d, n, s, p, d1, d2, n);
  }

  /** Makes sure logical block l has a physical block and returns it: the empty slots on
      its path are filled, everything else stays; a block that was there already is
      returned without any change. */
  method AllocateLogicalBlock(v: Volume, cell: InodeCell, l: nat) returns (p: u32)
    requires v.Valid()
    requires l < MAX_BLOCKS ==> Growable(v.Image(), cell.node, Path(l))
    modifies v.disk, cell
    ensures l < MAX_BLOCKS ==>
      && Grown(old(v.Image()), old(cell.node), Empty(old(v.Image()), old(cell.node), Path(l)), v.Image(), cell.node)
      && p == Lookup(v.Image(), cell.node, l) != 0
    ensures Lookup(old(v.Image()), old(cell.node), l) != 0 ==>
      v.Image() == old(v.Image()) && cell.node == old(cell.node)
    ensures l >= MAX_BLOCKS ==> p == 0 && v.Image() == old(v.Image()) && cell.node == old(cell.node)
  {
    ghost var d, n := v.Image(), cell.node;
    if l < MAX_BLOCKS && Lookup(d, n, l) != 0 {
      MappedNeedsNothing(d, n, l);
    }
    if l < FIRST_SINGLE {
      ObtainDirect(v, cell, l);
      p := cell.node.block[l];
    } else if l < FIRST_DOUBLE {
      p := AllocateSingle(v, cell, l - FIRST_SINGLE);
    } else if l < MAX_BLOCKS {
      ghost var i, j := (l - FIRST_DOUBLE) / 128, (l - FIRST_DOUBLE) % 128;
      assert Path(l) == {Direct(DOUBLE)} + {First(i), Second(i, j)};
      p := AllocateDouble(v, cell, (l - FIRST_DOUBLE) / 128, (l - FIRST_DOUBLE) % 128, Path(l));
    } else {
      p := 0;
    }
  }

  method AllocateSingle(v: Volume, cell: InodeCell, i: nat) returns (p: u32)
    requires v.Valid() && i < 128 && Growable(v.Image(), cell.node, {Direct(SINGLE), Single(i)})
    modifies v.disk, cell
    ensures Grown(old(v.Image()), old(cell.node),
                  Empty(old(v.Image()), old(cell.node), {Direct(SINGLE), Single(i)}), v.Image(), cell.node)
    ensures p == Ptr(v.Image(), cell.node, Single(i)) != 0
  {
    ghost var d, n := v.Image(), cell.node;
    ghost var root, s := Direct(SINGLE), Single(i);
    assert {root, s} == {root} + {s};
    GrowablePart(d, n, {root, s}, {root});
    ObtainRoot(v, cell, SINGLE);
    ghost var d1, n1 := v.Image(), cell.node;
    PathStep(d, n, {root}, {s}, d1, n1);
    assert Ptr(d1, n1, root) == cell.node.block[SINGLE];
    p := ObtainEntry(v, cell, s, cell.node.block[SINGLE], i);
    GrownTransitive(d, n, Empty(d, n, {root}), d1, n1, Empty(d1, n1, {s}), v.Image(), n1);
  }

  method AllocateDouble(v: Volume, cell: InodeCell, i: nat, j: nat, ghost path: set<Slot>) returns (p: u32)
    requires v.Valid() && i < 128 && j < 128 && path == {Direct(DOUBLE)} + {First(i), Second(i, j)}
    requires Growable(v.Image(), cell.node, path)
    modifies v.disk, cell
    ensures Grown(old(v.Image()), old(cell.node), Empty(old(v.Image()), old(cell.node), path), v.Image(), cell.node)
    ensures p == Ptr(v.Image(), cell.node, Second(i, j)) != 0
  {
    ghost var d, n := v.Image(), cell.node;
    ghost var root, rest := {Direct(DOUBLE)}, {First(i), Second(i, j)};
    hide Grown, Growable, Empty;
    GrowablePart(d, n, path, root);
    ObtainRoot(v, cell, DOUBLE);
    ghost var d1, n1 := v.Image(), cell.node;
    PathStep(d, n, root, rest, d1, n1);
    assert Ptr(d1, n1, Direct(DOUBLE)) == cell.node.block[DOUBLE];
    p := AllocateInner(v, cell, i, j, rest);
    GrownTransitive(d, n, Empty(d, n, root), d1, n1, Empty(d1, n1, rest), v.Image(), n1);
  }

  // After the inner table was obtained, the last step of the path is left.
  lemma InnerReady(d: Image, n: Inode, i: nat, j: nat, d1: Image)
    requires i < 128 && j < 128 && n.block[DOUBLE] != 0 && Growable(d, n, {First(i), Second(i, j)})
    requires Grown(d, n, Empty(d, n, {First(i)}), d1, n)
    ensures Growable(d1, n, {Second(i, j)}) && n.block[DOUBLE] < DISK_BLOCKS
    ensures HomeOf(d1, n, Second(i, j)) == DecodeTable(d1[n.block[DOUBLE]])[i] != 0
  {
    hide Grown, Growable, Empty;
    var a, b := {First(i)}, {Second(i, j)};
    assert a + b == {First(i), Second(i, j)};
    PathStep(d, n, a, b, d1, n);
    InnerHome(d1, n, b, i, j);
    assert First(i) in a;
  }

  lemma InnerDone(d: Image, n: Inode, i: nat, j: nat, d1: Image, d2: Image)
    requires i < 128 && j < 128 && Growable(d, n, {First(i), Second(i, j)})
    requires Grown(d, n, Empty(d, n, {First(i)}), d1, n) && Grown(d1, n, Empty(d1, n, {Second(i, j)}), d2, n)
    ensures Grown(d, n, Empty(d, n, {First(i), Second(i, j)}), d2, n)
  {
    hide Grown, Growable, Empty;
    var a, b := {First(i)}, {Second(i, j)};
    assert a + b == {First(i), Second(i, j)};
    PathStep(d, n, a, b, d1, n);
    GrownTransitive(d, n, Empty(d, n, a), d1, n, Empty(d1, n, b), d2, n);
  }

  // Where the inner table is found that holds Second(i, j).
  lemma InnerHome(d: Image, n: Inode, slots: set<Slot>, i: nat, j: nat)
    requires (forall t :: t in slots ==> Valid(t)) && Growable(d, n, slots)
    requires n.block[DOUBLE] != 0 && i < 128 && j < 128
    ensures n.block[DOUBLE] < DISK_BLOCKS
    ensures HomeOf(d, n, Second(i, j)) == Ptr(d, n, First(i)) == DecodeTable(d[n.block[DOUBLE]])[i]
  {
    assert Ptr(d, n, Direct(DOUBLE)) == n.block[DOUBLE];
  }

  method AllocateInner(v: Volume, cell: InodeCell, i: nat, j: nat, ghost path: set<Slot>) returns (p: u32)
    requires v.Valid() && i < 128 && j < 128 && cell.node.block[DOUBLE] != 0 && path == {First(i), Second(i, j)}
    requires Growable(v.Image(), cell.node, path)
    modifies v.disk
    ensures Grown(old(v.Image()), cell.node, Empty(old(v.Image()), cell.node, path), v.Image(), cell.node)
    ensures p == Ptr(v.Image(), cell.node, Second(i, j)) != 0
  {
    hide Grown, Growable, Empty, Ptr, DecodeTable, HomeOf;
    ghost var d, n := v.Image(), cell.node;
    GrowablePart(d, n, path, {First(i)});
    ObtainInner(v, cell, i);
    ghost var d1 := v.Image();
    InnerReady(d, n, i, j, d1);
    var b := v.ReadBlock(cell.node.block[DOUBLE]);
    var double := DecodeTable(b);
    p := ObtainEntry(v, cell, Second(i, j), double[i], j);
    InnerDone(d, n, i, j, d1, v.Image());
    EntryFilled(d1, n, Second(i, j), v.Image());
  }

  lemma EntryFilled(d: Image, n: Inode, s: Slot, d': Image)
    requires Valid(s) && Grown(d, n, Empty(d, n, {s}), d', n)
    ensures Ptr(d', n, s) != 0
  {
    hide Ptr;
    OneSlot(d, n, s);
  }
}
