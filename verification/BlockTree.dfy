/** The pointer tree of an inode: 12 direct pointers, one table of 128 pointers, and one
    table of tables. Every place that can hold a pointer is a Slot, so that one address
    space covers data blocks and pointer tables alike. */
module BlockTree {
  import opened Bytes
  import opened Layout

  const SINGLE := 12
  const DOUBLE := 13
  const FIRST_SINGLE := 12
  const FIRST_DOUBLE := 140
  const MAX_BLOCKS := 16524

  datatype Slot =
    | Direct(i: nat)           // i_block[i]
    | Single(i: nat)           // entry i of the table at i_block[12]
    | First(i: nat)            // entry i of the table at i_block[13]
    | Second(i: nat, j: nat)   // entry j of the table at First(i)

  predicate Valid(s: Slot) {
    match s
    case Direct(i) => i < 14
    case Single(i) => i < 128
    case First(i) => i < 128
    case Second(i, j) => i < 128 && j < 128
  }

  // Slots whose pointer leads to a pointer table; all others lead to file data.
  predicate IsTable(s: Slot) {
    s == Direct(SINGLE) || s == Direct(DOUBLE) || s.First?
  }

  // The table stored in block p; block 0 stands for "no table".
  function TableAt(d: Image, p: u32): Table {
    if 0 < p < DISK_BLOCKS then DecodeTable(d[p]) else ZeroTable()
  }

  function Ptr(d: Image, n: Inode, s: Slot): u32
    requires Valid(s)
  {
    match s
    case Direct(i) => n.block[i]
    case Single(i) => TableAt(d, n.block[SINGLE])[i]
    case First(i) => TableAt(d, n.block[DOUBLE])[i]
    case Second(i, j) => TableAt(d, TableAt(d, n.block[DOUBLE])[i])[j]
  }

  // The slot that holds logical block l.
  function DataSlot(l: nat): (s: Slot)
    requires l < MAX_BLOCKS
    ensures Valid(s) && !IsTable(s)
  {
    if l < FIRST_SINGLE then Direct(l)
    else if l < FIRST_DOUBLE then Single(l - FIRST_SINGLE)
    else Second((l - FIRST_DOUBLE) / 128, (l - FIRST_DOUBLE) % 128)
  }

  // Physical block of logical block l, 0 when there is none.
  function Lookup(d: Image, n: Inode, l: nat): u32 {
    if l < MAX_BLOCKS then Ptr(d, n, DataSlot(l)) else 0
  }

  lemma DataSlotInjective(k: nat, l: nat)
    requires k < MAX_BLOCKS && l < MAX_BLOCKS && DataSlot(k) == DataSlot(l)
    ensures k == l
  {
  }

  // No block is reachable twice, and every reachable block is an allocated one that lies
  // behind the reserved blocks.
  ghost predicate Tree(d: Image, n: Inode, used: set<int>) {
    && (forall s :: Valid(s) && Ptr(d, n, s) != 0 ==>
          FIRST_FREE_BLOCK <= Ptr(d, n, s) < 4096 && Ptr(d, n, s) in used)
    && (forall s, t :: Valid(s) && Valid(t) && Ptr(d, n, s) != 0 && Ptr(d, n, s) == Ptr(d, n, t) ==> s == t)
  }

  // d' holds the same pointer tables of n as d.
  ghost predicate SameTables(d: Image, n: Inode, d': Image) {
    forall s :: Valid(s) && IsTable(s) && 0 < Ptr(d, n, s) < DISK_BLOCKS ==>
      d'[Ptr(d, n, s)] == d[Ptr(d, n, s)]
  }

  lemma PtrFrame(d: Image, n: Inode, d': Image)
    requires SameTables(d, n, d')
    ensures forall t :: Valid(t) ==> Ptr(d', n, t) == Ptr(d, n, t)
  {
    forall t | Valid(t) ensures Ptr(d', n, t) == Ptr(d, n, t) {
      assert TableAt(d', Ptr(d, n, Direct(SINGLE))) == TableAt(d, Ptr(d, n, Direct(SINGLE)));
      assert TableAt(d', Ptr(d, n, Direct(DOUBLE))) == TableAt(d, Ptr(d, n, Direct(DOUBLE)));
      if t.Second? {
        assert TableAt(d', Ptr(d, n, First(t.i))) == TableAt(d, Ptr(d, n, First(t.i)));
      }
    }
  }

  // The only pointer that differs between (d, n) and (d', n') is slot s, which now holds p.
  ghost predicate Linked(d: Image, n: Inode, s: Slot, p: u32, d': Image, n': Inode)
    requires Valid(s)
  {
    forall t :: Valid(t) ==> Ptr(d', n', t) == if t == s then p else Ptr(d, n, t)
  }

  lemma TreeAfterLink(d: Image, n: Inode, used: set<int>, s: Slot, p: u32, d': Image, n': Inode)
    requires Valid(s) && Tree(d, n, used) && Linked(d, n, s, p, d', n')
    requires FIRST_FREE_BLOCK <= p < 4096 && p !in used
    ensures Tree(d', n', used + {p})
  {
  }

  // Storing p in a direct data pointer.
  lemma LinkDirect(d: Image, n: Inode, i: nat, p: u32, n': Inode)
    requires i < 12 && n'.block == n.block[i := p]
    ensures Linked(d, n, Direct(i), p, d, n')
  {
  }

  // Hanging a fresh zeroed table under i_block[12] or i_block[13].
  lemma LinkRootTable(d: Image, n: Inode, used: set<int>, i: nat, p: u32, d': Image, n': Inode)
    requires i == SINGLE || i == DOUBLE
    requires Tree(d, n, used) && n.block[i] == 0 && FIRST_FREE_BLOCK <= p < 4096 && p !in used
    requires n'.block == n.block[i := p] && d' == d[p := ZeroBlock()]
    ensures Linked(d, n, Direct(i), p, d', n')
  {
    forall t | Valid(t) ensures Ptr(d', n', t) == if t == Direct(i) then p else Ptr(d, n, t) {
      LinkRootTableAt(d, n, used, i, p, d', n', t);
    }
  }

  lemma LinkRootTableAt(d: Image, n: Inode, used: set<int>, i: nat, p: u32, d': Image, n': Inode, t: Slot)
    requires i == SINGLE || i == DOUBLE
    requires Tree(d, n, used) && n.block[i] == 0 && FIRST_FREE_BLOCK <= p < 4096 && p !in used
    requires n'.block == n.block[i := p] && d' == d[p := ZeroBlock()]
    requires Valid(t)
    ensures Ptr(d', n', t) == if t == Direct(i) then p else Ptr(d, n, t)
  {
    assert Ptr(d, n, Direct(SINGLE)) != p && Ptr(d, n, Direct(DOUBLE)) != p;
    match t
    case Direct(_) =>
    case Single(_) => FreshTable(d, p, d', n'.block[SINGLE]);
    case First(_) => FreshTable(d, p, d', n'.block[DOUBLE]);
    case Second(j, _) =>
      assert Ptr(d, n, First(j)) != p;
      FreshTable(d, p, d', n'.block[DOUBLE]);
      FreshTable(d, p, d', Ptr(d', n', First(j)));
  }

  // A zeroed block reads as an empty table.
  lemma FreshTable(d: Image, p: u32, d': Image, x: u32)
    requires 0 < p < DISK_BLOCKS && d' == d[p := ZeroBlock()]
    ensures TableAt(d', x) == if x == p then ZeroTable() else TableAt(d, x)
  {
    if x == p {
      ZeroBlockIsZeroTable();
    }
  }

  // The block that holds the table which contains slot s, and the position in it.
  function HomeOf(d: Image, n: Inode, s: Slot): u32
    requires Valid(s) && !s.Direct?
  {
    match s
    case Single(_) => n.block[SINGLE]
    case First(_) => n.block[DOUBLE]
    case Second(i, _) => Ptr(d, n, First(i))
  }

  function IndexOf(s: Slot): (k: nat)
    requires Valid(s) && !s.Direct?
    ensures k < 128
  {
    match s
    case Single(i) => i
    case First(i) => i
    case Second(_, j) => j
  }

  // d' is d with entry k of the table in block q set to p.
  ghost predicate EntryWritten(d: Image, q: u32, k: nat, p: u32, d': Image) {
    0 < q < DISK_BLOCKS && k < 128 && d' == d[q := EncodeTable(DecodeTable(d[q])[k := p])]
  }

  lemma TableAfterWrite(d: Image, q: u32, k: nat, p: u32, d': Image, x: u32)
    requires EntryWritten(d, q, k, p, d')
    ensures TableAt(d', x) == if x == q then TableAt(d, q)[k := p] else TableAt(d, x)
  {
    TableRoundTrip(DecodeTable(d[q])[k := p]);
  }

  // Storing p in a data slot of an existing table.
  lemma LinkData(d: Image, n: Inode, used: set<int>, s: Slot, p: u32, d': Image)
    requires Valid(s) && (s.Single? || s.Second?) && Tree(d, n, used) && HomeOf(d, n, s) != 0
    requires EntryWritten(d, HomeOf(d, n, s), IndexOf(s), p, d')
    ensures Linked(d, n, s, p, d', n)
  {
    forall t | Valid(t) ensures Ptr(d', n, t) == if t == s then p else Ptr(d, n, t) {
      LinkDataAt(d, n, used, s, p, d', t);
    }
  }

  lemma LinkDataAt(d: Image, n: Inode, used: set<int>, s: Slot, p: u32, d': Image, t: Slot)
    requires Valid(s) && (s.Single? || s.Second?) && Tree(d, n, used) && HomeOf(d, n, s) != 0
    requires EntryWritten(d, HomeOf(d, n, s), IndexOf(s), p, d')
    requires Valid(t)
    ensures Ptr(d', n, t) == if t == s then p else Ptr(d, n, t)
  {
    var q, k := HomeOf(d, n, s), IndexOf(s);
    TreeHomes(d, n, used, s, Direct(SINGLE));
    TreeHomes(d, n, used, s, Direct(DOUBLE));
    match t
    case Direct(_) =>
    case Single(_) => TableAfterWrite(d, q, k, p, d', n.block[SINGLE]);
    case First(_) => TableAfterWrite(d, q, k, p, d', n.block[DOUBLE]);
    case Second(i, _) =>
      TreeHomes(d, n, used, s, First(i));
      TableAfterWrite(d, q, k, p, d', n.block[DOUBLE]);
      TableAfterWrite(d, q, k, p, d', Ptr(d, n, First(i)));
  }

  // Two different table slots never lead to the same table.
  lemma TreeHomes(d: Image, n: Inode, used: set<int>, s: Slot, t: Slot)
    requires Valid(s) && !s.Direct? && Tree(d, n, used) && HomeOf(d, n, s) != 0
    requires Valid(t) && IsTable(t)
    ensures Ptr(d, n, t) == HomeOf(d, n, s) <==> t == ParentOf(s)
  {
    assert Ptr(d, n, ParentOf(s)) == HomeOf(d, n, s);
  }

  // The table slot whose table contains slot s.
  function ParentOf(s: Slot): (t: Slot)
    requires Valid(s) && !s.Direct?
    ensures Valid(t) && IsTable(t)
  {
    match s
    case Single(_) => Direct(SINGLE)
    case First(_) => Direct(DOUBLE)
    case Second(i, _) => First(i)
  }

  // Hanging a fresh zeroed second-level table under entry i of the table at i_block[13].
  lemma LinkInnerTable(d: Image, n: Inode, used: set<int>, i: nat, p: u32, d1: Image, d': Image)
    requires i < 128 && Tree(d, n, used) && n.block[DOUBLE] != 0
    requires Ptr(d, n, First(i)) == 0 && FIRST_FREE_BLOCK <= p < 4096 && p !in used
    requires EntryWritten(d, n.block[DOUBLE], i, p, d1) && d' == d1[p := ZeroBlock()]
    ensures Linked(d, n, First(i), p, d', n)
  {
    forall t | Valid(t) ensures Ptr(d', n, t) == if t == First(i) then p else Ptr(d, n, t) {
      LinkInnerTableAt(d, n, used, i, p, d1, d', t);
    }
  }

  lemma LinkInnerTableAt(d: Image, n: Inode, used: set<int>, i: nat, p: u32, d1: Image, d': Image, t: Slot)
    requires i < 128 && Tree(d, n, used) && n.block[DOUBLE] != 0
    requires Ptr(d, n, First(i)) == 0 && FIRST_FREE_BLOCK <= p < 4096 && p !in used
    requires EntryWritten(d, n.block[DOUBLE], i, p, d1) && d' == d1[p := ZeroBlock()]
    requires Valid(t)
    ensures Ptr(d', n, t) == if t == First(i) then p else Ptr(d, n, t)
  {
    var q := n.block[DOUBLE];
    TreeHomes(d, n, used, First(i), Direct(SINGLE));
    TreeHomes(d, n, used, First(i), Direct(DOUBLE));
    TableAfterWrite(d, q, i, p, d1, q);
    assert TableAt(d', q) == TableAt(d, q)[i := p];
    match t
    case Direct(_) =>
    case Single(_) => TableAfterWrite(d, q, i, p, d1, n.block[SINGLE]);
    case First(_) =>
    case Second(j, _) =>
      if j == i {
        FreshTable(d1, p, d', p);
      } else {
        TreeHomes(d, n, used, First(i), First(j));
        TableAfterWrite(d, q, i, p, d1, Ptr(d, n, First(j)));
      }
  }
}
