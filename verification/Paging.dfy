/** Physical page frames of 4 MiB, the pool of page directories, and who owns which frame. */
module Paging {
  import opened Bytes
  import opened Bitmap

  const FRAMES := 32
  const DIRECTORIES := 32
  const ENTRIES := 1024
  const KERNEL_SLOT := 768
  const FRAME_SIZE := 0x40_0000

  type u10 = x: int | 0 <= x < 0x400
  type u8 = x: int | 0 <= x < 0x100

  // A directory entry, without the bit fields that are always zero.
  datatype Entry = Entry(present: bool, write: bool, user: bool, large: bool, lower: u10, higher: u8)

  type Table = t: seq<Entry> | |t| == ENTRIES witness seq(1024, _ => Entry(false, false, false, false, 0, 0))

  const EMPTY := Entry(false, false, false, false, 0, 0)
  const KERNEL_ENTRY := Entry(true, true, false, true, 0, 0)
  function Blank(): (t: Table)
    ensures forall s :: 0 <= s < ENTRIES ==> t[s] == EMPTY
  {
    seq(ENTRIES, _ => EMPTY)
  }

  function UserEntry(f: nat): Entry { Entry(true, true, true, true, f % 0x400, f / 0x400 % 0x100) }

  // What freeing a page leaves behind: the page-size bit is not cleared.
  function Vacated(e: Entry): Entry { Entry(false, false, false, e.large, 0, 0) }

  // lower | higher << 10: the two fields share no bit.
  function FrameOf(e: Entry): nat { e.lower + 0x400 * e.higher }

  function SlotOf(address: u32): nat { address / FRAME_SIZE % ENTRIES }

  // A page directory pointer: null, the kernel's own directory, or a member of the pool.
  datatype Pointer = Null | Kernel | Pool(index: nat)

  datatype Memory = Memory(frames: seq<bool>, free: nat, used: seq<bool>, tables: seq<Table>)

  // Directory d maps user slot s.
  predicate Mapped(m: Memory, d: nat, s: nat) {
    d < |m.tables| && s < KERNEL_SLOT && m.tables[d][s].present
  }

  predicate Maps(m: Memory, d: nat, s: nat, f: nat) {
    Mapped(m, d, s) && FrameOf(m.tables[d][s]) == f
  }

  function Unmarked(frames: seq<bool>): set<nat> {
    set f: nat | f < |frames| && !frames[f]
  }

  predicate Shape(m: Memory) {
    |m.frames| == FRAMES && |m.used| == DIRECTORIES && |m.tables| == DIRECTORIES
  }

  // Each frame from 1 on is marked exactly when one user slot of one directory maps it,
  // and the counter is the number of frames that are not marked.
  ghost predicate Owned(m: Memory) {
    && Shape(m) && m.frames[0]
    && (forall d, s, f: nat :: Maps(m, d, s, f) ==> 1 <= f < FRAMES && m.frames[f])
    && (forall d, s, f, d', s' :: Maps(m, d, s, f) && Maps(m, d', s', f) ==> d == d' && s == s')
    && (forall f :: 1 <= f < FRAMES && m.frames[f] ==> exists d, s :: Maps(m, d, s, f))
    && m.free == |Unmarked(m.frames)|
  }

  // A user entry is open to the user when it is present, and shows no frame when it is not.
  predicate Guarded(e: Entry) {
    if e.present then e.write && e.user && e.large else !e.write && !e.user && FrameOf(e) == 0
  }

  // A directory that is not in use is blank, one in use maps the kernel at 3 GiB.
  ghost predicate Pooled(m: Memory) {
    && Shape(m)
    && (forall d, s :: 0 <= d < DIRECTORIES && 0 <= s < KERNEL_SLOT ==> Guarded(m.tables[d][s]))
    && (forall d :: 0 <= d < DIRECTORIES && !m.used[d] ==> m.tables[d] == Blank())
    && (forall d, s :: 0 <= d < DIRECTORIES && m.used[d] && KERNEL_SLOT <= s < ENTRIES ==>
          m.tables[d][s] == if s == KERNEL_SLOT then KERNEL_ENTRY else EMPTY)
  }

  ghost predicate Consistent(m: Memory) {
    Owned(m) && Pooled(m)
  }

  // The four effects on the memory.
  function Assigned(m: Memory, d: nat, s: nat, f: nat): Memory
    requires Shape(m) && d < DIRECTORIES && s < ENTRIES && f < FRAMES && m.free > 0
  {
    Memory(m.frames[f := true], m.free - 1, m.used, m.tables[d := m.tables[d][s := UserEntry(f)]])
  }

  function Dropped(m: Memory, d: nat, s: nat, e: Entry): Memory
    requires Shape(m) && d < DIRECTORIES && s < ENTRIES && FrameOf(m.tables[d][s]) < FRAMES
  {
    Memory(m.frames[FrameOf(m.tables[d][s]) := false], m.free + 1, m.used, m.tables[d := m.tables[d][s := e]])
  }

  function Freed(m: Memory, d: nat, s: nat): Memory
    requires Shape(m) && d < DIRECTORIES && s < ENTRIES && FrameOf(m.tables[d][s]) < FRAMES
  {
    Dropped(m, d, s, Vacated(m.tables[d][s]))
  }

  function Opened(m: Memory, d: nat): Memory
    requires Shape(m) && d < DIRECTORIES
  {
    m.(used := m.used[d := true], tables := m.tables[d := Blank()[KERNEL_SLOT := KERNEL_ENTRY]])
  }

  // Directory d is given back together with every frame that it mapped.
  ghost predicate Closed(m: Memory, d: nat, m': Memory) {
    && Shape(m) && Shape(m') && d < DIRECTORIES
    && m'.used == m.used[d := false]
    && m'.tables == m.tables[d := Blank()]
    && m'.free == |Unmarked(m'.frames)|
    && forall f :: 0 <= f < FRAMES ==> (m'.frames[f] <==> m.frames[f] && !exists s :: Maps(m, d, s, f))
  }

  lemma UserEntryFrame(f: nat)
    requires f < FRAMES
    ensures FrameOf(UserEntry(f)) == f
  {
  }

  lemma AssignedOwned(m: Memory, d: nat, s: nat, f: nat)
    requires Owned(m) && d < DIRECTORIES && s < KERNEL_SLOT && !m.tables[d][s].present
    requires 1 <= f < FRAMES && !m.frames[f]
    ensures m.free > 0 && Owned(Assigned(m, d, s, f)) && Maps(Assigned(m, d, s, f), d, s, f)
  {
    assert f in Unmarked(m.frames);
    var m' := Assigned(m, d, s, f);
    UserEntryFrame(f);
    assert Unmarked(m'.frames) == Unmarked(m.frames) - {f};
    forall x, t, g ensures Maps(m', x, t, g) == if x == d && t == s then g == f else Maps(m, x, t, g) {
    }
    forall g | 1 <= g < FRAMES && m'.frames[g] ensures exists x, t :: Maps(m', x, t, g) {
      if g == f {
        assert Maps(m', d, s, f);
      } else {
        var x, t :| Maps(m, x, t, g);
        assert Maps(m', x, t, g);
      }
    }
  }

  lemma DroppedOwned(m: Memory, d: nat, s: nat, e: Entry)
    requires Owned(m) && Mapped(m, d, s) && !e.present
    ensures 1 <= FrameOf(m.tables[d][s]) < FRAMES && Owned(Dropped(m, d, s, e))
    ensures !Mapped(Dropped(m, d, s, e), d, s)
    ensures forall x, t, g :: Maps(Dropped(m, d, s, e), x, t, g) <==> Maps(m, x, t, g) && !(x == d && t == s)
  {
    var f := FrameOf(m.tables[d][s]);
    assert Maps(m, d, s, f);
    var m' := Dropped(m, d, s, e);
    assert Unmarked(m'.frames) == Unmarked(m.frames) + {f};
    forall x, t, g ensures Maps(m', x, t, g) <==> Maps(m, x, t, g) && !(x == d && t == s) {
    }
    forall g | 1 <= g < FRAMES && m'.frames[g] ensures exists x, t :: Maps(m', x, t, g) {
      var x, t :| Maps(m, x, t, g);
      assert Maps(m', x, t, g);
    }
  }

  // The state of closing directory d before entry j is cleared.
  ghost predicate Closing(m0: Memory, m: Memory, d: nat, j: nat) {
    && Shape(m0) && Owned(m) && d < DIRECTORIES && j <= ENTRIES
    && m.used == m0.used[d := false]
    && m.tables == m0.tables[d := m.tables[d]]
    && (forall t :: 0 <= t < j ==> m.tables[d][t] == EMPTY)
    && (forall t :: j <= t < ENTRIES ==> m.tables[d][t] == m0.tables[d][t])
    && forall f :: 0 <= f < FRAMES ==>
         (m.frames[f] <==> m0.frames[f] && !exists s: nat :: s < j && Maps(m0, d, s, f))
  }

  lemma ClosingStarts(m0: Memory, d: nat)
    requires Owned(m0) && d < DIRECTORIES
    ensures Closing(m0, m0.(used := m0.used[d := false]), d, 0)
  {
    var m := m0.(used := m0.used[d := false]);
    assert forall x, t, f: nat :: Maps(m, x, t, f) <==> Maps(m0, x, t, f);
    assert m.tables == m0.tables[d := m.tables[d]];
  }

  lemma ClosingSteps(m0: Memory, m: Memory, d: nat, j: nat)
    requires Closing(m0, m, d, j) && j < ENTRIES
    ensures Mapped(m, d, j) ==>
      1 <= FrameOf(m.tables[d][j]) < FRAMES && Closing(m0, Dropped(m, d, j, EMPTY), d, j + 1)
    ensures !Mapped(m, d, j) ==>
      Closing(m0, m.(tables := m.tables[d := m.tables[d][j := EMPTY]]), d, j + 1)
  {
    if Mapped(m, d, j) {
      DroppedOwned(m, d, j, EMPTY);
      var m' := Dropped(m, d, j, EMPTY);
      var g := FrameOf(m.tables[d][j]);
      assert Maps(m0, d, j, g);
      forall f | 0 <= f < FRAMES
        ensures m'.frames[f] <==> m0.frames[f] && !exists s: nat :: s < j + 1 && Maps(m0, d, s, f)
      {
        assert (exists s: nat :: s < j + 1 && Maps(m0, d, s, f)) <==>
               f == g || exists s: nat :: s < j && Maps(m0, d, s, f);
      }
    } else {
      var m' := m.(tables := m.tables[d := m.tables[d][j := EMPTY]]);
      assert forall x, t, f: nat :: Maps(m', x, t, f) <==> Maps(m, x, t, f);
    }
  }

  lemma ClosingEnds(m0: Memory, m: Memory, d: nat)
    requires Closing(m0, m, d, ENTRIES) && Pooled(m0)
    ensures Closed(m0, d, m) && Consistent(m)
  {
    assert m.tables[d] == Blank();
  }

  lemma ClosedConsistent(m: Memory, d: nat, m': Memory)
    requires Consistent(m) && Closed(m, d, m')
    ensures Consistent(m')
  {
    assert forall x, t, f: nat :: Maps(m', x, t, f) <==> x != d && Maps(m, x, t, f);
    forall f | 1 <= f < FRAMES && m'.frames[f] ensures exists x, t :: Maps(m', x, t, f) {
      var x, t :| Maps(m, x, t, f);
      assert Maps(m', x, t, f);
    }
  }

  lemma OpenedConsistent(m: Memory, d: nat)
    requires Consistent(m) && d < DIRECTORIES && !m.used[d]
    ensures Consistent(Opened(m, d))
  {
    OpenedOwned(m, d);
    hide Owned;
    OpenedPooled(m, d);
  }

  lemma OpenedOwned(m: Memory, d: nat)
    requires Consistent(m) && d < DIRECTORIES && !m.used[d]
    ensures Owned(Opened(m, d))
  {
    hide FrameOf, Blank, Guarded;
    var m' := Opened(m, d);
    forall x: nat, t: nat, f: nat ensures Maps(m', x, t, f) <==> Maps(m, x, t, f) {
      OpenedEntry(m, d, t);
      BlankEntry(t);
    }
    hide Opened;
  }

  lemma BlankEntry(s: nat)
    ensures s < ENTRIES ==> Blank()[s] == EMPTY
  {
  }

  lemma OpenedEntry(m: Memory, d: nat, s: nat)
    requires Shape(m) && d < DIRECTORIES
    ensures Shape(Opened(m, d)) && OpenedBy(m, d, Opened(m, d))
    ensures s < ENTRIES ==> Opened(m, d).tables[d][s] == if s == KERNEL_SLOT then KERNEL_ENTRY else EMPTY
  {
    BlankEntry(s);
    hide Blank;
  }

  // Apart from the table of d, only its mark may differ.
  predicate OpenedBy(m: Memory, d: nat, m': Memory)
    requires Shape(m) && Shape(m') && d < DIRECTORIES
  {
    && m'.used == m.used[d := true] && m'.frames == m.frames && m'.free == m.free
    && forall x :: 0 <= x < DIRECTORIES && x != d ==> m'.tables[x] == m.tables[x]
  }

  lemma OpenedPooled(m: Memory, d: nat)
    requires Shape(m) && Pooled(m) && d < DIRECTORIES && !m.used[d]
    ensures Pooled(Opened(m, d))
  {
    hide Guarded, Opened, OpenedBy, Pooled;
    OpenedEntry(m, d, ENTRIES);
    forall s: nat | s < ENTRIES
      ensures Opened(m, d).tables[d][s] == if s == KERNEL_SLOT then KERNEL_ENTRY else EMPTY
    {
      OpenedEntry(m, d, s);
    }
    PooledWith(m, d, Opened(m, d));
  }

  lemma EmptyGuarded()
    ensures Guarded(EMPTY)
  {
  }

  lemma PooledWith(m: Memory, d: nat, m': Memory)
    requires Pooled(m) && Shape(m') && d < DIRECTORIES && !m.used[d] && OpenedBy(m, d, m')
    requires forall s: nat :: s < ENTRIES ==> m'.tables[d][s] == if s == KERNEL_SLOT then KERNEL_ENTRY else EMPTY
    ensures Pooled(m')
  {
    hide Guarded, Blank;
    EmptyGuarded();
    forall x, s | 0 <= x < DIRECTORIES && 0 <= s < KERNEL_SLOT ensures Guarded(m'.tables[x][s]) {
      assert Guarded(m.tables[x][s]);
    }
  }

  lemma AssignedConsistent(m: Memory, d: nat, s: nat, f: nat)
    requires Consistent(m) && d < DIRECTORIES && m.used[d] && s < KERNEL_SLOT && !m.tables[d][s].present
    requires 1 <= f < FRAMES && !m.frames[f]
    ensures m.free > 0 && Consistent(Assigned(m, d, s, f))
  {
    hide Owned;
    AssignedOwned(m, d, s, f);
  }

  lemma AllocateConsistent(m: Memory, d: nat, a: u32)
    requires Consistent(m) && d < DIRECTORIES && m.used[d]
    ensures m.free > 0 ==> FirstFree(m.frames, 1) < FRAMES
    ensures Consistent(AfterAllocate(m, d, a))
  {
    assert Shape(m);
    hide Owned, Pooled;
    FreeFrameExists(m);
    if CanAllocate(m, d, a) {
      AssignedConsistent(m, d, SlotOf(a), FirstFree(m.frames, 1));
    }
  }

  lemma FreedConsistent(m: Memory, d: nat, s: nat)
    requires Consistent(m) && Mapped(m, d, s)
    ensures 1 <= FrameOf(m.tables[d][s]) < FRAMES && Consistent(Freed(m, d, s))
  {
    hide Owned;
    DroppedOwned(m, d, s, Vacated(m.tables[d][s]));
  }

  // The least unmarked frame from k on, FRAMES if there is none.
  function FirstFree(frames: seq<bool>, k: nat): (f: nat)
    requires |frames| == FRAMES && k <= FRAMES
    ensures k <= f <= FRAMES
    ensures f < FRAMES ==> !frames[f]
    ensures forall g :: k <= g < f ==> frames[g]
    decreases FRAMES - k
  {
    if k == FRAMES || !frames[k] then k else FirstFree(frames, k + 1)
  }

  // The least directory from k on that is not in use, DIRECTORIES if there is none.
  function FirstUnused(used: seq<bool>, k: nat): (d: nat)
    requires |used| == DIRECTORIES && k <= DIRECTORIES
    ensures k <= d <= DIRECTORIES
    ensures d < DIRECTORIES ==> !used[d]
    ensures forall e :: k <= e < d ==> used[e]
    decreases DIRECTORIES - k
  {
    if k == DIRECTORIES || !used[k] then k else FirstUnused(used, k + 1)
  }

  // When a page can be added, and the memory after trying.
  predicate CanAllocate(m: Memory, d: nat, address: u32)
    requires Shape(m) && d < DIRECTORIES
  {
    SlotOf(address) < KERNEL_SLOT && !m.tables[d][SlotOf(address)].present && m.free > 0
  }

  function AfterAllocate(m: Memory, d: nat, address: u32): Memory
    requires Shape(m) && d < DIRECTORIES && (m.free > 0 ==> FirstFree(m.frames, 1) < FRAMES)
  {
    if CanAllocate(m, d, address) then Assigned(m, d, SlotOf(address), FirstFree(m.frames, 1)) else m
  }

  lemma FreeFrameExists(m: Memory)
    requires Owned(m)
    ensures m.free > 0 <==> FirstFree(m.frames, 1) < FRAMES
  {
    if m.free > 0 {
      assert Unmarked(m.frames) != {};
      var f :| f in Unmarked(m.frames);
      assert 1 <= f;
    } else {
      assert Unmarked(m.frames) == {};
      var f := FirstFree(m.frames, 1);
      assert f < FRAMES ==> f in Unmarked(m.frames);
    }
  }

  // The amount check, in the arithmetic of the 32-bit machine.
  predicate Available(free: nat, amount: u32) {
    (amount + FRAME_SIZE - 1) % 0x1_0000_0000 / FRAME_SIZE <= free
  }

  /** The check answers "are that many bytes free" exactly when the rounding up does not wrap. */
  lemma AvailableExact(free: nat, amount: u32)
    requires free <= FRAMES
    ensures (Available(free, amount) <==> amount <= free * FRAME_SIZE) <==> amount < 0x1_0000_0000 - FRAME_SIZE + 1
  {
    var sum := amount + FRAME_SIZE - 1;
    if sum < 0x1_0000_0000 {
      var q := sum / FRAME_SIZE;
      assert q * FRAME_SIZE <= sum < (q + 1) * FRAME_SIZE;
    }
  }

  lemma InitialCount(frames: seq<bool>)
    requires |frames| == FRAMES && forall f :: 0 <= f < FRAMES ==> frames[f] == (f == 0)
    ensures |Unmarked(frames)| == FRAMES - 1
  {
    AllButFirst(frames, FRAMES);
  }

  lemma AllButFirst(frames: seq<bool>, n: nat)
    requires |frames| == n > 0 && forall f :: 0 <= f < n ==> frames[f] == (f == 0)
    ensures |Unmarked(frames)| == n - 1
  {
    assert Unmarked(frames) == Below(n) - {0};
  }

  // The slots that map a frame below n.
  ghost function SlotsBelow(m: Memory, n: nat): (r: set<(nat, nat)>)
    requires Shape(m)
    ensures forall d: nat, s: nat :: (d, s) in r <==> Mapped(m, d, s) && FrameOf(m.tables[d][s]) < n
  {
    set d: nat, s: nat | d < DIRECTORIES && s < KERNEL_SLOT && Mapped(m, d, s) && FrameOf(m.tables[d][s]) < n :: (d, s)
  }

  // All user slots, in all directories, that are mapped.
  ghost function MappedSlots(m: Memory): set<(nat, nat)>
    requires Shape(m)
  {
    SlotsBelow(m, FRAMES)
  }

  function MarkedBelow(m: Memory, n: nat): set<nat> {
    set f: nat | f < n && f < |m.frames| && m.frames[f]
  }

  lemma SlotsGrow(m: Memory, d: nat, s: nat, f: nat)
    requires Owned(m) && Maps(m, d, s, f)
    ensures |SlotsBelow(m, f + 1)| == |SlotsBelow(m, f)| + 1
  {
    var a, b := SlotsBelow(m, f), SlotsBelow(m, f + 1);
    forall x: nat, t: nat ensures (x, t) in b <==> (x, t) in a || (x, t) == (d, s) {
      assert Mapped(m, x, t) && FrameOf(m.tables[x][t]) == f ==> Maps(m, x, t, f);
    }
    assert b == a + {(d, s)};
  }

  lemma SlotsStay(m: Memory, f: nat)
    requires Owned(m) && forall d: nat, s: nat :: !Maps(m, d, s, f)
    ensures SlotsBelow(m, f + 1) == SlotsBelow(m, f)
  {
    var a, b := SlotsBelow(m, f), SlotsBelow(m, f + 1);
    forall x: nat, t: nat ensures (x, t) in b <==> (x, t) in a {
      assert Mapped(m, x, t) && FrameOf(m.tables[x][t]) == f ==> Maps(m, x, t, f);
    }
  }

  lemma {:induction false} SlotsCounted(m: Memory, n: nat)
    requires Owned(m) && 1 <= n <= FRAMES
    ensures |SlotsBelow(m, n)| + 1 == |MarkedBelow(m, n)|
  {
    hide Mapped, Maps;
    if n == 1 {
      assert MarkedBelow(m, 1) == {0};
      SlotsStay(m, 0);
      assert SlotsBelow(m, 0) == {};
    } else {
      var f := n - 1;
      SlotsCounted(m, f);
      if m.frames[f] {
        var d: nat, s: nat :| Maps(m, d, s, f);
        SlotsGrow(m, d, s, f);
        assert MarkedBelow(m, n) == MarkedBelow(m, f) + {f};
      } else {
        SlotsStay(m, f);
        assert MarkedBelow(m, n) == MarkedBelow(m, f);
      }
    }
  }

  /** Conservation: each of the 31 frames that can be handed out is either counted as free or
      is the frame of one mapped user slot. */
  lemma FramesConserved(m: Memory)
    requires Consistent(m)
    ensures m.free + |MappedSlots(m)| == FRAMES - 1
  {
    SlotsCounted(m, FRAMES);
    MarkedOrNot(m, FRAMES);
  }

  lemma MarkedOrNot(m: Memory, n: nat)
    requires n == |m.frames|
    ensures |Unmarked(m.frames)| + |MarkedBelow(m, n)| == n
  {
    assert Unmarked(m.frames) !! MarkedBelow(m, n);
    assert Unmarked(m.frames) + MarkedBelow(m, n) == Below(n);
  }

  /** The frame map and the counter are a function of the tables: two consistent states with
      the same mappings agree on both. */
  lemma TablesDetermineFrames(m: Memory, m': Memory)
    requires Owned(m) && Owned(m')
    requires forall d, s, f: nat :: Maps(m, d, s, f) <==> Maps(m', d, s, f)
    ensures m.frames == m'.frames && m.free == m'.free
  {
    forall f | 0 <= f < FRAMES ensures m.frames[f] == m'.frames[f] {
      if f > 0 && m.frames[f] {
        var d: nat, s: nat :| Maps(m, d, s, f);
        assert Maps(m', d, s, f);
      }
      if f > 0 && m'.frames[f] {
        var d: nat, s: nat :| Maps(m', d, s, f);
        assert Maps(m, d, s, f);
      }
    }
  }

  class PageManager {
    const frames: array<bool>
    var free: nat
    const used: array<bool>
    const tables: array<Table>
    var cr3: Pointer

    ghost predicate Valid()
      reads this
    {
      frames.Length == FRAMES && used.Length == DIRECTORIES && tables.Length == DIRECTORIES && frames != used
    }

    ghost function View(): Memory
      requires Valid()
      reads this, frames, used, tables
    {
      Memory(frames[..], free, used[..], tables[..])
    }

    // The initial data of the kernel image.
    constructor ()
      ensures Valid() && Consistent(View()) && fresh(frames) && fresh(used) && fresh(tables)
      ensures View().free == 31 && |View().frames| == 32 && |View().used| == 32 && |View().tables| == 32
      ensures forall d :: 0 <= d < DIRECTORIES ==> !View().used[d]
      ensures cr3 == Kernel
    {
      frames := new bool[FRAMES](i => i == 0);
      used := new bool[DIRECTORIES](_ => false);
      tables := new Table[DIRECTORIES](_ => Blank());
      free := FRAMES - 1;
      cr3 := Kernel;
      new;
      InitialCount(frames[..]);
    }

    method AllocateCheck(amount: u32) returns (ok: bool)
      ensures ok == Available(free, amount)
    {
      var required := (amount + FRAME_SIZE - 1) % 0x1_0000_0000 / FRAME_SIZE;
      ok := free >= required;
    }

    /** A frame is handed out exactly when the slot is a vacant user slot and the counter is
        positive; it is the least unmarked frame, never frame 0. */
    method AllocateUserFrame(d: nat, address: u32) returns (ok: bool)
      requires Valid() && Consistent(View()) && d < DIRECTORIES && View().used[d]
      modifies this`free, frames, tables
      ensures Valid() && Consistent(View())
      ensures var m := old(View());
        && (m.free > 0 ==> 1 <= FirstFree(m.frames, 1) < FRAMES)
        && ok == CanAllocate(m, d, address) && View() == AfterAllocate(m, d, address)
      ensures ok <==> address < 0xC000_0000 && old(free) > 0 && !old(View()).tables[d][address / 0x40_0000].present
      ensures ok ==> var e := View().tables[d][SlotOf(address)];
        e.present && e.write && e.user && e.large && FrameOf(e) == FirstFree(old(View()).frames, 1)
    {
      hide Owned, Pooled;
      ghost var m := View();
      FreeFrameExists(m);
      var enough := AllocateCheck(1);
      if !enough { return false; }
      var s := SlotOf(address);
      if s >= KERNEL_SLOT { return false; }
      if tables[d][s].present { return false; }
      var f := 1;
      while f < FRAMES && frames[f]
        invariant 1 <= f <= FRAMES
        invariant FirstFree(frames[..], 1) == FirstFree(frames[..], f)
      {
        f := f + 1;
      }
      if f >= FRAMES { return false; }
      AssignedConsistent(m, d, s, f);
      frames[f] := true;
      free := free - 1;
      tables[d] := tables[d][s := UserEntry(f)];
      return true;
    }

    /** A page is freed exactly when the directory maps that user slot. */
    method FreeUserFrame(p: Pointer, address: u32) returns (ok: bool)
      requires Valid() && Consistent(View()) && (p.Pool? ==> p.index < DIRECTORIES)
      modifies this`free, frames, tables
      ensures Valid() && Consistent(View())
      ensures var m := old(View()); var s := SlotOf(address);
        && (ok <==> p.Pool? && Mapped(m, p.index, s))
        && (ok ==> 1 <= FrameOf(m.tables[p.index][s]) < FRAMES && View() == Freed(m, p.index, s))
        && (!ok ==> View() == m)
      ensures ok ==> var s := SlotOf(address); var e, was := View().tables[p.index][s], old(View()).tables[p.index][s];
        !e.present && !e.write && !e.user && e.large == was.large && FrameOf(e) == 0
    {
      hide Owned, Pooled;
      ghost var m := View();
      // The kernel directory maps only frame 0 in user space, which is never freed.
      if !p.Pool? { return false; }
      var d := p.index;
      var s := SlotOf(address);
      if s >= KERNEL_SLOT { return false; }
      if !tables[d][s].present { return false; }
      FreedConsistent(m, d, s);
      var f := FrameOf(tables[d][s]);
      if f >= FRAMES || f == 0 { return false; }
      frames[f] := false;
      free := free + 1;
      tables[d] := tables[d][s := Vacated(tables[d][s])];
      return true;
    }

    /** The first directory that is not in use is handed out, null when all are in use. */
    method CreateDirectory() returns (p: Pointer)
      requires Valid() && Consistent(View())
      modifies used, tables
      ensures Valid() && Consistent(View())
      ensures var m := old(View()); var d := FirstUnused(m.used, 0);
        if d < DIRECTORIES then p == Pool(d) && View() == Opened(m, d) else p == Null && View() == m
    {
      hide Owned, Pooled;
      ghost var m := View();
      var i := 0;
      while i < DIRECTORIES
        invariant 0 <= i <= DIRECTORIES
        invariant FirstUnused(used[..], 0) == FirstUnused(used[..], i)
        invariant View() == m
      {
        if !used[i] {
          OpenedConsistent(m, i);
          used[i] := true;
          var j := 0;
          while j < ENTRIES
            invariant 0 <= j <= ENTRIES
            invariant forall t :: 0 <= t < j ==> tables[i][t] == EMPTY
            invariant tables[..] == m.tables[i := tables[i]] && used[..] == m.used[i := true]
            invariant frames[..] == m.frames
          {
            tables[i] := tables[i][j := EMPTY];
            j := j + 1;
          }
          assert tables[i] == Blank();
          tables[i] := tables[i][KERNEL_SLOT := KERNEL_ENTRY];
          assert View() == Opened(m, i);
          return Pool(i);
        }
        i := i + 1;
      }
      return Null;
    }

    /** A directory of the pool that is in use is given back with all its frames; nothing
        else is accepted. */
    method FreeDirectory(p: Pointer) returns (ok: bool)
      requires Valid() && Consistent(View()) && (p.Pool? ==> p.index < DIRECTORIES)
      modifies this`free, frames, used, tables
      ensures Valid() && Consistent(View())
      ensures ok <==> p.Pool? && old(View()).used[p.index]
      ensures ok ==> Closed(old(View()), p.index, View())
      ensures !ok ==> View() == old(View())
    {
      hide Owned, Pooled, Closing, Closed;
      ghost var m0 := View();
      if !p.Pool? { return false; }
      var d := p.index;
      if !used[d] { return false; }
      used[d] := false;
      ClosingStarts(m0, d);
      assert View() == m0.(used := m0.used[d := false]);
      var j := 0;
      while j < ENTRIES
        invariant 0 <= j <= ENTRIES && Closing(m0, View(), d, j)
      {
        ghost var m := View();
        ClosingSteps(m0, m, d, j);
        if j < KERNEL_SLOT && tables[d][j].present {
          var f := FrameOf(tables[d][j]);
          if f > 0 && f < FRAMES {
            frames[f] := false;
            free := free + 1;
          }
        }
        tables[d] := tables[d][j := EMPTY];
        assert View() == if Mapped(m, d, j) then Dropped(m, d, j, EMPTY)
                         else m.(tables := m.tables[d := m.tables[d][j := EMPTY]]);
        j := j + 1;
      }
      ClosingEnds(m0, View(), d);
      return true;
    }
  }

  datatype Call =
    | Create
    | Destroy(p: Pointer)
    | Allocate(d: nat, address: u32)
    | Release(p: Pointer, address: u32)

  // Pointers point into the pool, and pages are only added to a directory that is in use.
  predicate Proper(m: Memory, c: Call)
    requires Shape(m)
  {
    match c
    case Create => true
    case Destroy(p) => p.Pool? ==> p.index < DIRECTORIES
    case Allocate(d, _) => d < DIRECTORIES && m.used[d]
    case Release(p, _) => p.Pool? ==> p.index < DIRECTORIES
  }

  // When a call succeeds.
  predicate Succeeds(m: Memory, c: Call)
    requires Shape(m) && Proper(m, c)
  {
    match c
    case Create => FirstUnused(m.used, 0) < DIRECTORIES
    case Destroy(p) => p.Pool? && m.used[p.index]
    case Allocate(d, a) => CanAllocate(m, d, a)
    case Release(p, a) => p.Pool? && Mapped(m, p.index, SlotOf(a))
  }

  // The directory that a successful call works on.
  function Subject(m: Memory, c: Call): (d: nat)
    requires Shape(m) && Proper(m, c) && Succeeds(m, c)
    ensures d < DIRECTORIES
  {
    match c
    case Create => FirstUnused(m.used, 0)
    case Destroy(p) => p.index
    case Allocate(d, _) => d
    case Release(p, _) => p.index
  }

  ghost predicate CallStep(m: Memory, c: Call, ok: bool, m': Memory) {
    && Shape(m) && Proper(m, c)
    && ok == Succeeds(m, c)
    && (!ok ==> m' == m)
    && (ok ==>
          match c
          case Create => m' == Opened(m, Subject(m, c))
          case Destroy(p) => Closed(m, p.index, m')
          case Allocate(d, a) => FirstFree(m.frames, 1) < FRAMES && m' == AfterAllocate(m, d, a)
          case Release(p, a) => FrameOf(m.tables[p.index][SlotOf(a)]) < FRAMES && m' == Freed(m, p.index, SlotOf(a)))
  }

  method Perform(pm: PageManager, c: Call) returns (ok: bool)
    requires pm.Valid() && Consistent(pm.View()) && Proper(pm.View(), c)
    modifies pm`free, pm.frames, pm.used, pm.tables
    ensures pm.Valid() && Consistent(pm.View())
    ensures CallStep(old(pm.View()), c, ok, pm.View())
  {
    hide Owned, Pooled, Closed;
    FreeFrameExists(pm.View());
    match c {
      case Create =>
        var p := pm.CreateDirectory();
        ok := p.Pool?;
      case Destroy(p) => ok := pm.FreeDirectory(p);
      case Allocate(d, a) => ok := pm.AllocateUserFrame(d, a);
      case Release(p, a) => ok := pm.FreeUserFrame(p, a);
    }
  }

  /** One call keeps ownership exact and does not touch the mappings of any other directory. */
  lemma CallKeeps(m: Memory, c: Call, ok: bool, m': Memory)
    requires Consistent(m) && CallStep(m, c, ok, m')
    ensures Consistent(m')
    ensures ok ==> forall d, s, f: nat :: d != Subject(m, c) ==> (Maps(m, d, s, f) <==> Maps(m', d, s, f))
  {
    assert Shape(m);
    hide Owned, Pooled;
    if ok {
      match c
      case Create => OpenedConsistent(m, Subject(m, c));
      case Destroy(p) => ClosedConsistent(m, p.index, m');
      case Allocate(d, a) => AssignedConsistent(m, d, SlotOf(a), FirstFree(m.frames, 1));
      case Release(p, a) => FreedConsistent(m, p.index, SlotOf(a));
    }
  }

  /** Over every run of the four calls every frame is owned exactly as marked. */
  lemma {:induction false} RunConsistent(ms: seq<Memory>, cs: seq<Call>, oks: seq<bool>, k: nat)
    requires |ms| == |cs| + 1 && |oks| == |cs| && k <= |cs| && Consistent(ms[0])
    requires forall i :: 0 <= i < |cs| ==> CallStep(ms[i], cs[i], oks[i], ms[i + 1])
    ensures Consistent(ms[k]) && ms[k].free + |MappedSlots(ms[k])| == FRAMES - 1
  {
    hide Consistent, CallStep;
    if k > 0 {
      RunConsistent(ms, cs, oks, k - 1);
      CallKeeps(ms[k - 1], cs[k - 1], oks[k - 1], ms[k]);
    }
    FramesConserved(ms[k]);
  }

  // What the processor lets a program under directory d touch in user mode.
  ghost predicate UserReaches(m: Memory, d: nat, f: nat) {
    exists s: nat :: d < |m.tables| && s < ENTRIES && Opens(m.tables[d][s], f)
  }

  predicate Opens(e: Entry, f: nat) { e.present && e.user && FrameOf(e) == f }

  /** Protection: in user mode a program reaches exactly the frames that its directory owns, through
      pages it may write, and never frame 0, where the kernel is. */
  lemma UserReachesOwn(m: Memory, d: nat, f: nat)
    requires Consistent(m)
    ensures UserReaches(m, d, f) <==> exists s: nat :: Maps(m, d, s, f)
    ensures UserReaches(m, d, f) ==> 1 <= f < FRAMES && m.frames[f] && m.used[d]
    ensures forall s: nat :: Maps(m, d, s, f) ==> m.tables[d][s].write && m.tables[d][s].large
  {
    hide FrameOf;
    if UserReaches(m, d, f) {
      var s: nat :| s < ENTRIES && Opens(m.tables[d][s], f);
      assert m.used[d] && s < KERNEL_SLOT;
      assert Maps(m, d, s, f);
    }
    if s: nat :| Maps(m, d, s, f) {
      assert Opens(m.tables[d][s], f);
    }
  }

  /** Every directory in use shows the kernel frame 0 at 3 GiB, to the kernel only, in one large
      page that can be written, and nothing behind it. */
  lemma KernelMapped(m: Memory, d: nat, s: nat)
    requires Consistent(m) && d < DIRECTORIES && m.used[d] && 768 <= s < ENTRIES
    ensures var e := m.tables[d][s];
      if s == 768 then e.present && e.write && e.large && !e.user && FrameOf(e) == 0 else !e.present
  {
    hide Owned;
  }

  // The reach of user mode over a run.
  lemma RunProtected(ms: seq<Memory>, cs: seq<Call>, oks: seq<bool>, k: nat, d: nat, f: nat)
    requires |ms| == |cs| + 1 && |oks| == |cs| && k <= |cs| && Consistent(ms[0])
    requires forall i :: 0 <= i < |cs| ==> CallStep(ms[i], cs[i], oks[i], ms[i + 1])
    ensures UserReaches(ms[k], d, f) <==> exists s: nat :: Maps(ms[k], d, s, f)
    ensures !UserReaches(ms[k], d, 0)
  {
    hide Consistent, CallStep, UserReaches, Maps;
    RunConsistent(ms, cs, oks, k);
    UserReachesOwn(ms[k], d, f);
    UserReachesOwn(ms[k], d, 0);
  }

  ghost predicate SoleOwner(m: Memory, d: nat, s: nat, f: nat)
    requires Shape(m)
  {
    Maps(m, d, s, f) && m.used[d] && forall x: nat, t: nat :: Maps(m, x, t, f) ==> x == d && t == s
  }

  /** Exactly one owner: a frame that is marked has one directory and one slot, and that
      directory is in use; a frame that is not marked has none, and nobody ever owns frame 0. */
  lemma ExactlyOneOwner(m: Memory, f: nat)
    requires Consistent(m) && f < FRAMES
    ensures f > 0 && m.frames[f] <==> exists d: nat, s: nat :: SoleOwner(m, d, s, f)
    ensures !m.frames[f] || f == 0 ==> forall x: nat, t: nat :: !Maps(m, x, t, f)
  {
    if f > 0 && m.frames[f] {
      var d: nat, s: nat :| Maps(m, d, s, f);
      assert m.used[d] by {
        assert m.tables[d] != Blank();
      }
      assert SoleOwner(m, d, s, f);
    }
  }
}
