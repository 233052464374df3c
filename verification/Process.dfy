/** The process table: process creation and destruction on top of the page manager. */
module Process {
  import opened Bytes
  import opened Bitmap
  import opened Paging

  const PROCESSES := 16
  const PAGES_MAX := 8
  const KERNEL_BASE := 0xC000_0000

  datatype State = READY | RUNNING | BLOCKED

  type Addresses = s: seq<u32> | |s| == PAGES_MAX witness [0, 0, 0, 0, 0, 0, 0, 0]

  datatype Pcb = Pcb(pid: int, state: State, active: bool, directory: Pointer,
                     addresses: Addresses, pages: nat, eip: u32)

  datatype System = System(mem: Memory, pcbs: seq<Pcb>, active: int, current: int, lastPid: int,
                           cr3: Pointer, off: bool)

  function ActiveSlots(pcbs: seq<Pcb>): set<int> {
    set i | 0 <= i < |pcbs| && pcbs[i].active
  }

  // Pids are handed out upwards and never twice; 0 belongs to slots that were never filled.
  ghost predicate PidsUnique(y: System) {
    && y.lastPid >= 0
    && (forall i :: 0 <= i < |y.pcbs| ==> 0 <= y.pcbs[i].pid <= y.lastPid)
    && (forall i :: 0 <= i < |y.pcbs| && y.pcbs[i].active ==> y.pcbs[i].pid > 0)
    && forall i, j :: 0 <= i < j < |y.pcbs| && y.pcbs[i].pid > 0 ==> y.pcbs[i].pid != y.pcbs[j].pid
  }

  predicate Holds(p: Pcb, d: nat) { p.active && p.directory == Pool(d) }

  // The directories in use are exactly those of the active processes, one each.
  ghost predicate DirectoriesHeld(y: System)
    requires Shape(y.mem)
  {
    && (forall i :: 0 <= i < |y.pcbs| && y.pcbs[i].directory.Pool? ==> y.pcbs[i].directory.index < DIRECTORIES)
    && (forall i :: 0 <= i < |y.pcbs| && y.pcbs[i].active ==>
          y.pcbs[i].directory.Pool? && y.mem.used[y.pcbs[i].directory.index])
    && (forall i, j :: 0 <= i < j < |y.pcbs| && y.pcbs[i].active && y.pcbs[j].active ==>
          y.pcbs[i].directory != y.pcbs[j].directory)
    && forall d :: 0 <= d < DIRECTORIES && y.mem.used[d] ==> exists i :: 0 <= i < |y.pcbs| && Holds(y.pcbs[i], d)
  }

  // The pages of a live process lie one behind the other from its entry point on, which lies in
  // the user half; a dead one has none.
  predicate PcbNoted(p: Pcb) {
    && p.pages <= (if p.active then PAGES_MAX else 0)
    && (p.active ==> p.eip < KERNEL_BASE && forall k :: 0 <= k < p.pages ==> p.addresses[k] == p.eip + k * FRAME_SIZE)
  }

  ghost predicate PagesNoted(y: System) { forall i :: 0 <= i < |y.pcbs| ==> PcbNoted(y.pcbs[i]) }

  // At most the current slot is running.
  ghost predicate OneRunning(y: System) {
    forall i :: 0 <= i < |y.pcbs| && y.pcbs[i].active && y.pcbs[i].state == RUNNING ==> i == y.current
  }

  ghost predicate Sane(y: System) {
    && |y.pcbs| == PROCESSES && Shape(y.mem) && Consistent(y.mem) && -1 <= y.current < PROCESSES
    && y.active == |ActiveSlots(y.pcbs)|
    && PidsUnique(y) && DirectoriesHeld(y) && PagesNoted(y) && OneRunning(y)
  }

  ghost predicate Initial(y: System) {
    Sane(y) && y.active == 0 && y.current == -1 && y.lastPid == 0 && !y.off
  }

  function CeilDiv(a: u32, b: u32): (r: u32)
    ensures b != 0 ==> r * b - b < a <= r * b
  {
    if b == 0 then 0 else if a % b != 0 then a / b + 1 else a / b
  }

  // One frame more than the image needs, in 32-bit arithmetic.
  function FramesNeeded(size: u32): nat {
    CeilDiv((size + FRAME_SIZE) % 0x1_0000_0000, FRAME_SIZE)
  }

  function CreateOutcome(y: System, buf: u32, size: u32): int {
    if y.active >= PROCESSES then 1
    else if buf >= KERNEL_BASE then 2
    else if !Available(y.mem.free, FramesNeeded(size)) || FramesNeeded(size) > PAGES_MAX then 3
    else 0
  }

  function PageAddress(buf: u32, i: nat): u32
    requires buf < KERNEL_BASE && i < PAGES_MAX
  {
    buf + i * FRAME_SIZE
  }

  function WithPages(was: Addresses, buf: u32, n: nat): Addresses
    requires buf < KERNEL_BASE && n <= PAGES_MAX
  {
    if n == 0 then was else WithPages(was, buf, n - 1)[n - 1 := PageAddress(buf, n - 1)]
  }

  lemma {:induction false} WithPagesAt(was: Addresses, buf: u32, n: nat, k: nat)
    requires buf < KERNEL_BASE && n <= PAGES_MAX && k < PAGES_MAX
    ensures WithPages(was, buf, n)[k] == if k < n then PageAddress(buf, k) else was[k]
  {
    if n > 0 {
      WithPagesAt(was, buf, n - 1, k);
    }
  }

  function WithoutPages(was: Addresses, n: nat): Addresses
    requires n <= PAGES_MAX
  {
    if n == 0 then was else WithoutPages(was, n - 1)[n - 1 := 0]
  }

  // The memory after the first n pages of an image at buf have been asked for.
  ghost function Loaded(m: Memory, d: nat, buf: u32, n: nat): (m': Memory)
    requires Consistent(m) && d < DIRECTORIES && m.used[d] && buf < KERNEL_BASE && n <= PAGES_MAX
    ensures Shape(m') && Consistent(m') && m'.used == m.used
    ensures m'.tables == m.tables[d := m'.tables[d]]
  {
    if n == 0 then m
    else
      var m1 := Loaded(m, d, buf, n - 1);
      var a := PageAddress(buf, n - 1);
      AllocateConsistent(m1, d, a);
      AfterAllocate(m1, d, a)
  }

  // The slot the search for an inactive one ends at: 0 in an empty table, otherwise the first
  // one on the way down from the current slot.
  predicate Chosen(y: System, slot: int) {
    if y.active == 0 then slot == 0 else y.current >= 0 && SkippedActive(y.pcbs, DownFrom(y.current), slot)
  }

  ghost predicate Created(y: System, buf: u32, n: nat, slot: int, y': System)
    requires Sane(y)
  {
    var d := FirstUnused(y.mem.used, 0);
    && buf < KERNEL_BASE && n <= PAGES_MAX && 0 <= slot < PROCESSES && d < DIRECTORIES
    && !y.pcbs[slot].active && Chosen(y, slot)
    && Consistent(Opened(y.mem, d))
    && y' == System(Loaded(Opened(y.mem, d), d, buf, n),
                    y.pcbs[slot := Pcb(y.lastPid + 1, READY, true, Pool(d),
                                       WithPages(y.pcbs[slot].addresses, buf, n), n, buf)],
                    y.active + 1, y.current, y.lastPid + 1, y.cr3, y.off)
  }

  // Directory d and all its frames are back in the pool, every other directory is as before.
  ghost predicate Reclaimed(m: Memory, d: nat, m': Memory)
    requires Shape(m) && d < DIRECTORIES
  {
    Shape(m') && Consistent(m') && m'.used == m.used[d := false] && m'.tables == m.tables[d := Blank()]
  }

  ghost predicate Released(m: Memory, p: Pointer, m': Memory)
    requires Shape(m) && (p.Pool? ==> p.index < DIRECTORIES)
  {
    if p.Pool? && m.used[p.index] then Reclaimed(m, p.index, m') else m' == m
  }

  function Retired(p: Pcb): Pcb
    requires p.pages <= PAGES_MAX
  {
    p.(active := false, pages := 0, addresses := WithoutPages(p.addresses, p.pages))
  }

  // The effect of destroying slot i, which the source does not require to be active.
  ghost predicate Destroyed(y: System, i: int, y': System)
    requires Sane(y) && 0 <= i < PROCESSES
  {
    && Released(y.mem, y.pcbs[i].directory, y'.mem)
    && y'.pcbs == y.pcbs[i := Retired(y.pcbs[i])]
    && y'.active == y.active - 1 && y'.current == y.current && y'.lastPid == y.lastPid
    && y'.cr3 == y.cr3 && y'.off == (y.off || y.active == 1)
  }

  // The first slot with that pid, PROCESSES if there is none.
  function FirstWithPid(pcbs: seq<Pcb>, pid: int, k: nat): (i: nat)
    requires k <= |pcbs|
    ensures k <= i <= |pcbs|
    ensures i < |pcbs| ==> pcbs[i].pid == pid
    ensures forall j :: k <= j < i ==> pcbs[j].pid != pid
    decreases |pcbs| - k
  {
    if k == |pcbs| || pcbs[k].pid == pid then k else FirstWithPid(pcbs, pid, k + 1)
  }

  // The directories of the active processes in the first n slots.
  ghost function DirectoriesOf(pcbs: seq<Pcb>, n: nat): (r: set<int>)
    requires n <= |pcbs|
    ensures |r| <= n
    ensures forall i :: 0 <= i < n && pcbs[i].active && pcbs[i].directory.Pool? ==> pcbs[i].directory.index in r
  {
    if n == 0 then {}
    else
      var p := pcbs[n - 1];
      DirectoriesOf(pcbs, n - 1) + if p.active && p.directory.Pool? then {p.directory.index} else {}
  }

  /** Sixteen processes never use up the thirty-two directories. */
  lemma DirectoryAvailable(y: System)
    requires Sane(y)
    ensures FirstUnused(y.mem.used, 0) < DIRECTORIES
  {
    if FirstUnused(y.mem.used, 0) == DIRECTORIES {
      hide Consistent, PidsUnique, PagesNoted, OneRunning;
      AllHeld(y, PROCESSES, DIRECTORIES);
    }
  }

  lemma AllHeld(y: System, n: nat, m: nat)
    requires Shape(y.mem) && DirectoriesHeld(y) && n == |y.pcbs| && m <= DIRECTORIES
    requires forall d :: 0 <= d < m ==> y.mem.used[d]
    ensures m <= n
  {
    forall d | 0 <= d < m ensures d in DirectoriesOf(y.pcbs, n) {
      assert y.mem.used[d];
      var i :| 0 <= i < |y.pcbs| && Holds(y.pcbs[i], d);
      assert y.pcbs[i].directory.index == d;
    }
    Covered(DirectoriesOf(y.pcbs, n), m);
  }

  lemma Covered(s: set<int>, n: nat)
    requires forall d :: 0 <= d < n ==> d in s
    ensures |s| >= n
  {
    SubsetSize(Below(n), s);
  }

  lemma CreatedActive(pcbs: seq<Pcb>, slot: int, p: Pcb)
    requires 0 <= slot < |pcbs| && !pcbs[slot].active && p.active
    ensures |ActiveSlots(pcbs[slot := p])| == |ActiveSlots(pcbs)| + 1
  {
    assert ActiveSlots(pcbs[slot := p]) == ActiveSlots(pcbs) + {slot};
  }

  lemma RetiredActive(pcbs: seq<Pcb>, slot: int, p: Pcb)
    requires 0 <= slot < |pcbs| && !p.active
    ensures |ActiveSlots(pcbs[slot := p])| == |ActiveSlots(pcbs)| - if pcbs[slot].active then 1 else 0
  {
    assert ActiveSlots(pcbs[slot := p]) == ActiveSlots(pcbs) - {slot};
  }

  lemma CreatedDirectories(y: System, slot: int, d: nat, y': System)
    requires |y.pcbs| == PROCESSES && Shape(y.mem) && DirectoriesHeld(y)
    requires 0 <= slot < PROCESSES && !y.pcbs[slot].active && d < DIRECTORIES && !y.mem.used[d]
    requires Shape(y'.mem) && y'.mem.used == y.mem.used[d := true]
    requires exists p: Pcb :: Holds(p, d) && y'.pcbs == y.pcbs[slot := p]
    ensures DirectoriesHeld(y')
  {
    forall e | 0 <= e < DIRECTORIES && y'.mem.used[e]
      ensures exists i :: 0 <= i < |y'.pcbs| && Holds(y'.pcbs[i], e)
    {
      if e == d {
        assert Holds(y'.pcbs[slot], e);
      } else {
        var i :| 0 <= i < |y.pcbs| && Holds(y.pcbs[i], e);
        assert Holds(y'.pcbs[i], e);
      }
    }
  }

  lemma RetiredDirectories(y: System, i: int, y': System)
    requires |y.pcbs| == PROCESSES && Shape(y.mem) && DirectoriesHeld(y)
    requires 0 <= i < PROCESSES && y.pcbs[i].active && y.pcbs[i].pages <= PAGES_MAX
    requires Shape(y'.mem) && y'.mem.used == y.mem.used[y.pcbs[i].directory.index := false]
    requires y'.pcbs == y.pcbs[i := Retired(y.pcbs[i])]
    ensures DirectoriesHeld(y')
  {
    hide WithoutPages;
    forall e | 0 <= e < DIRECTORIES && y'.mem.used[e]
      ensures exists j :: 0 <= j < |y'.pcbs| && Holds(y'.pcbs[j], e)
    {
      var j :| 0 <= j < |y.pcbs| && Holds(y.pcbs[j], e);
      assert j != i;
      assert Holds(y'.pcbs[j], e);
    }
  }

  /** What is noted of a new process: it is ready, starts at the address that was asked for, and its
      pages lie one behind the other from there on. */
  lemma CreatedPcb(y: System, buf: u32, n: nat, slot: int, y': System)
    requires Sane(y) && Created(y, buf, n, slot, y')
    ensures 0 <= slot < PROCESSES == |y'.pcbs|
    ensures var p := y'.pcbs[slot];
      && p.active && p.state == READY && p.eip == buf && p.pid == y.lastPid + 1 && p.pages == n && PcbNoted(p)
      && (forall k :: 0 <= k < n ==> p.addresses[k] == buf + k * FRAME_SIZE)
  {
    hide Consistent, PidsUnique, DirectoriesHeld, PagesNoted, OneRunning, Loaded, WithPages, Chosen, Opened;
    forall k | 0 <= k < n ensures y'.pcbs[slot].addresses[k] == buf + k * FRAME_SIZE {
      WithPagesAt(y.pcbs[slot].addresses, buf, n, k);
    }
  }

  lemma CreatedSane(y: System, buf: u32, n: nat, slot: int, y': System)
    requires Sane(y) && Created(y, buf, n, slot, y')
    ensures Sane(y')
  {
    hide Consistent, Loaded, WithPages, DirectoriesHeld, PcbNoted, Chosen;
    var d := FirstUnused(y.mem.used, 0);
    CreatedActive(y.pcbs, slot, y'.pcbs[slot]);
    CreatedPcb(y, buf, n, slot, y');
    assert y'.mem.used == y.mem.used[d := true];
    assert Holds(y'.pcbs[slot], d);
    CreatedDirectories(y, slot, d, y');
  }

  lemma DestroyedKeeps(y: System, i: int, y': System)
    requires Sane(y) && 0 <= i < PROCESSES && Destroyed(y, i, y') && y.pcbs[i].active
    ensures Sane(y')
  {
    hide Consistent, WithoutPages, Holds;
    assert y'.mem.used == y.mem.used[y.pcbs[i].directory.index := false];
    hide DirectoriesHeld;
    RetiredActive(y.pcbs, i, y'.pcbs[i]);
    RetiredDirectories(y, i, y');
  }

  /** Destroying by pid keeps the table and the memory in order exactly when the slot that
      carries the pid is active; the source does not check that it is. */
  lemma DestroyedSane(y: System, i: int, y': System)
    requires Sane(y) && 0 <= i < PROCESSES && Destroyed(y, i, y')
    ensures Sane(y') <==> y.pcbs[i].active
  {
    hide Consistent, WithoutPages, PidsUnique, DirectoriesHeld, OneRunning;
    if y.pcbs[i].active {
      DestroyedKeeps(y, i, y');
    } else {
      RetiredActive(y.pcbs, i, y'.pcbs[i]);
    }
  }

  /** What is left of a destroyed process: an empty slot without pages, whose noted addresses are
      wiped. The machine is switched off exactly when no process is left. */
  lemma DestroyedPcb(y: System, i: int, y': System)
    requires Sane(y) && 0 <= i < PROCESSES && y.pcbs[i].active && Destroyed(y, i, y')
    ensures var p := y'.pcbs[i];
      && !p.active && p.pages == 0 && p.pid == y.pcbs[i].pid
      && (forall k :: 0 <= k < PAGES_MAX ==>
            p.addresses[k] == if k < y.pcbs[i].pages then 0 else y.pcbs[i].addresses[k])
    ensures y'.off <==> y.off || forall j :: 0 <= j < PROCESSES ==> !y'.pcbs[j].active
  {
    hide Consistent, PidsUnique, DirectoriesHeld, OneRunning, WithoutPages, Released;
    forall k | 0 <= k < PAGES_MAX
      ensures y'.pcbs[i].addresses[k] == if k < y.pcbs[i].pages then 0 else y.pcbs[i].addresses[k]
    {
      WithoutPagesAt(y.pcbs[i].addresses, y.pcbs[i].pages, k);
    }
    RetiredActive(y.pcbs, i, y'.pcbs[i]);
    NoneActive(y'.pcbs);
  }

  lemma NoneActive(pcbs: seq<Pcb>)
    ensures |ActiveSlots(pcbs)| == 0 <==> forall j :: 0 <= j < |pcbs| ==> !pcbs[j].active
  {
    if j :| 0 <= j < |pcbs| && pcbs[j].active {
      assert j in ActiveSlots(pcbs);
    } else {
      assert ActiveSlots(pcbs) == {};
    }
  }

  lemma {:induction false} WithoutPagesAt(was: Addresses, n: nat, k: nat)
    requires n <= PAGES_MAX && k < PAGES_MAX
    ensures WithoutPages(was, n)[k] == if k < n then 0 else was[k]
  {
    if n > 0 {
      WithoutPagesAt(was, n - 1, k);
    }
  }

  // How many of the pages that are asked for are granted.
  function Granted(free: nat, buf: u32, n: nat): nat {
    var room := KERNEL_SLOT - SlotOf(buf);
    if room <= 0 then 0 else if n <= free && n <= room then n else if free <= room then free else room
  }

  lemma PageSlot(buf: u32, i: nat)
    requires buf < KERNEL_BASE && i < PAGES_MAX
    ensures SlotOf(PageAddress(buf, i)) == SlotOf(buf) + i
  {
  }

  // Directory d maps exactly the k user slots from s0 on.
  predicate Window(m: Memory, d: nat, s0: nat, k: nat)
    requires Shape(m) && d < DIRECTORIES
  {
    forall s :: 0 <= s < KERNEL_SLOT ==> (m.tables[d][s].present <==> s0 <= s < s0 + k)
  }

  lemma WindowGrows(m: Memory, d: nat, s0: nat, k: nat, a: u32)
    requires Shape(m) && d < DIRECTORIES && Window(m, d, s0, k) && SlotOf(a) >= s0 + k
    requires m.free > 0 ==> FirstFree(m.frames, 1) < FRAMES
    ensures var m' := AfterAllocate(m, d, a);
      if SlotOf(a) < KERNEL_SLOT && m.free > 0
      then m'.free == m.free - 1 && (SlotOf(a) == s0 + k ==> Window(m', d, s0, k + 1))
      else m' == m
  {
  }

  /** Loading an image maps a run of consecutive user slots from the entry point on, as long
      as frames and user space last, and nothing else. */
  lemma {:induction false} LoadedMaps(m: Memory, d: nat, buf: u32, n: nat)
    requires Consistent(m) && d < DIRECTORIES && m.used[d] && buf < KERNEL_BASE && n <= PAGES_MAX
    requires Window(m, d, SlotOf(buf), 0)
    ensures var k := Granted(m.free, buf, n); var m' := Loaded(m, d, buf, n);
      k <= m.free && m'.free == m.free - k && Window(m', d, SlotOf(buf), k)
  {
    hide Consistent, Window, AfterAllocate, SlotOf;
    if n > 0 {
      LoadedMaps(m, d, buf, n - 1);
      var m1 := Loaded(m, d, buf, n - 1);
      var k := Granted(m.free, buf, n - 1);
      AllocateConsistent(m1, d, PageAddress(buf, n - 1));
      PageSlot(buf, n - 1);
      WindowGrows(m1, d, SlotOf(buf), k, PageAddress(buf, n - 1));
    }
  }

  /** The whole image is mapped exactly when the frames suffice and it ends below 3 GiB. */
  lemma LoadedWhole(m: Memory, d: nat, buf: u32, n: nat)
    requires Consistent(m) && d < DIRECTORIES && m.used[d] && buf < KERNEL_BASE && n <= PAGES_MAX
    requires Window(m, d, SlotOf(buf), 0)
    ensures (forall i :: 0 <= i < n ==> Mapped(Loaded(m, d, buf, n), d, SlotOf(PageAddress(buf, i)))) <==>
            n <= m.free && SlotOf(buf) + n <= KERNEL_SLOT
  {
    hide Owned, Pooled, Loaded;
    LoadedMaps(m, d, buf, n);
    forall i | 0 <= i < n ensures SlotOf(PageAddress(buf, i)) == SlotOf(buf) + i {
      PageSlot(buf, i);
    }
    var m' := Loaded(m, d, buf, n);
    assert n > 0 && Mapped(m', d, SlotOf(PageAddress(buf, n - 1))) ==> n <= Granted(m.free, buf, n);
  }

  /** A process starts in a page of its own, as soon as it asks for one and one frame is free. */
  lemma StartsInOwnPage(y: System, buf: u32, n: nat, slot: int, y': System)
    requires Sane(y) && Created(y, buf, n, slot, y') && n > 0 && y.mem.free > 0
    ensures exists f: nat :: Uses(y', slot, SlotOf(y'.pcbs[slot].eip), f)
  {
    hide Consistent, PidsUnique, DirectoriesHeld, PagesNoted, OneRunning, Loaded, WithPages, Chosen, Opened, SlotOf,
         FrameOf;
    var d := FirstUnused(y.mem.used, 0);
    OpenedWindow(y, d, SlotOf(buf));
    UserSlot(buf);
    LoadedMaps(Opened(y.mem, d), d, buf, n);
    var f := FrameOf(y'.mem.tables[d][SlotOf(buf)]);
    assert Uses(y', slot, SlotOf(buf), f);
  }

  lemma UserSlot(buf: u32)
    requires buf < KERNEL_BASE
    ensures SlotOf(buf) < KERNEL_SLOT
  {
  }

  lemma OpenedWindow(y: System, d: nat, s: nat)
    requires Sane(y) && d < DIRECTORIES
    ensures Shape(Opened(y.mem, d)) && Opened(y.mem, d).used[d] && Opened(y.mem, d).free == y.mem.free
    ensures Window(Opened(y.mem, d), d, s, 0)
  {
    hide Opened, Consistent, PidsUnique, DirectoriesHeld, PagesNoted, OneRunning;
    OpenedEntry(y.mem, d, s);
    forall t: nat | t < KERNEL_SLOT ensures !Opened(y.mem, d).tables[d][t].present {
      OpenedEntry(y.mem, d, t);
    }
  }

  /** The frame count that is passed to the check is read there as a number of bytes, so the
      check only refuses when no frame at all is free. */
  lemma CheckIsByteCount(free: nat, size: u32)
    ensures FramesNeeded(size) <= 0x400
    ensures Available(free, FramesNeeded(size)) <==> free > 0 || FramesNeeded(size) == 0
  {
  }

  /** Creation promises memory it does not have exactly when between one frame and fewer than
      needed are free. */
  lemma ShortageAccepted(y: System, buf: u32, size: u32)
    requires y.active < PROCESSES && buf < KERNEL_BASE && 0 < FramesNeeded(size) <= PAGES_MAX
    ensures CreateOutcome(y, buf, size) == 0 && FramesNeeded(size) > y.mem.free <==>
            0 < y.mem.free < FramesNeeded(size)
  {
    CheckIsByteCount(y.mem.free, size);
  }

  /** The frame count covers the image and one frame of stack exactly when the size does not
      overflow 32 bits. */
  lemma FramesNeededExact(size: u32)
    ensures FramesNeeded(size) * FRAME_SIZE >= size + FRAME_SIZE <==> size < 0x1_0000_0000 - FRAME_SIZE
  {
  }

  // Where the size does not overflow, it is the least such count.
  lemma FramesNeededLeast(size: u32)
    requires size < 0xFFC0_0000
    ensures FramesNeeded(size) * FRAME_SIZE - FRAME_SIZE < size + FRAME_SIZE <= FramesNeeded(size) * FRAME_SIZE
  {
  }

  /** The result codes of creation, exactly: 1 for a full table, 2 for an entry point in the kernel
      half, 3 for no free frame or more than 28 MiB, 0 otherwise; but the highest sizes overflow and
      pass for small. */
  lemma CreateOutcomeExact(y: System, buf: u32, size: u32)
    requires Sane(y)
    ensures var n, rc := |ActiveSlots(y.pcbs)|, CreateOutcome(y, buf, size);
      var asks := size <= 0x1C0_0000 || size > 0xFFC0_0000;
      && (rc == 1 <==> n == 16)
      && (rc == 2 <==> n < 16 && buf >= 0xC000_0000)
      && (rc == 3 <==> n < 16 && buf < 0xC000_0000 && size != 0xFFC0_0000 && !(asks && y.mem.free > 0))
      && (rc == 0 <==> n < 16 && buf < 0xC000_0000 && (size == 0xFFC0_0000 || (asks && y.mem.free > 0)))
  {
    hide Consistent, PidsUnique, DirectoriesHeld, PagesNoted, OneRunning, FramesNeeded, Available;
    NoMoreActive(y.pcbs, PROCESSES);
    CheckIsByteCount(y.mem.free, size);
    FewFrames(size);
  }

  lemma NoMoreActive(pcbs: seq<Pcb>, n: nat)
    requires |pcbs| == n
    ensures |ActiveSlots(pcbs)| <= n
  {
    SubsetSize(ActiveSlots(pcbs), Below(n));
  }

  lemma FewFrames(size: u32)
    ensures FramesNeeded(size) <= 8 <==> size <= 0x1C0_0000 || size >= 0xFFC0_0000
    ensures FramesNeeded(size) == 0 <==> size == 0xFFC0_0000
  {
  }

  /** Creating a process and destroying it again gives back the very same memory, and leaves
      every other process as it was. */
  lemma CreateThenDestroy(y: System, buf: u32, n: nat, slot: int, y1: System, y2: System)
    requires Sane(y) && Created(y, buf, n, slot, y1) && Sane(y1) && Destroyed(y1, slot, y2)
    ensures FirstWithPid(y1.pcbs, y1.lastPid, 0) == slot
    ensures y2.mem == y.mem && y2.active == y.active && y2.cr3 == y.cr3
    ensures forall i :: 0 <= i < PROCESSES && i != slot ==> y2.pcbs[i] == y.pcbs[i]
    ensures !y2.pcbs[slot].active
  {
    hide Loaded, WithPages, WithoutPages, Owned, DirectoriesHeld, PagesNoted, OneRunning;
    var d := FirstUnused(y.mem.used, 0);
    assert y2.mem.tables == y.mem.tables && y2.mem.used == y.mem.used;
    hide PidsUnique, Pooled;
    TablesDetermineFrames(y.mem, y2.mem);
  }

  /** A process that is alive keeps its whole page directory through the creation and the
      destruction of others. */
  lemma OthersUntouched(y: System, y': System, i: int)
    requires Sane(y) && 0 <= i < PROCESSES && y.pcbs[i].active
    requires (exists buf: u32, n: nat, slot: int :: Created(y, buf, n, slot, y')) ||
             (exists j :: 0 <= j < PROCESSES && j != i && y.pcbs[j].active && Destroyed(y, j, y'))
    ensures y'.pcbs[i] == y.pcbs[i]
    ensures var d := y.pcbs[i].directory.index;
      y'.mem.used[d] && y'.mem.tables[d] == y.mem.tables[d]
  {
    hide Consistent, Loaded, WithPages, WithoutPages, PidsUnique, PagesNoted, OneRunning;
  }

  /** Isolation: every frame that is marked, apart from frame 0, is mapped by one live process,
      in one slot, and no other live process maps it. */
  lemma OneProcessPerFrame(y: System, f: nat)
    requires Sane(y) && 1 <= f < FRAMES
    ensures y.mem.frames[f] <==> exists i, s: nat :: Uses(y, i, s, f)
    ensures forall i, s: nat, j, t: nat :: Uses(y, i, s, f) && Uses(y, j, t, f) ==> i == j && s == t
  {
    hide PidsUnique, PagesNoted, OneRunning, Pooled;
    if y.mem.frames[f] {
      ExactlyOneOwner(y.mem, f);
      var d: nat, s: nat :| SoleOwner(y.mem, d, s, f);
      var i :| 0 <= i < |y.pcbs| && Holds(y.pcbs[i], d);
      assert Uses(y, i, s, f);
    }
  }

  // Live process i can touch frame f in user mode.
  ghost predicate ProcessReaches(y: System, i: int, f: nat) {
    && 0 <= i < |y.pcbs| && y.pcbs[i].active && y.pcbs[i].directory.Pool?
    && UserReaches(y.mem, y.pcbs[i].directory.index, f)
  }

  /** In user mode two live processes never reach the same frame, and none reaches frame 0. */
  lemma ReachesApart(y: System, i: int, j: int, f: nat)
    requires Sane(y)
    ensures ProcessReaches(y, i, f) && ProcessReaches(y, j, f) ==> i == j
    ensures ProcessReaches(y, i, f) ==> 1 <= f < FRAMES && exists s: nat :: Uses(y, i, s, f)
  {
    hide PidsUnique, PagesNoted, OneRunning, UserReaches;
    if ProcessReaches(y, i, f) {
      UserReachesOwn(y.mem, y.pcbs[i].directory.index, f);
      var s: nat :| Maps(y.mem, y.pcbs[i].directory.index, s, f);
      assert Uses(y, i, s, f);
      if ProcessReaches(y, j, f) {
        UserReachesOwn(y.mem, y.pcbs[j].directory.index, f);
      }
    }
  }

  // Process i maps its user slot s to frame f.
  ghost predicate Uses(y: System, i: int, s: nat, f: nat) {
    && 0 <= i < |y.pcbs| && y.pcbs[i].active && y.pcbs[i].directory.Pool?
    && Maps(y.mem, y.pcbs[i].directory.index, s, f)
  }

  /** Destroying slot i leaves the memory of live process j alone if and only if the two slots do
      not carry the same directory; if they do, all of it is gone. */
  lemma DestroyedSpares(y: System, i: int, j: int, y': System)
    requires Sane(y) && 0 <= i < PROCESSES && 0 <= j < PROCESSES && i != j && Destroyed(y, i, y') && y.pcbs[j].active
    ensures y'.pcbs[j] == y.pcbs[j]
    ensures var d := y.pcbs[j].directory.index;
      y'.mem.used[d] && y'.mem.tables[d] == y.mem.tables[d] <==> y.pcbs[i].directory != y.pcbs[j].directory
    ensures y.pcbs[i].directory == y.pcbs[j].directory ==>
      forall s: nat :: !Mapped(y'.mem, y.pcbs[j].directory.index, s)
  {
    hide Consistent, WithoutPages, PidsUnique, PagesNoted, OneRunning;
  }

  function DownFrom(i: int): int { if i == 0 then PROCESSES - 1 else i - 1 }

  // Steps down, around the table, from i to j.
  function StepsDown(i: int, j: int): int { if j <= i then i - j else i - j + PROCESSES }

  // Every slot passed on the way down from start to i is active.
  predicate SkippedActive(pcbs: seq<Pcb>, start: int, i: int) {
    forall j :: 0 <= j < |pcbs| && StepsDown(start, j) < StepsDown(start, i) ==> pcbs[j].active
  }

  /** Which slot that is, by its index: all slots between it and the current one are active, or, when it
      lies above, all below the current one and all above itself. */
  lemma ChosenPlace(y: System, i: int)
    requires |y.pcbs| == PROCESSES && y.active > 0 && 0 <= y.current < PROCESSES && 0 <= i < PROCESSES
    ensures Chosen(y, i) <==> forall k :: 0 <= k < PROCESSES ==>
              (if i < y.current then i < k < y.current else k < y.current || k > i) ==> y.pcbs[k].active
  {
    var start := DownFrom(y.current);
    assert forall k :: 0 <= k < PROCESSES ==>
      (StepsDown(start, k) < StepsDown(start, i) <==>
       if i < y.current then i < k < y.current else k < y.current || k > i);
  }

  lemma NoPage(m: Memory, d: nat, buf: u32, was: Addresses)
    requires Consistent(m) && d < DIRECTORIES && m.used[d] && buf < KERNEL_BASE
    ensures Loaded(m, d, buf, 0) == m && WithPages(was, buf, 0) == was
  {
  }

  lemma OnePage(m: Memory, d: nat, buf: u32, i: nat, was: Addresses)
    requires Consistent(m) && d < DIRECTORIES && m.used[d] && buf < KERNEL_BASE && i < PAGES_MAX
    ensures var m1 := Loaded(m, d, buf, i);
      (m1.free > 0 ==> FirstFree(m1.frames, 1) < FRAMES) &&
      Loaded(m, d, buf, i + 1) == AfterAllocate(m1, d, PageAddress(buf, i))
    ensures WithPages(was, buf, i + 1) == WithPages(was, buf, i)[i := PageAddress(buf, i)]
  {
    hide Consistent;
    AllocateConsistent(Loaded(m, d, buf, i), d, PageAddress(buf, i));
  }

  // While the pages of process p are being freed.
  ghost predicate Freeing(m: Memory, p: Pcb, m': Memory) {
    && Shape(m) && Shape(m') && Consistent(m') && m'.used == m.used
    && if p.active && p.directory.Pool? && p.directory.index < DIRECTORIES
       then m'.tables == m.tables[p.directory.index := m'.tables[p.directory.index]]
       else m' == m
  }

  lemma OpenedUsed(m: Memory, d: nat)
    requires Shape(m) && d < DIRECTORIES
    ensures Shape(Opened(m, d)) && Opened(m, d).used[d]
  {
  }

  lemma NoAddress(was: Addresses)
    ensures WithoutPages(was, 0) == was
  {
  }

  lemma OneAddress(was: Addresses, k: nat)
    requires k < PAGES_MAX
    ensures WithoutPages(was, k + 1) == WithoutPages(was, k)[k := 0]
  {
  }

  // A slot that is free, in a table that is not full.
  lemma InactiveSlot(pcbs: seq<Pcb>, n: nat) returns (hole: int)
    requires |pcbs| == n && |ActiveSlots(pcbs)| < n
    ensures 0 <= hole < n && !pcbs[hole].active
    ensures ActiveSlots(pcbs) == {} ==> hole == 0
  {
    if forall j :: 0 <= j < n ==> pcbs[j].active {
      Covered(ActiveSlots(pcbs), n);
    }
    hole :| 0 <= hole < n && !pcbs[hole].active;
    if ActiveSlots(pcbs) == {} {
      assert 0 !in ActiveSlots(pcbs);
      hole := 0;
    }
  }

  class ProcessManager {
    const pages: PageManager
    const pcbs: array<Pcb>
    var active: int
    var current: int
    var lastPid: int
    var off: bool

    ghost predicate Valid()
      reads this, pages
    {
      pages.Valid() && pcbs.Length == PROCESSES
    }

    ghost function View(): System
      requires Valid()
      reads this, pages, pages.frames, pages.used, pages.tables, pcbs
    {
      System(pages.View(), pcbs[..], active, current, lastPid, pages.cr3, off)
    }

    constructor (pm: PageManager)
      requires pm.Valid() && Consistent(pm.View()) && forall d :: 0 <= d < DIRECTORIES ==> !pm.View().used[d]
      ensures Valid() && Sane(View()) && pages == pm && fresh(pcbs)
      ensures Initial(View()) && pm.View() == old(pm.View())
    {
      pages := pm;
      pcbs := new Pcb[PROCESSES](_ => Pcb(0, READY, false, Null, [0, 0, 0, 0, 0, 0, 0, 0], 0, 0));
      active, current, lastPid, off := 0, -1, 0, false;
      new;
      hide Owned, Pooled;
      assert ActiveSlots(pcbs[..]) == {};
    }

    /** Walks down from the current slot to the nearest one that is inactive. With processes
        but no current slot the source would read in front of the table. */
    method InactiveIndex() returns (i: int)
      requires Valid() && Sane(View()) && active < PROCESSES && (active == 0 || current >= 0)
      ensures 0 <= i < PROCESSES && !pcbs[i].active
      ensures Chosen(View(), i)
    {
      hide Consistent, PidsUnique, DirectoriesHeld, PagesNoted, OneRunning;
      ghost var hole := InactiveSlot(pcbs[..], PROCESSES);
      if active == 0 { return 0; }
      var idx := current - 1;
      if idx == -1 { idx := PROCESSES - 1; }
      ghost var start := idx;
      while pcbs[idx].active
        invariant 0 <= idx < PROCESSES
        invariant SkippedActive(pcbs[..], start, idx)
        decreases StepsDown(start, hole) - StepsDown(start, idx)
      {
        idx := idx - 1;
        if idx == -1 { idx := PROCESSES - 1; }
      }
      return idx;
    }

    // Asks for n pages at buf and records their addresses in slot p; refusals go unnoticed.
    method LoadPages(p: int, d: nat, buf: u32, n: nat)
      requires Valid() && Consistent(pages.View()) && d < DIRECTORIES && pages.View().used[d]
      requires 0 <= p < PROCESSES && buf < KERNEL_BASE && n <= PAGES_MAX
      modifies pages`free, pages.frames, pages.tables, pcbs
      ensures Valid() && pages.View() == Loaded(old(pages.View()), d, buf, n)
      ensures pcbs[..] == old(pcbs[..])[p := old(pcbs[p]).(addresses := WithPages(old(pcbs[p]).addresses, buf, n))]
    {
      hide Consistent, Loaded, WithPages, AfterAllocate;
      ghost var m, was := pages.View(), pcbs[..];
      NoPage(m, d, buf, was[p].addresses);
      var i := 0;
      while i < n
        invariant 0 <= i <= n && pages.Valid() && pages.View() == Loaded(m, d, buf, i)
        invariant pcbs[..] == was[p := was[p].(addresses := WithPages(was[p].addresses, buf, i))]
      {
        OnePage(m, d, buf, i, was[p].addresses);
        pcbs[p] := pcbs[p].(addresses := pcbs[p].addresses[i := PageAddress(buf, i)]);
        var granted := pages.AllocateUserFrame(d, pcbs[p].addresses[i]);
        i := i + 1;
      }
    }

    // Finds a free slot and gives it a new page directory, which is loaded.
    method OpenSlot() returns (slot: int, d: nat)
      requires Valid() && Sane(View()) && (active == 0 || current >= 0) && active < PROCESSES
      modifies pages, pages.used, pages.tables, pcbs
      ensures Valid() && 0 <= slot < PROCESSES && !old(pcbs[slot].active) && unchanged(pages.frames)
      ensures Chosen(old(View()), slot)
      ensures var y := old(View());
        && d == FirstUnused(y.mem.used, 0) < DIRECTORIES && Consistent(Opened(y.mem, d)) && Opened(y.mem, d).used[d]
        && pages.View() == Opened(y.mem, d) && pages.cr3 == Pool(d)
        && pcbs[..] == y.pcbs[slot := y.pcbs[slot].(directory := Pool(d))]
    {
      hide Consistent, PidsUnique, DirectoriesHeld, PagesNoted, OneRunning, Opened;
      ghost var y := View();
      slot := InactiveIndex();
      DirectoryAvailable(y);
      OpenedConsistent(y.mem, FirstUnused(y.mem.used, 0));
      var directory := pages.CreateDirectory();
      OpenedUsed(y.mem, directory.index);
      pcbs[slot] := pcbs[slot].(directory := directory);
      pages.cr3 := directory;
      d := directory.index;
    }

    // Fills a free slot with a new process of n pages.
    method Fill(buf: u32, n: nat) returns (slot: int)
      requires Valid() && Sane(View()) && (active == 0 || current >= 0)
      requires active < PROCESSES && buf < KERNEL_BASE && n <= PAGES_MAX
      modifies this, pages, pages.frames, pages.used, pages.tables, pcbs
      ensures Valid() && Sane(View()) && Created(old(View()), buf, n, slot, View())
    {
      hide Consistent, PidsUnique, DirectoriesHeld, PagesNoted, OneRunning, Loaded, WithPages, Opened, Chosen;
      ghost var y := View();
      var was := pages.cr3;
      var p, d := OpenSlot();
      LoadPages(p, d, buf, n);
      pcbs[p] := pcbs[p].(pages := n, eip := buf);
      pages.cr3 := was;
      lastPid := lastPid + 1;
      pcbs[p] := pcbs[p].(pid := lastPid, active := true, state := READY);
      active := active + 1;
      slot := p;
      assert Created(y, buf, n, slot, View());
      hide Created;
      CreatedSane(y, buf, n, slot, View());
    }

    /** Creates a process unless the table is full, the entry point lies in the kernel half, or
        the frame count is refused; a refusal changes nothing. */
    method Create(buf: u32, size: u32) returns (rc: int, ghost slot: int)
      requires Valid() && Sane(View()) && (active == 0 || current >= 0)
      modifies this, pages, pages.frames, pages.used, pages.tables, pcbs
      ensures Valid() && Sane(View())
      ensures rc == CreateOutcome(old(View()), buf, size)
      ensures rc != 0 ==> View() == old(View())
      ensures rc == 0 ==> Created(old(View()), buf, FramesNeeded(size), slot, View())
      ensures rc == 0 ==> 0 <= slot < PROCESSES
      ensures rc == 0 ==> pcbs[slot].active && pcbs[slot].state == READY && pcbs[slot].eip == buf
    {
      hide Sane, FramesNeeded, Created, Available;
      ghost var y := View();
      rc, slot := 0, 0;
      if active >= PROCESSES { rc := 1; return; }
      if buf >= KERNEL_BASE { rc := 2; return; }
      var needed := FramesNeeded(size);
      CheckIsByteCount(y.mem.free, size);
      var enough := pages.AllocateCheck(needed);
      if !enough || needed > PAGES_MAX { rc := 3; return; }
      slot := Fill(buf, needed);
      CreatedPcb(y, buf, needed, slot, View());
    }

    // Frees the pages that slot i has noted, one by one.
    method FreePages(i: int)
      requires Valid() && Sane(View()) && 0 <= i < PROCESSES
      modifies pages`free, pages.frames, pages.tables, pcbs
      ensures Valid() && Freeing(old(View()).mem, old(pcbs[i]), pages.View())
      ensures var p := old(pcbs[i]);
        pcbs[..] == old(pcbs[..])[i := p.(addresses := WithoutPages(p.addresses, p.pages))]
    {
      hide Consistent, PidsUnique, OneRunning, WithoutPages;
      ghost var y, p := View(), pcbs[i];
      var k := 0;
      NoAddress(p.addresses);
      while k < pcbs[i].pages
        invariant 0 <= k <= p.pages && pages.Valid() && Freeing(y.mem, p, pages.View())
        invariant pcbs[..] == y.pcbs[i := p.(addresses := WithoutPages(p.addresses, k))]
      {
        var a := pcbs[i].addresses[k];
        var freed := pages.FreeUserFrame(pcbs[i].directory, a);
        OneAddress(p.addresses, k);
        pcbs[i] := pcbs[i].(addresses := pcbs[i].addresses[k := 0]);
        k := k + 1;
      }
    }

    /** Frees the pages of slot i and its directory; the page directory register ends as it was. */
    method ReleaseMemory(i: int)
      requires Valid() && Sane(View()) && 0 <= i < PROCESSES
      modifies pages, pages.frames, pages.used, pages.tables, pcbs
      ensures Valid() && Released(old(View()).mem, old(pcbs[i]).directory, View().mem)
      ensures pcbs[..] == old(pcbs[..])[i :=
        old(pcbs[i]).(pages := 0, addresses := WithoutPages(old(pcbs[i]).addresses, old(pcbs[i]).pages))]
      ensures pages.cr3 == old(pages.cr3)
    {
      hide Consistent, PidsUnique, OneRunning, WithoutPages;
      ghost var y, p := View(), pcbs[i];
      FreePages(i);
      var was := pages.cr3;
      pages.cr3 := pcbs[i].directory;
      var closed := pages.FreeDirectory(pcbs[i].directory);
      if was != pcbs[i].directory { pages.cr3 := was; }
      pcbs[i] := pcbs[i].(pages := 0);
    }

    /** Destroys the first slot that carries the pid, alive or not. */
    method Destroy(pid: u32) returns (ok: bool)
      requires Valid() && Sane(View())
      modifies this, pages, pages.frames, pages.used, pages.tables, pcbs
      ensures Valid()
      ensures var y := old(View()); var i := FirstWithPid(y.pcbs, pid, 0);
        ok == (i < PROCESSES) && if ok then Destroyed(y, i, View()) else View() == y
    {
      hide Consistent, PidsUnique, DirectoriesHeld, PagesNoted, OneRunning, Released, WithoutPages;
      ghost var y := View();
      var i := 0;
      while i < PROCESSES
        invariant 0 <= i <= PROCESSES && View() == y
        invariant FirstWithPid(y.pcbs, pid, 0) == FirstWithPid(y.pcbs, pid, i)
      {
        if pcbs[i].pid == pid {
          ReleaseMemory(i);
          if active == 1 { off := true; }
          pcbs[i] := pcbs[i].(active := false);
          active := active - 1;
          return true;
        }
        i := i + 1;
      }
      return false;
    }
  }
}
