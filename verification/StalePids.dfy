/** A run of the kernel that ends with a stale pid: a slot that was emptied still names the page
    directory of a process created later, and destroying that pid takes the memory of the latter. */
module StalePids {
  import opened Bytes
  import opened Bitmap
  import opened Paging
  import opened Process
  import opened Scheduler

  // The outline of a state: live slots, current slot, last pid, directories in use.
  ghost predicate Stands(y: System, live: set<int>, current: int, pid: int, free: nat, used: set<int>) {
    && Sane(y) && ActiveSlots(y.pcbs) == live && y.current == current && y.lastPid == pid && y.mem.free >= free
    && forall d :: 0 <= d < DIRECTORIES ==> (y.mem.used[d] <==> d in used)
  }

  predicate Carries(y: System, slot: int, pid: int, d: nat) {
    0 <= slot < |y.pcbs| && y.pcbs[slot].pid == pid && y.pcbs[slot].directory == Pool(d)
  }

  // All that was carried still is, apart from one slot.
  ghost predicate CarriedOn(y: System, but: int, y': System) {
    forall i, pid, d :: i != but && Carries(y, i, pid, d) ==> Carries(y', i, pid, d)
  }

  lemma InitialStands(y: System)
    requires Initial(y)
    ensures Stands(y, {}, -1, 0, FRAMES - 1, {})
  {
    hide PidsUnique, PagesNoted, OneRunning;
    var n := PROCESSES;
    SlotsCountedIn(y.pcbs, n);
    forall d | 0 <= d < DIRECTORIES ensures !y.mem.used[d] {
      assert forall i :: 0 <= i < |y.pcbs| ==> !Holds(y.pcbs[i], d);
    }
    forall d: nat, s: nat, f: nat ensures !Maps(y.mem, d, s, f) {
      assert d < DIRECTORIES ==> y.mem.tables[d] == Blank();
    }
    InitialCount(y.mem.frames);
  }

  lemma SlotsCountedIn(pcbs: seq<Pcb>, n: nat)
    requires |pcbs| == n && |ActiveSlots(pcbs)| == 0
    ensures forall i :: 0 <= i < n ==> !pcbs[i].active
  {
    forall i | 0 <= i < n ensures !pcbs[i].active {
      assert i !in ActiveSlots(pcbs);
    }
  }

  lemma OneFrame(y: System)
    requires y.active < PROCESSES && y.mem.free > 0
    ensures FramesNeeded(0) == 1 && CreateOutcome(y, 0, 0) == 0
  {
  }

  // A process of one page is created in the slot that is chosen.
  lemma Spawned(y: System, live: set<int>, current: int, pid: int, free: nat, used: set<int>, slot: int, d: nat)
    returns (y': System)
    requires Stands(y, live, current, pid, free, used) && |live| < PROCESSES && free > 0
    requires 0 <= slot < PROCESSES && slot !in live && Chosen(y, slot)
    requires d < DIRECTORIES && d !in used && forall e :: 0 <= e < d ==> e in used
    ensures Legal(y, Spawn(0, 0)) && Happens(y, Spawn(0, 0), y')
    ensures Stands(y', live + {slot}, current, pid + 1, free - 1, used + {d})
    ensures Carries(y', slot, pid + 1, d) && CarriedOn(y, slot, y')
  {
    hide Consistent, PidsUnique, DirectoriesHeld, PagesNoted, OneRunning, Loaded, WithPages, Chosen, Available;
    OneFrame(y);
    assert FirstUnused(y.mem.used, 0) == d;
    assert slot !in ActiveSlots(y.pcbs);
    OpenedConsistent(y.mem, d);
    var m := Loaded(Opened(y.mem, d), d, 0, 1);
    y' := System(m, y.pcbs[slot := Pcb(pid + 1, READY, true, Pool(d), WithPages(y.pcbs[slot].addresses, 0, 1), 1, 0)],
                 y.active + 1, y.current, pid + 1, y.cr3, y.off);
    assert Created(y, 0, 1, slot, y');
    CreatedSane(y, 0, 1, slot, y');
    OnePageLess(Opened(y.mem, d), d);
    assert ActiveSlots(y'.pcbs) == live + {slot};
    SpawnLegal(y, slot);
  }

  lemma SpawnLegal(y: System, slot: int)
    requires |y.pcbs| == PROCESSES && Chosen(y, slot)
    ensures Legal(y, Spawn(0, 0))
  {
  }

  lemma OnePageLess(m: Memory, d: nat)
    requires Consistent(m) && d < DIRECTORIES && m.used[d]
    ensures Loaded(m, d, 0, 1).free >= m.free - 1
  {
    hide Consistent;
    NoPage(m, d, 0, [0, 0, 0, 0, 0, 0, 0, 0]);
    OnePage(m, d, 0, 0, [0, 0, 0, 0, 0, 0, 0, 0]);
  }

  // What closing a directory leaves.
  lemma Reclaim(m: Memory, d: nat) returns (m': Memory)
    requires Consistent(m) && d < DIRECTORIES
    ensures Reclaimed(m, d, m') && m'.free >= m.free
  {
    var frames := seq(FRAMES, f requires 0 <= f < FRAMES => m.frames[f] && !exists s :: Maps(m, d, s, f));
    m' := Memory(frames, |Unmarked(frames)|, m.used[d := false], m.tables[d := Blank()]);
    ClosedConsistent(m, d, m');
    SubsetSize(Unmarked(m.frames), Unmarked(frames));
  }

  // The slot that carries a pid is destroyed, whether it is live or not.
  lemma Killed(y: System, slot: int, pid: u32, d: nat) returns (y': System)
    requires Sane(y) && Carries(y, slot, pid, d) && pid > 0 && d < DIRECTORIES && y.mem.used[d]
    ensures FirstWithPid(y.pcbs, pid, 0) == slot && Happens(y, Kill(pid), y') && Destroyed(y, slot, y')
    ensures y'.mem.used == y.mem.used[d := false] && y'.mem.free >= y.mem.free
    ensures Carries(y', slot, pid, d) && CarriedOn(y, slot, y')
    ensures forall i :: 0 <= i < PROCESSES ==> y'.pcbs[i].active == (y.pcbs[i].active && i != slot)
  {
    hide Consistent, DirectoriesHeld, OneRunning, WithoutPages, Owned;
    var m := Reclaim(y.mem, d);
    y' := System(m, y.pcbs[slot := Retired(y.pcbs[slot])], y.active - 1, y.current, y.lastPid, y.cr3,
                 y.off || y.active == 1);
    assert FirstWithPid(y.pcbs, pid, 0) == slot by { PidAt(y, slot); }
  }

  lemma PidAt(y: System, slot: int)
    requires |y.pcbs| == PROCESSES && PidsUnique(y) && 0 <= slot < PROCESSES && y.pcbs[slot].pid > 0
    ensures FirstWithPid(y.pcbs, y.pcbs[slot].pid, 0) == slot
  {
  }

  lemma KilledLive(y: System, live: set<int>, current: int, pid: int, free: nat, used: set<int>, slot: int,
                   k: u32, d: nat)
    returns (y': System)
    requires Stands(y, live, current, pid, free, used) && slot in live && Carries(y, slot, k, d) && d in used && k > 0
    requires d < DIRECTORIES
    ensures Legal(y, Kill(k)) && Happens(y, Kill(k), y')
    ensures Stands(y', live - {slot}, current, pid, free, used - {d})
    ensures Carries(y', slot, k, d) && CarriedOn(y, slot, y')
  {
    hide Consistent, PidsUnique, DirectoriesHeld, PagesNoted, OneRunning, Released, Retired;
    y' := Killed(y, slot, k, d);
    assert y.pcbs[slot].active;
    DestroyedKeeps(y, slot, y');
    assert ActiveSlots(y'.pcbs) == live - {slot};
  }

  // The scheduler switches to slot j.
  lemma Ticked(y: System, live: set<int>, current: int, pid: int, free: nat, used: set<int>, j: int)
    returns (y': System)
    requires Stands(y, live, current, pid, free, used) && live != {} && j in live
    requires current < j && forall i :: current < i < j ==> i !in live
    ensures Legal(y, Tick) && Happens(y, Tick, y')
    ensures Stands(y', live, j, pid, free, used) && CarriedOn(y, -1, y')
  {
    hide Consistent, PidsUnique, DirectoriesHeld, PagesNoted, OneRunning, Next;
    var flags := Flags(y.pcbs);
    forall i | 0 <= i < PROCESSES ensures flags[i] <==> i in live {
      assert flags[i] <==> i in ActiveSlots(y.pcbs);
    }
    NextIs(flags, current, j);
    y' := y.(current := j, cr3 := y.pcbs[j].directory, pcbs := Put(Put(y.pcbs, current, READY), j, RUNNING));
    assert Switched(y, y');
    SwitchedSane(y, y');
  }

  lemma NextIs(active: seq<bool>, current: int, j: int)
    requires |active| == PROCESSES && -1 <= current < j < PROCESSES && active[j]
    requires forall i :: current < i < j ==> !active[i]
    ensures Next(active, current) == j
  {
    SearchSkips(active, current + 1, PROCESSES, j);
  }

  lemma {:induction false} SearchSkips(active: seq<bool>, p: nat, n: nat, j: int)
    requires |active| == PROCESSES && p <= j < PROCESSES && j - p < n && active[j]
    requires forall i :: p <= i < j ==> !active[i]
    ensures Search(active, p, n) == j
    decreases j - p
  {
    if p < j {
      SearchSkips(active, p + 1, n - 1, j);
    }
  }

  lemma OnlyAbove(y: System, live: set<int>, current: int, slot: int)
    requires |y.pcbs| == PROCESSES && ActiveSlots(y.pcbs) == live && y.current == current && y.active == |live| > 0
    requires 0 <= current < PROCESSES && 0 <= slot < PROCESSES
    requires forall j :: 0 <= j < PROCESSES && StepsDown(DownFrom(current), j) < StepsDown(DownFrom(current), slot) ==>
      j in live
    ensures Chosen(y, slot)
  {
    forall j | 0 <= j < PROCESSES && StepsDown(DownFrom(current), j) < StepsDown(DownFrom(current), slot)
      ensures y.pcbs[j].active
    {
      assert j in ActiveSlots(y.pcbs);
    }
  }

  const FIRST := Spawn(0, 0)

  // Three processes, the second of which is destroyed: slots 0 and 14 are live, slot 15 keeps
  // pid 2 and directory 1.
  lemma SecondKilled(y0: System) returns (ys: seq<System>)
    requires Initial(y0)
    ensures |ys| == 6 && ys[0] == y0 && Run(ys, [FIRST, Tick, FIRST, FIRST, Kill(2)])
    ensures Stands(ys[5], {0, 14}, 0, 3, FRAMES - 4, {0, 2}) && Carries(ys[5], 15, 2, 1)
  {
    hide Sane, Legal, Happens, Stands, Carries, CarriedOn, Chosen;
    InitialStands(y0);
    InitialChosen(y0);
    var y1 := Spawned(y0, {}, -1, 0, FRAMES - 1, {}, 0, 0);
    var y2 := Ticked(y1, {} + {0}, -1, 1, FRAMES - 2, {} + {0}, 0);
    LiveChosen(y2, {0}, 0, 1, FRAMES - 2, {0}, 15);
    var y3 := Spawned(y2, {0}, 0, 1, FRAMES - 2, {0}, 15, 1);
    assert {0} + {15} == {0, 15} && {0} + {1} == {0, 1};
    LiveChosen(y3, {0, 15}, 0, 2, FRAMES - 3, {0, 1}, 14);
    var y4 := Spawned(y3, {0, 15}, 0, 2, FRAMES - 3, {0, 1}, 14, 2);
    StillCarried(y3, 14, y4, 15, 2, 1);
    var y5 := KilledLive(y4, {0, 15} + {14}, 0, 3, FRAMES - 4, {0, 1} + {2}, 15, 2, 1);
    assert {0, 15} + {14} - {15} == {0, 14} && {0, 1} + {2} - {1} == {0, 2};
    ys := [y0, y1, y2, y3, y4, y5];
  }

  lemma StillCarried(y: System, but: int, y': System, i: int, pid: int, d: nat)
    requires CarriedOn(y, but, y') && i != but && Carries(y, i, pid, d)
    ensures Carries(y', i, pid, d)
  {
  }

  lemma InitialChosen(y: System)
    requires Initial(y)
    ensures Chosen(y, 0)
  {
    hide Sane;
  }

  lemma LiveChosen(y: System, live: set<int>, current: int, pid: int, free: nat, used: set<int>, slot: int)
    requires Stands(y, live, current, pid, free, used) && live != {}
    requires 0 <= current < PROCESSES && 0 <= slot < PROCESSES
    requires forall j :: 0 <= j < PROCESSES && StepsDown(DownFrom(current), j) < StepsDown(DownFrom(current), slot) ==>
      j in live
    ensures Chosen(y, slot)
  {
    hide Consistent, PidsUnique, DirectoriesHeld, PagesNoted, OneRunning, Chosen;
    OnlyAbove(y, live, current, slot);
  }

  /** From the initial state seven legal events lead to a state in order in which the emptied slot
      15 carries pid 2 and the page directory of the live process in slot 13; the next destruction
      of pid 2 takes that directory away. */
  lemma StaleReachable(y0: System) returns (ys: seq<System>, es: seq<Event>, y': System)
    requires Initial(y0)
    ensures Run(ys, es) && ys[0] == y0 && |es| == 7 && Sane(ys[7])
    ensures !ys[7].pcbs[15].active && ys[7].pcbs[13].active && ys[7].pcbs[15].directory == ys[7].pcbs[13].directory
    ensures Happens(ys[7], Kill(2), y') && y'.pcbs[13].active && !y'.mem.used[y'.pcbs[13].directory.index]
  {
    hide Sane, Legal, Happens, Stands, Carries, CarriedOn, Chosen;
    var zs := SecondKilled(y0);
    var y6 := Ticked(zs[5], {0, 14}, 0, 3, FRAMES - 4, {0, 2}, 14);
    StillCarried(zs[5], -1, y6, 15, 2, 1);
    LiveChosen(y6, {0, 14}, 14, 3, FRAMES - 4, {0, 2}, 13);
    var y7 := Spawned(y6, {0, 14}, 14, 3, FRAMES - 4, {0, 2}, 13, 1);
    StillCarried(y6, 13, y7, 15, 2, 1);
    ys := zs + [y6, y7];
    es := [FIRST, Tick, FIRST, FIRST, Kill(2)] + [Tick, FIRST];
    RunsJoin(zs, [FIRST, Tick, FIRST, FIRST, Kill(2)], [y6, y7], [Tick, FIRST]);
    y' := StaleKill(y7, {0, 14} + {13}, 14, 4, FRAMES - 5, {0, 2} + {1});
  }

  lemma RunsJoin(ys: seq<System>, es: seq<Event>, zs: seq<System>, fs: seq<Event>)
    requires |ys| > 0 && Run(ys, es) && Run([ys[|ys| - 1]] + zs, fs)
    ensures Run(ys + zs, es + fs)
  {
    hide Consistent, PidsUnique, DirectoriesHeld, PagesNoted, OneRunning, Legal, Happens;
    var all, ev, tail := ys + zs, es + fs, [ys[|ys| - 1]] + zs;
    forall k | 0 <= k < |ev| && Sane(all[k]) ensures Legal(all[k], ev[k]) && Happens(all[k], ev[k], all[k + 1]) {
      if k < |es| {
        assert all[k] == ys[k] && all[k + 1] == ys[k + 1] && ev[k] == es[k];
      } else {
        assert all[k] == tail[k - |es|] && all[k + 1] == tail[k - |es| + 1] && ev[k] == fs[k - |es|];
      }
    }
  }

  lemma StaleKill(y: System, live: set<int>, current: int, pid: int, free: nat, used: set<int>) returns (y': System)
    requires Stands(y, live, current, pid, free, used) && 13 in live && 15 !in live && 1 in used
    requires Carries(y, 15, 2, 1) && Carries(y, 13, 4, 1)
    ensures Sane(y) && !y.pcbs[15].active && y.pcbs[13].active && y.pcbs[15].directory == y.pcbs[13].directory
    ensures Happens(y, Kill(2), y') && |y'.pcbs| == PROCESSES && Shape(y'.mem)
    ensures y'.pcbs[13].active && y'.pcbs[13].directory == Pool(1) && !y'.mem.used[1]
  {
    hide Consistent, PidsUnique, DirectoriesHeld, PagesNoted, OneRunning, Retired;
    assert 15 !in ActiveSlots(y.pcbs) && 13 in ActiveSlots(y.pcbs);
    y' := Killed(y, 15, 2, 1);
    DestroyedSpares(y, 15, 13, y');
  }
}
