/** The round-robin scheduler, and what holds over whole runs of creating, destroying and
    switching processes. */
module Scheduler {
  import opened Bytes
  import opened Bitmap
  import opened Paging
  import opened Process

  function Wrap(i: int): (j: int)
    requires 0 <= i
    ensures 0 <= j < PROCESSES
  {
    i % PROCESSES
  }

  // Steps up, around the table, from i to j.
  function StepsUp(i: int, j: int): int { if i <= j then j - i else j - i + PROCESSES }

  // The active slots among p, p + 1, ..., p + n - 1 (around the table), in that order.
  function Scan(active: seq<bool>, p: nat, n: nat): (s: seq<int>)
    requires |active| == PROCESSES
    ensures forall j :: j in s ==> 0 <= j < PROCESSES
    decreases n
  {
    if n == 0 then []
    else (if active[Wrap(p)] then [Wrap(p)] else []) + Scan(active, p + 1, n - 1)
  }

  // The first active slot among p, ..., p + n - 1, or -1.
  function Search(active: seq<bool>, p: nat, n: nat): (j: int)
    requires |active| == PROCESSES
    ensures j == -1 || (0 <= j < PROCESSES && active[j])
    decreases n
  {
    if n == 0 then -1 else if active[Wrap(p)] then Wrap(p) else Search(active, p + 1, n - 1)
  }

  // The next active slot after slot i, around the table, i itself coming last.
  function Next(active: seq<bool>, i: int): int
    requires |active| == PROCESSES && i >= -1
  {
    Search(active, i + 1, PROCESSES)
  }

  lemma StepsShift(p: nat, j: int)
    requires 0 <= j < PROCESSES
    ensures if j == Wrap(p) then StepsUp(Wrap(p), j) == 0 && StepsUp(Wrap(p + 1), j) == PROCESSES - 1
            else StepsUp(Wrap(p), j) == StepsUp(Wrap(p + 1), j) + 1
  {
  }

  /** A scan lists exactly the active slots of its range. */
  lemma {:induction false} ScanHas(active: seq<bool>, p: nat, n: nat, j: int)
    requires |active| == PROCESSES && n <= PROCESSES && 0 <= j < PROCESSES
    ensures j in Scan(active, p, n) <==> active[j] && StepsUp(Wrap(p), j) < n
    decreases n
  {
    hide Wrap, StepsUp;
    Steps(Wrap(p), j);
    if n > 0 {
      ScanHas(active, p + 1, n - 1, j);
      StepsShift(p, j);
    }
  }

  /** A scan lists its slots in cyclic order, so none twice. */
  lemma {:induction false} ScanOrdered(active: seq<bool>, p: nat, n: nat)
    requires |active| == PROCESSES && n <= PROCESSES
    ensures InOrder(Scan(active, p, n), p)
    decreases n
  {
    hide Wrap, StepsUp;
    if n > 0 {
      ScanOrdered(active, p + 1, n - 1);
      var head, rest, all := Wrap(p), Scan(active, p + 1, n - 1), Scan(active, p, n);
      var shift := if active[head] then 1 else 0;
      forall a, b | 0 <= a < b < |all| ensures StepsUp(Wrap(p), all[a]) < StepsUp(Wrap(p), all[b]) {
        assert all[b] == rest[b - shift];
        FurtherOn(active, p, n, rest[b - shift]);
        if a >= shift {
          assert all[a] == rest[a - shift];
          FurtherOn(active, p, n, rest[a - shift]);
        } else {
          StepsShift(p, head);
        }
      }
    }
  }

  lemma FurtherOn(active: seq<bool>, p: nat, n: nat, j: int)
    requires |active| == PROCESSES && 0 < n <= PROCESSES && j in Scan(active, p + 1, n - 1)
    ensures 0 <= StepsUp(Wrap(p + 1), j) && StepsUp(Wrap(p), j) == StepsUp(Wrap(p + 1), j) + 1
  {
    hide Wrap, StepsUp;
    ScanHas(active, p + 1, n - 1, j);
    StepsShift(p, j);
    Steps(Wrap(p + 1), j);
  }

  // Each element lies further from p than the one before it.
  predicate InOrder(s: seq<int>, p: nat) {
    forall a, b :: 0 <= a < b < |s| ==> StepsUp(Wrap(p), s[a]) < StepsUp(Wrap(p), s[b])
  }

  lemma Steps(i: int, j: int)
    requires 0 <= i < PROCESSES && 0 <= j < PROCESSES
    ensures 0 <= StepsUp(i, j) < PROCESSES
  {
  }

  lemma {:induction false} SearchWraps(active: seq<bool>, a: nat, b: nat, n: nat)
    requires |active| == PROCESSES && Wrap(a) == Wrap(b)
    ensures Search(active, a, n) == Search(active, b, n)
    decreases n
  {
    hide Wrap;
    if n > 0 {
      WrapStep(a);
      WrapStep(b);
      SearchWraps(active, a + 1, b + 1, n - 1);
    }
  }

  // The slots that k switches in a row pick, starting from slot i.
  function Picks(active: seq<bool>, i: int, k: nat): (s: seq<int>)
    requires |active| == PROCESSES && i >= -1
    ensures |s| == k
    decreases k
  {
    if k == 0 then [] else [Next(active, i)] + Picks(active, Next(active, i), k - 1)
  }

  // q is the slot picked last, and the search from there has come to p without a find.
  lemma {:induction false} PicksFollowScan(active: seq<bool>, q: int, p: nat, n: nat, r: nat)
    requires |active| == PROCESSES && q >= -1 && n <= r <= PROCESSES
    requires Next(active, q) == Search(active, p, r)
    ensures Picks(active, q, |Scan(active, p, n)|) == Scan(active, p, n)
    decreases n
  {
    hide Wrap, Search;
    if n > 0 {
      SearchHead(active, p, r);
      ScanHead(active, p, n);
      if active[Wrap(p)] {
        WrapTwice(p);
        SearchWraps(active, Wrap(p) + 1, p + 1, PROCESSES);
        PicksFollowScan(active, Wrap(p), p + 1, n - 1, PROCESSES);
      } else {
        PicksFollowScan(active, q, p + 1, n - 1, r - 1);
      }
    }
  }

  lemma SearchHead(active: seq<bool>, p: nat, r: nat)
    requires |active| == PROCESSES && 0 < r
    ensures Search(active, p, r) == if active[Wrap(p)] then Wrap(p) else Search(active, p + 1, r - 1)
  {
    hide Wrap;
  }

  lemma ScanHead(active: seq<bool>, p: nat, n: nat)
    requires |active| == PROCESSES && 0 < n
    ensures Scan(active, p, n) == (if active[Wrap(p)] then [Wrap(p)] else []) + Scan(active, p + 1, n - 1)
    ensures |Scan(active, p, n)| == (if active[Wrap(p)] then 1 else 0) + |Scan(active, p + 1, n - 1)|
    ensures !active[Wrap(p)] ==> Scan(active, p, n) == Scan(active, p + 1, n - 1)
  {
    hide Wrap;
  }

  lemma WrapTwice(p: nat)
    ensures Wrap(Wrap(p) + 1) == Wrap(p + 1)
  {
  }

  lemma {:induction false} DistinctSize(s: seq<int>, t: set<int>)
    requires forall j :: j in s <==> j in t
    requires forall a, b :: 0 <= a < b < |s| ==> s[a] != s[b]
    ensures |s| == |t|
  {
    if s != [] {
      var front, last := s[..|s| - 1], s[|s| - 1];
      assert s == front + [last];
      forall j ensures j in front <==> j in t - {last} {
        assert j in s <==> j in front || j == last;
      }
      DistinctSize(front, t - {last});
      assert last in t;
    } else {
      forall j ensures j !in t {
        assert j in s <==> j in t;
      }
    }
  }

  function Flags(pcbs: seq<Pcb>): (f: seq<bool>)
    ensures |f| == |pcbs| && forall i :: 0 <= i < |pcbs| ==> f[i] == pcbs[i].active
  {
    seq(|pcbs|, i requires 0 <= i < |pcbs| => pcbs[i].active)
  }

  /** Round robin: as many switches as there are active processes pick each of them exactly
      once, in cyclic order, and come back to where they started. */
  lemma RoundRobin(pcbs: seq<Pcb>, i: int)
    requires |pcbs| == PROCESSES && -1 <= i < PROCESSES
    ensures var s := Picks(Flags(pcbs), i, |ActiveSlots(pcbs)|);
      && (forall j :: j in s <==> j in ActiveSlots(pcbs))
      && (forall a, b :: 0 <= a < b < |s| ==> s[a] != s[b])
      && InOrder(s, i + 1)
      && (i in ActiveSlots(pcbs) ==> s[|s| - 1] == i)
  {
    hide Wrap, StepsUp, Picks, Scan;
    var active := Flags(pcbs);
    var s := Scan(active, i + 1, PROCESSES);
    forall j ensures j in s <==> j in ActiveSlots(pcbs) {
      if 0 <= j < PROCESSES {
        ScanHas(active, i + 1, PROCESSES, j);
        Steps(Wrap(i + 1), j);
      }
    }
    ScanOrdered(active, i + 1, PROCESSES);
    DistinctSize(s, ActiveSlots(pcbs));
    PicksFollowScan(active, i, i + 1, PROCESSES, PROCESSES);
    if i in ActiveSlots(pcbs) {
      var a :| 0 <= a < |s| && s[a] == i;
      LastOne(i);
      assert s[|s| - 1] in s;
      Steps(Wrap(i + 1), s[|s| - 1]);
    }
  }

  lemma LastOne(i: int)
    requires 0 <= i < PROCESSES
    ensures StepsUp(Wrap(i + 1), i) == PROCESSES - 1
  {
  }

  function Put(pcbs: seq<Pcb>, i: int, state: State): seq<Pcb> {
    if 0 <= i < |pcbs| then pcbs[i := pcbs[i].(state := state)] else pcbs
  }

  ghost predicate Switched(y: System, y': System)
    requires |y.pcbs| == PROCESSES && y.current >= -1
  {
    var j := Next(Flags(y.pcbs), y.current);
    && 0 <= j < PROCESSES && y.pcbs[j].active
    && y' == y.(current := j, cr3 := y.pcbs[j].directory, pcbs := Put(Put(y.pcbs, y.current, READY), j, RUNNING))
  }

  // The same processes, in other states.
  predicate SameButState(pcbs: seq<Pcb>, pcbs': seq<Pcb>) {
    && |pcbs'| == |pcbs|
    && forall i :: 0 <= i < |pcbs| ==> pcbs'[i] == pcbs[i].(state := pcbs'[i].state)
  }

  lemma StateKeeps(y: System, y': System)
    requires Shape(y.mem) && PidsUnique(y) && DirectoriesHeld(y) && PagesNoted(y)
    requires SameButState(y.pcbs, y'.pcbs) && y'.mem == y.mem && y'.lastPid == y.lastPid
    ensures PidsUnique(y') && PagesNoted(y') && DirectoriesHeld(y')
    ensures ActiveSlots(y'.pcbs) == ActiveSlots(y.pcbs)
  {
    hide PcbNoted;
    forall i | 0 <= i < |y'.pcbs| ensures PcbNoted(y'.pcbs[i]) {
      StateNoted(y.pcbs[i], y'.pcbs[i].state);
    }
    hide PagesNoted;
    forall d | 0 <= d < DIRECTORIES && y'.mem.used[d]
      ensures exists i :: 0 <= i < |y'.pcbs| && Holds(y'.pcbs[i], d)
    {
      var i :| 0 <= i < |y.pcbs| && Holds(y.pcbs[i], d);
      assert Holds(y'.pcbs[i], d);
    }
  }

  lemma StateNoted(p: Pcb, state: State)
    requires PcbNoted(p)
    ensures PcbNoted(p.(state := state))
  {
  }

  lemma CurrentDirectory(y: System, j: int)
    requires Shape(y.mem) && DirectoriesHeld(y) && 0 <= j < |y.pcbs| && y.pcbs[j].active
    ensures y.pcbs[j].directory.Pool? && y.mem.used[y.pcbs[j].directory.index]
  {
  }

  /** After a switch the picked process is the only active one that runs, the one that ran before is
      ready unless it was picked again, the others are as they were, and the page directory register
      holds the picked one's directory, which is in use. */
  lemma SwitchedSane(y: System, y': System)
    requires Sane(y) && Switched(y, y')
    ensures Sane(y') && ActiveSlots(y'.pcbs) == ActiveSlots(y.pcbs)
    ensures forall i :: 0 <= i < PROCESSES && y'.pcbs[i].active ==>
      (y'.pcbs[i].state == RUNNING <==> i == y'.current)
    ensures y.current >= 0 && y.current != y'.current ==> y'.pcbs[y.current].state == READY
    ensures forall i :: 0 <= i < PROCESSES && i != y.current && i != y'.current ==> y'.pcbs[i] == y.pcbs[i]
    ensures y'.cr3.Pool? && y'.mem.used[y'.cr3.index] && Holds(y'.pcbs[y'.current], y'.cr3.index)
  {
    hide Consistent, Next, PidsUnique, DirectoriesHeld, PagesNoted;
    StateKeeps(y, y');
    CurrentDirectory(y, y'.current);
  }

  // The search from p has come to idx after t steps; goal is an active slot further on.
  ghost predicate Searching(active: seq<bool>, p: nat, t: nat, idx: int, goal: int)
    requires |active| == PROCESSES
  {
    && t < PROCESSES && idx == Wrap(p + t) && 0 <= goal < PROCESSES && active[goal]
    && Search(active, p, PROCESSES) == Search(active, p + t, PROCESSES - t)
    && t + StepsUp(idx, goal) == StepsUp(Wrap(p), goal)
  }

  lemma SearchStarts(active: seq<bool>, p: nat, goal: int)
    requires |active| == PROCESSES && 0 <= goal < PROCESSES && active[goal]
    ensures Searching(active, p, 0, p % PROCESSES, goal)
  {
    hide Search, StepsUp;
  }

  lemma SearchGoesOn(active: seq<bool>, p: nat, t: nat, idx: int, goal: int)
    requires |active| == PROCESSES && Searching(active, p, t, idx, goal) && !active[idx]
    ensures Searching(active, p, t + 1, (idx + 1) % PROCESSES, goal)
  {
    StepsShift(p + t, goal);
    WrapStep(p + t);
    hide Wrap, StepsUp;
    Steps(Wrap(p + t + 1), goal);
    Steps(Wrap(p), goal);
    assert p + t + 1 == p + (t + 1);
  }

  // The search stops because some slot is active.
  method FindNext(pm: ProcessManager) returns (idx: int)
    requires pm.Valid() && Sane(pm.View()) && pm.active > 0
    ensures 0 <= idx < PROCESSES && pm.pcbs[idx].active && idx == Next(Flags(pm.pcbs[..]), pm.current)
  {
    hide Consistent, PidsUnique, DirectoriesHeld, PagesNoted, OneRunning, Wrap, StepsUp, Searching;
    ghost var active, p := Flags(pm.pcbs[..]), pm.current + 1;
    ghost var goal :| goal in ActiveSlots(pm.pcbs[..]);
    idx := (pm.current + 1) % PROCESSES;
    ghost var t := 0;
    SearchStarts(active, p, goal);
    while !pm.pcbs[idx].active
      invariant 0 <= idx < PROCESSES && t < PROCESSES && Searching(active, p, t, idx, goal)
      decreases PROCESSES - t
    {
      SearchGoesOn(active, p, t, idx, goal);
      SearchBound(active, p, t + 1, (idx + 1) % PROCESSES, goal);
      idx := (idx + 1) % PROCESSES;
      t := t + 1;
    }
    SearchStops(active, p, t, idx, goal);
  }

  lemma SearchBound(active: seq<bool>, p: nat, t: nat, idx: int, goal: int)
    requires |active| == PROCESSES && Searching(active, p, t, idx, goal)
    ensures t < PROCESSES
  {
  }

  lemma SearchStops(active: seq<bool>, p: nat, t: nat, idx: int, goal: int)
    requires |active| == PROCESSES && Searching(active, p, t, idx, goal) && active[idx]
    ensures Search(active, p, PROCESSES) == idx
  {
    hide Wrap, StepsUp;
  }

  lemma WrapStep(p: nat)
    ensures Wrap(p) == p % PROCESSES && Wrap(p + 1) == (Wrap(p) + 1) % PROCESSES
  {
  }

  /** From the initial state there is no current slot yet, so nothing is set back to READY. */
  method SwitchToNext(pm: ProcessManager)
    requires pm.Valid() && Sane(pm.View()) && pm.active > 0
    modifies pm`current, pm.pages`cr3, pm.pcbs
    ensures pm.Valid() && Sane(pm.View()) && Switched(old(pm.View()), pm.View())
  {
    hide Consistent, PidsUnique, DirectoriesHeld, PagesNoted, OneRunning, Next;
    ghost var y := pm.View();
    var idx := FindNext(pm);
    if pm.current >= 0 {
      pm.pcbs[pm.current] := pm.pcbs[pm.current].(state := READY);
    }
    pm.pages.cr3 := pm.pcbs[idx].directory;
    pm.current := idx;
    pm.pcbs[idx] := pm.pcbs[idx].(state := RUNNING);
    assert Switched(y, pm.View());
    hide Switched;
    SwitchedSane(y, pm.View());
  }

  /** Fairness over runs: from a state in order, each switch of a stretch of switches picks the
      slot that RoundRobin speaks about. */
  lemma {:induction false} TicksPick(ys: seq<System>, n: nat)
    requires 1 <= n < |ys| && Sane(ys[0])
    requires forall k :: 0 <= k < |ys| - 1 ==> Sane(ys[k]) ==> Switched(ys[k], ys[k + 1])
    ensures Sane(ys[n]) && Flags(ys[n].pcbs) == Flags(ys[0].pcbs)
    ensures forall m :: n <= m ==> Picks(Flags(ys[0].pcbs), ys[0].current, m)[n - 1] == ys[n].current
    decreases n
  {
    hide Consistent, PidsUnique, DirectoriesHeld, PagesNoted, OneRunning, Next;
    var y0, y1 := ys[0], ys[1];
    assert Switched(y0, y1);
    SwitchedSane(y0, y1);
    assert Flags(y1.pcbs) == Flags(y0.pcbs);
    if n > 1 {
      forall k | 0 <= k < |ys| - 2 ensures Sane(ys[1..][k]) ==> Switched(ys[1..][k], ys[1..][k + 1]) {
        assert ys[1..][k] == ys[k + 1] && ys[1..][k + 1] == ys[k + 2];
      }
      TicksPick(ys[1..], n - 1);
      forall m | n <= m ensures Picks(Flags(y0.pcbs), y0.current, m)[n - 1] == ys[n].current {
        assert n - 1 <= m - 1;
      }
    }
  }

  datatype Event = Spawn(buf: u32, size: u32) | Kill(pid: u32) | Tick

  // What the kernel and the shell see to: a current slot exists before a second process is
  // created, only live or unknown pids are killed, and the timer needs a process.
  ghost predicate Legal(y: System, e: Event)
    requires |y.pcbs| == PROCESSES
  {
    match e
    case Spawn(_, _) => y.active == 0 || y.current >= 0
    case Kill(pid) => var i := FirstWithPid(y.pcbs, pid, 0); i < PROCESSES ==> y.pcbs[i].active
    case Tick => y.active > 0
  }

  ghost predicate Happens(y: System, e: Event, y': System)
    requires Sane(y)
  {
    match e
    case Spawn(buf, size) =>
      if CreateOutcome(y, buf, size) != 0 then y' == y
      else exists slot :: Created(y, buf, FramesNeeded(size), slot, y')
    case Kill(pid) =>
      var i := FirstWithPid(y.pcbs, pid, 0);
      if i < PROCESSES then Destroyed(y, i, y') else y' == y
    case Tick => Switched(y, y')
  }

  method Handle(pm: ProcessManager, e: Event)
    requires pm.Valid() && Sane(pm.View()) && Legal(pm.View(), e)
    modifies pm, pm.pages, pm.pages.frames, pm.pages.used, pm.pages.tables, pm.pcbs
    ensures pm.Valid() && Sane(pm.View()) && Happens(old(pm.View()), e, pm.View())
  {
    hide Consistent, PidsUnique, DirectoriesHeld, PagesNoted, OneRunning, Created, Destroyed, Switched;
    ghost var y := pm.View();
    match e {
      case Spawn(buf, size) =>
        ghost var slot;
        var rc;
        rc, slot := pm.Create(buf, size);
      case Kill(pid) =>
        var found := pm.Destroy(pid);
        if found { DestroyedSane(y, FirstWithPid(y.pcbs, pid, 0), pm.View()); }
      case Tick => SwitchToNext(pm);
    }
  }

  lemma EventKeeps(y: System, e: Event, y': System)
    requires Sane(y) && Legal(y, e) && Happens(y, e, y')
    ensures Sane(y')
  {
    hide Sane, Created, Destroyed, Switched;
    match e
    case Spawn(buf, size) =>
      if CreateOutcome(y, buf, size) == 0 {
        var slot :| Created(y, buf, FramesNeeded(size), slot, y');
        CreatedSane(y, buf, FramesNeeded(size), slot, y');
      }
    case Kill(pid) =>
      if FirstWithPid(y.pcbs, pid, 0) < PROCESSES {
        DestroyedSane(y, FirstWithPid(y.pcbs, pid, 0), y');
      }
    case Tick => SwitchedSane(y, y');
  }

  ghost predicate Run(ys: seq<System>, es: seq<Event>) {
    && |ys| == |es| + 1
    && forall k :: 0 <= k < |es| ==> Sane(ys[k]) ==> Legal(ys[k], es[k]) && Happens(ys[k], es[k], ys[k + 1])
  }

  /** Over every run the table, the pids, the directories and the frames stay in order. */
  lemma {:induction false} RunSane(ys: seq<System>, es: seq<Event>, k: nat)
    requires Run(ys, es) && Sane(ys[0]) && k <= |es|
    ensures Sane(ys[k])
  {
    hide Sane, Happens, Legal;
    if k > 0 {
      RunSane(ys, es, k - 1);
      EventKeeps(ys[k - 1], es[k - 1], ys[k]);
    }
  }

  /** Over every run each live process starts in the user half, at its first page, and what it reaches
      in user mode no other live process reaches, and never frame 0. */
  lemma RunIsolated(ys: seq<System>, es: seq<Event>, k: nat, i: int, j: int, f: nat)
    requires Run(ys, es) && Sane(ys[0]) && k <= |es|
    ensures 0 <= i < |ys[k].pcbs| && ys[k].pcbs[i].active ==>
      var p := ys[k].pcbs[i]; p.eip < 0xC000_0000 && (p.pages > 0 ==> p.addresses[0] == p.eip)
    ensures ProcessReaches(ys[k], i, f) ==> 1 <= f < FRAMES && exists s: nat :: Uses(ys[k], i, s, f)
    ensures ProcessReaches(ys[k], i, f) && ProcessReaches(ys[k], j, f) ==> i == j
  {
    hide Sane, ProcessReaches, Happens, Legal;
    RunSane(ys, es, k);
    if 0 <= i < |ys[k].pcbs| && ys[k].pcbs[i].active {
      LiveEntry(ys[k], i);
    }
    ReachesApart(ys[k], i, j, f);
  }

  lemma LiveEntry(y: System, i: int)
    requires Sane(y) && 0 <= i < |y.pcbs| && y.pcbs[i].active
    ensures var p := y.pcbs[i]; p.eip < 0xC000_0000 && (p.pages > 0 ==> p.addresses[0] == p.eip)
  {
    hide Consistent, PidsUnique, OneRunning;
    assert PcbNoted(y.pcbs[i]);
  }
}
