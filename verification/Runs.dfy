/** Whole runs of the machine: what each operation does, stated without the invariant, and what follows for any sequence
    of operations that starts in a good state. */
module Runs {
  import opened Arith
  import opened Words
  import opened Paging
  import opened Address
  import opened Mapping
  import opened Reads
  import opened Steps
  import opened Pages
  import opened UserSpace
  import opened Spaces
  import opened ElfFormat
  import opened Scheduler
  import opened World
  import Dir = Directories
  import B = Sbrk
  import E = Exec
  import T = Table
  import L = Lifecycle

  /** An operation of the running process; Load is what kernel_main does before process 0 starts. `stale` is what a fork
      that fails leaves in the slot it tried. */
  datatype Op =
    | Store(va: int, b: Byte)
    | Load(brk: int, program: Img)
    | Sbrk(brk: int)
    | Wait(ptr: int)
    | Look
    | Take
    | Open(fd: int, f: int, node: int)
    | Close(fd: int)
    | Read(fd: int, buf: int, len: int, bytes: seq<Byte>)
    | Fork(i: nat, C: int)
    | ForkRefused(i: nat, stale: T.Proc)
    | ForkFailed(i: nat, stale: T.Proc)
    | Exec(C: int, brk: int, program: Img)
    | ExecFailed
    | Exit(code: int)
    | Yield

  // ---- the effect of one operation --------------------------------------------------------------------------------

  /** What the operation does to the process table. */
  ghost function Deed(w: World, op: Op): seq<L.Act>
  {
    var p := w.queue.running;
    match op
    case Load(brk, program) => [L.Remap(p, w.cr3 * PAGE, brk)]
    case Sbrk(brk) => [L.Remap(p, w.cr3 * PAGE, brk)]
    case Wait(ptr) => [L.Wait(p)]
    case Look => [L.Look(p)]
    case Take => [L.Take(p)]
    case Open(fd, f, node) => [L.Open(p, fd, f, node)]
    case Close(fd) => [L.Close(p, fd)]
    case Read(fd, buf, len, bytes) => [L.Read(p, fd, len)]
    case Fork(i, C) => [L.Fork(p, i, C * PAGE)]
    case ForkRefused(i, stale) => [L.Refuse(p, i, stale)]
    case ForkFailed(i, stale) => [L.Abandon(p, i, stale)]
    case Exec(C, brk, program) => [L.Remap(p, C * PAGE, brk)]
    case Exit(code) => [L.Exit(p, code, w.space.kdir * PAGE)]
    case Store(va, b) => []
    case ExecFailed => []
    case Yield => []
  }

  ghost predicate TableDoes(w: World, n: World, acts: seq<L.Act>, disk: T.Disk)
  {
    if acts == [] then n.sys == w.sys
    else L.Shaped(w.sys) && L.Possible(w.sys, acts[0], disk) && n.sys == L.Next(w.sys, acts[0], disk)
  }

  /** Elementary steps aimed at the directories `mine` only, and nothing left in hand. */
  ghost predicate Moves(w: World, n: World, mine: set<int>)
  {
    Reach(w.space, n.space, mine) && NoLoose(n.space)
  }

  /** Only the running process's own space may have changed. */
  ghost predicate Own(w: World, n: World)
  {
    Moves(w, n, {w.cr3}) && n.space.dirs == w.space.dirs && n.cr3 == w.cr3 && n.saved == w.saved && n.queue == w.queue
  }

  ghost predicate Same(w: World, n: World)
  {
    n.space == w.space && n.cr3 == w.cr3 && n.saved == w.saved && n.queue == w.queue
  }

  /** Every frame has the owner it had, but for the scratch table made once; the process sees the bytes it saw. */
  ghost predicate Restored(w: World, n: World)
  {
    && Own(w, n) && Image(n.space.mem, w.cr3) == Image(w.space.mem, w.cr3)
    && exists table :: (table == 0 || table !in w.space.own) && n.space.own == Dir.WithScratch(w.space.own, table)
  }

  predicate InUser(w: World)
  {
    w.queue.running < |w.sys.pc| && w.sys.pc[w.queue.running] == L.Idle
  }

  /** The heap follows the break: new pages read zero, old bytes stay, and a growth that fails may leave pages
      behind. */
  ghost predicate HeapMoves(a: Img, b: Img, was: int, brk: int)
  {
    if was < brk then B.BytesGrown(a, b, RoundDown(was), RoundUp(brk))
    else if brk < was then B.BytesShrunk(a, b, RoundUp(brk), RoundUp(was))
    else exists reached :: B.BytesGrown(a, b, RoundDown(was), reached)
  }

  ghost predicate MemoryDoes(w: World, n: World, op: Op, disk: T.Disk)
  {
    var p := w.queue.running;
    var img, img' := Image(w.space.mem, w.cr3), Image(n.space.mem, w.cr3);
    match op
    case Store(va, b) => Own(w, n) && InUser(w) && va in img && img' == img[va := b]
    case Load(brk, program) => Own(w, n) && E.ExecImage(img', program)
    case Sbrk(brk) => Own(w, n) && p < |w.sys.t.procs| && HeapMoves(img, img', w.sys.t.procs[p].brk, brk)
    case Wait(ptr) => Same(w, n)
    case Look => Same(w, n)
    case Take =>
      && Own(w, n) && p < |w.sys.pc| && p < |w.status| && w.sys.pc[p].Taking? && 0 <= w.sys.pc[p].j < |w.sys.t.procs|
      && img' == (if w.status[p] == 0 then img
                  else PutWord(img, w.status[p], w.sys.t.procs[w.sys.pc[p].j].exitCode % WORD))
    case Open(fd, f, node) => Same(w, n)
    case Close(fd) => Same(w, n)
    case Read(fd, buf, len, bytes) => Own(w, n) && ReadAt(w.sys, p, fd, len, disk, bytes)
      && img' == img + BytesAt(buf, bytes)
    case Fork(i, C) =>
      && Moves(w, n, {}) && C != 0 && C !in w.space.dirs && n.space.dirs == w.space.dirs + {C} && n.cr3 == w.cr3
      && Image(n.space.mem, C) == img
      && i < |w.saved| && n.saved == w.saved[i := C * PAGE]
      && Sound(w.queue) && n.queue == AfterAdd(w.queue, i)
    case ForkRefused(i, stale) => Same(w, n)
    case ForkFailed(i, stale) => Restored(w, n)
    case Exec(C, brk, program) =>
      && Moves(w, n, if w.cr3 == w.space.kdir then {} else {w.cr3}) && C != 0 && C !in w.space.dirs && n.cr3 == C
      && n.space.dirs == (if w.cr3 == w.space.kdir then w.space.dirs else w.space.dirs - {w.cr3}) + {C}
      && E.ExecImage(Image(n.space.mem, C), program)
      && p < |w.saved| && n.saved == w.saved[p := C * PAGE] && n.queue == w.queue
    case ExecFailed => Restored(w, n) && InUser(w)
    case Exit(code) =>
      && Moves(w, n, {w.cr3}) && n.space.dirs == w.space.dirs - {w.cr3}
      && n.space.own == Dir.Without(w.space.own, w.cr3)
      && p != 0 && n.cr3 == w.space.kdir && p < |w.saved| && n.saved == w.saved[p := w.space.kdir * PAGE]
      && Sound(w.queue) && n.queue == After(w.queue, Left)
    case Yield => Switched(w, n)
  }

  /** The next task of the ring runs, in the directory saved for it; no byte of memory changes. */
  ghost predicate Switched(w: World, n: World)
  {
    && n.space == w.space && Sound(w.queue) && n.queue == AfterYield(w.queue)
    && (n.queue.running == w.queue.running ==> n.saved == w.saved && n.cr3 == w.cr3)
    && (n.queue.running != w.queue.running ==>
          && w.queue.running < |w.saved| && n.queue.running < |w.saved|
          && n.saved == w.saved[w.queue.running := w.cr3 * PAGE] && n.cr3 == w.saved[n.queue.running] / PAGE)
  }

  /** wait keeps its status pointer, once it is known to be good; nothing else touches one. */
  ghost predicate StatusDoes(w: World, n: World, op: Op)
  {
    if op.Wait? then
      && w.queue.running < |w.status| && n.status == w.status[w.queue.running := op.ptr]
      && (op.ptr == 0 || HasWord(Image(w.space.mem, w.cr3), op.ptr))
    else n.status == w.status
  }

  /** The whole effect of an operation. It says what the operation does, and nothing about the invariant. */
  ghost predicate Effect(w: World, n: World, op: Op, disk: T.Disk)
  {
    && (op.Yield? || w.queue.running in w.queue.ring)
    && TableDoes(w, n, Deed(w, op), disk)
    && MemoryDoes(w, n, op, disk)
    && StatusDoes(w, n, op)
  }

  /** The bytes a read through descriptor fd of process p returns. */
  ghost predicate ReadAt(s: L.Sys, p: int, fd: int, len: int, disk: T.Disk, bytes: seq<int>)
  {
    && 0 <= p < |s.t.procs| && 0 <= fd < |s.t.procs[p].fds| && 0 <= len
    && var f := s.t.procs[p].fds[fd];
      && 0 <= f < |s.t.files| && 0 <= s.t.files[f].node < |disk| && 0 <= s.t.files[f].offset
      && bytes == Chunk(disk[s.t.files[f].node], s.t.files[f].offset, len)
  }

  // ---- every operation keeps the invariant, and nobody else notices -----------------------------------------------

  lemma WorldParts(w: World, disk: T.Disk)
    requires WorldInv(w, disk)
    ensures Inv(w.space) && NoLoose(w.space) && L.SysInv(w.sys, disk) && L.Shaped(w.sys) && Sound(w.queue)
    ensures w.cr3 in w.space.dirs && |w.saved| == |w.status| == |w.sys.pc| == |w.sys.t.procs| == T.MAX_PROCS
  {
    hide Inv, Image, T.Family, T.Descriptors;
  }

  lemma OwnElsewhere(w: World, n: World)
    requires Inv(w.space) && NoLoose(w.space) && (Own(w, n) || Same(w, n))
    ensures Elsewhere(w.space, n.space, {w.cr3}) && n.space.dirs == w.space.dirs
    ensures n.cr3 == w.cr3 && n.saved == w.saved && n.queue == w.queue
  {
    hide Inv, Image, Reach, Elsewhere;
    if Same(w, n) {
      ElsewhereSelf(w.space, {w.cr3});
    } else {
      ReachElsewhere(w.space, n.space, {w.cr3});
    }
  }

  /** The act behind an operation that leaves the ring and the set of directories alone. */
  ghost function InsideAct(w: World, op: Op): L.Act
  {
    var p := w.queue.running;
    if Deed(w, op) != [] then Deed(w, op)[0]
    else L.Remap(p, w.cr3 * PAGE, if p < |w.sys.t.procs| then w.sys.t.procs[p].brk else 0)
  }

  predicate IsInside(op: Op)
  {
    !op.Fork? && !op.Exec? && !op.Exit? && !op.Yield?
  }

  lemma InsideMemory(w: World, n: World, op: Op, disk: T.Disk)
    requires MemoryDoes(w, n, op, disk) && IsInside(op)
    ensures Own(w, n) || Same(w, n)
    ensures op.Wait? || op.Look? || op.Open? || op.Close? || op.ForkRefused? ==> Same(w, n)
    ensures op.Store? || op.ExecFailed? ==> InUser(w)
  {
    hide Image, Reach, B.BytesGrown, B.BytesShrunk, PutWord, BytesAt;
  }

  lemma InsideTable(w: World, n: World, op: Op, disk: T.Disk)
    requires WorldInv(w, disk) && w.queue.running in w.queue.ring && IsInside(op)
    requires (op.Store? || op.ExecFailed? ==> InUser(w))
    requires TableDoes(w, n, Deed(w, op), disk)
    ensures w.queue.running < |w.sys.t.procs| && L.Shaped(w.sys)
    ensures var a := InsideAct(w, op);
      && L.Possible(w.sys, a, disk) && n.sys == L.Next(w.sys, a, disk) && a.p == w.queue.running
      && L.SysInv(n.sys, disk)
      && !a.Fork? && !a.Exit? && (a.Remap? ==> a.dir == w.sys.t.procs[a.p].dir)
      && a.p < |n.sys.pc| && (!op.Wait? && !op.Look? ==> n.sys.pc[a.p] == L.Idle)
  {
    hide Inv, Image, L.SysInv, NoLoose, Statuses, Sound, Placed, Tasks, T.Recount, L.Looked;
    WorldParts(w, disk);
    RunsNow(w, disk);
    var a := InsideAct(w, op);
    SysParts(w.sys, disk);
    RemapSame(w.sys, w.queue.running, disk);
    L.NextKeeps(w.sys, a, disk);
    SysParts(n.sys, disk);
    ActedPc(w.sys, a, disk);
  }

  /** Writing back the directory and break a process has changes nothing. */
  lemma RemapSame(s: L.Sys, p: int, disk: T.Disk)
    requires L.Shaped(s) && 0 <= p < |s.t.procs|
    ensures T.Remapped(s.t, p, s.t.procs[p].dir, s.t.procs[p].brk) == s.t
  {
  }

  lemma ActedPc(s: L.Sys, a: L.Act, disk: T.Disk)
    requires L.Shaped(s) && L.PcsOk(s) && L.Possible(s, a, disk) && !a.Fork? && !a.Exit?
    requires 0 <= a.p < |L.Next(s, a, disk).pc|
    ensures !a.Wait? && !a.Look? ==> L.Next(s, a, disk).pc[a.p] == L.Idle
  {
    hide T.Recount, L.Looked;
    match a
    case Take(p) => L.TakingFacts(s, p);
    case _ =>
  }

  lemma InsideStatus(w: World, n: World, op: Op, pc: L.Pc, disk: T.Disk)
    requires WorldInv(w, disk) && w.queue.running in w.queue.ring && StatusDoes(w, n, op)
    requires op.Wait? || op.Look? ==> n.space == w.space
    requires op.Look? ==> w.queue.running < |w.sys.pc| && w.sys.pc[w.queue.running].Scan?
    requires !op.Wait? && !op.Look? ==> pc == L.Idle
    ensures SameStatuses(w.status, n.status, w.queue.running) && w.queue.running < |n.status|
    ensures StatusOk(Image(n.space.mem, w.cr3), pc, n.status[w.queue.running])
  {
    hide Inv, Image, L.SysInv, Sound, Placed, Tasks, NoLoose;
    RunsNow(w, disk);
  }

  lemma LookScans(s: L.Sys, p: int, disk: T.Disk)
    requires L.Shaped(s) && L.Possible(s, L.Look(p), disk)
    ensures 0 <= p < |s.pc| && s.pc[p].Scan?
  {
  }

  lemma InsideKeeps(w: World, n: World, op: Op, disk: T.Disk)
    requires WorldInv(w, disk) && Effect(w, n, op, disk) && IsInside(op)
    ensures Unnoticed(w, n, w.queue.running, disk)
  {
    hide WorldInv, Inv, Image, L.SysInv, NoLoose, Statuses, Sound, Placed, Tasks, L.Possible, L.Next, Deed, MemoryDoes,
         TableDoes, StatusDoes, Own, Same, Elsewhere, StatusOk, SameStatuses, InsideAct;
    WorldParts(w, disk);
    InsideMemory(w, n, op, disk);
    InsideTable(w, n, op, disk);
    OwnElsewhere(w, n);
    var a := InsideAct(w, op);
    if op.Look? {
      LookAct(w, op, disk);
    }
    if op.Wait? || op.Look? {
      SameSpace(w, n);
    }
    InsideStatus(w, n, op, n.sys.pc[a.p], disk);
    InsideStep(w, n, a, disk);
  }

  lemma SameSpace(w: World, n: World)
    requires Same(w, n)
    ensures n.space == w.space
  {
  }

  lemma LookAct(w: World, op: Op, disk: T.Disk)
    requires op.Look? && w.queue.running < |w.sys.t.procs| && L.Shaped(w.sys)
    requires L.Possible(w.sys, InsideAct(w, op), disk)
    ensures w.queue.running < |w.sys.pc| && w.sys.pc[w.queue.running].Scan?
  {
    LookScans(w.sys, w.queue.running, disk);
  }

  lemma ForkKeeps(w: World, n: World, i: nat, C: int, disk: T.Disk)
    requires WorldInv(w, disk) && Effect(w, n, Fork(i, C), disk)
    ensures Unnoticed(w, n, w.queue.running, disk)
  {
    hide Inv, Image, L.SysInv, NoLoose, Statuses, Placed, Tasks, L.Possible, L.Next, Elsewhere, StatusOk, Reach, Sound,
         Current;
    var p := w.queue.running;
    WorldParts(w, disk);
    L.NextKeeps(w.sys, L.Fork(p, i, C * PAGE), disk);
    ReachWider(w.space, n.space, {}, {C});
    ReachElsewhere(w.space, n.space, {C});
    ForkFits(w, i, p, C, disk);
    AfterSound(w.queue, Added(i));
    ForkStep(w, n, p, i, C, disk);
  }

  /** The slot is in the table, and its task is not in the ring yet. */
  lemma ForkFits(w: World, i: nat, p: int, C: int, disk: T.Disk)
    requires WorldInv(w, disk) && w.queue.running in w.queue.ring
    requires L.Shaped(w.sys) && L.Possible(w.sys, L.Fork(p, i, C * PAGE), disk)
    ensures i < T.MAX_PROCS && Possible(w.queue, Added(i))
  {
    hide Inv, Image, L.SysInv, NoLoose, Statuses, Placed, Sound;
    assert i in w.queue.ring <==> IsRun(w.sys.t.procs, i);
  }

  lemma ExecKeeps(w: World, n: World, C: int, brk: int, program: Img, disk: T.Disk)
    requires WorldInv(w, disk) && Effect(w, n, Exec(C, brk, program), disk)
    ensures Unnoticed(w, n, w.queue.running, disk)
  {
    hide Inv, Image, L.SysInv, NoLoose, Statuses, Placed, Tasks, L.Possible, L.Next, Elsewhere, StatusOk, Reach, Sound,
         Current, E.ExecImage;
    var p := w.queue.running;
    WorldParts(w, disk);
    L.NextKeeps(w.sys, L.Remap(p, C * PAGE, brk), disk);
    var mine := if w.cr3 == w.space.kdir then {} else {w.cr3};
    ReachWider(w.space, n.space, mine, mine + {C});
    ReachElsewhere(w.space, n.space, mine + {C});
    assert mine + {C} == if w.cr3 == w.space.kdir then {C} else {w.cr3, C};
    RunsNow(w, disk);
    ExecStep(w, n, p, C, brk, disk);
  }

  lemma ExitKeeps(w: World, n: World, code: int, disk: T.Disk)
    requires WorldInv(w, disk) && Effect(w, n, Exit(code), disk)
    ensures Unnoticed(w, n, w.queue.running, disk)
  {
    hide Inv, Image, L.SysInv, NoLoose, Statuses, Placed, Tasks, L.Possible, L.Next, Elsewhere, StatusOk, Reach, Sound,
         Current, Dir.Without, After;
    var p := w.queue.running;
    WorldParts(w, disk);
    L.NextKeeps(w.sys, L.Exit(p, code, w.space.kdir * PAGE), disk);
    ReachElsewhere(w.space, n.space, {w.cr3});
    RunsNow(w, disk);
    AfterSound(w.queue, Left);
    ExitStep(w, n, p, code, disk);
  }

  lemma YieldKeeps(w: World, n: World, disk: T.Disk)
    requires WorldInv(w, disk) && Effect(w, n, Yield, disk)
    ensures WorldInv(n, disk) && forall p :: Unnoticed(w, n, p, disk)
  {
    hide WorldInv, Unnoticed;
    YieldStep(w, n, disk);
  }

  lemma UnnoticedInv(w: World, n: World, disk: T.Disk)
    ensures forall p {:trigger Unnoticed(w, n, p, disk)} :: Unnoticed(w, n, p, disk) ==> WorldInv(n, disk)
  {
    hide WorldInv, Elsewhere;
  }

  /** Whatever the operation, the invariant holds again: every frame has one owner and is free exactly when it has none,
      each running process has its directory and its task, the table and its log are sound; and every other process
      sees the same bytes and has the same break, descriptors and place in the kernel. */
  lemma EffectKeeps(w: World, n: World, op: Op, disk: T.Disk)
    requires WorldInv(w, disk) && Effect(w, n, op, disk)
    ensures WorldInv(n, disk) && Unnoticed(w, n, w.queue.running, disk)
    ensures op.Yield? ==> forall p :: Unnoticed(w, n, p, disk)
  {
    hide WorldInv, Effect, Unnoticed;
    UnnoticedInv(w, n, disk);
    match op
    case Fork(i, C) => ForkKeeps(w, n, i, C, disk);
    case Exec(C, brk, program) => ExecKeeps(w, n, C, brk, program, disk);
    case Exit(code) => ExitKeeps(w, n, code, disk);
    case Yield => YieldKeeps(w, n, disk);
    case _ => InsideKeeps(w, n, op, disk);
  }

  /** After anything but exit and yield the same process runs; and it is back in user mode unless it waits. */
  lemma StillRunning(w: World, n: World, op: Op, disk: T.Disk)
    requires WorldInv(w, disk) && Effect(w, n, op, disk) && !op.Yield? && !op.Exit?
    ensures n.queue.running == w.queue.running && w.queue.running in n.queue.ring && w.queue.running < |n.sys.pc|
    ensures w.queue.running < T.MAX_PROCS == |n.sys.pc|
    ensures !op.Wait? && !op.Look? ==> n.sys.pc[w.queue.running] == L.Idle
  {
    hide WorldInv, Inv, Image, L.SysInv, NoLoose, Statuses, Sound, Placed, Tasks, L.Possible, L.Next, Deed, TableDoes,
         StatusDoes, Own, Same, Elsewhere, StatusOk, SameStatuses, InsideAct, Reach, E.ExecImage, AfterAdd;
    WorldParts(w, disk);
    RunsNow(w, disk);
    EffectKeeps(w, n, op, disk);
    WorldParts(n, disk);
    if IsInside(op) {
      InsideMemory(w, n, op, disk);
      InsideTable(w, n, op, disk);
      OwnElsewhere(w, n);
    } else if op.Fork? {
      ForkRuns(w, n, op.i, op.C, disk);
    } else {
      ExecRuns(w, n, op, disk);
    }
  }

  lemma ForkRuns(w: World, n: World, i: nat, C: int, disk: T.Disk)
    requires WorldInv(w, disk) && Effect(w, n, Fork(i, C), disk) && w.queue.running < |n.sys.pc|
    ensures n.queue.running == w.queue.running && w.queue.running in n.queue.ring && n.sys.pc[w.queue.running] == L.Idle
  {
    hide Inv, Image, L.SysInv, NoLoose, Statuses, Placed, Tasks, Reach, T.Recount, L.PcsOk;
    assert n.queue.ring[0] == w.queue.running;
  }

  lemma ExecRuns(w: World, n: World, op: Op, disk: T.Disk)
    requires WorldInv(w, disk) && Effect(w, n, op, disk) && op.Exec? && w.queue.running < |n.sys.pc|
    ensures n.queue == w.queue && n.sys.pc[w.queue.running] == L.Idle
  {
    hide Inv, Image, L.SysInv, NoLoose, Statuses, Placed, Tasks, Reach, Sound, L.PcsOk, E.ExecImage;
  }

  // ---- whole runs -------------------------------------------------------------------------------------------------

  /** A run: each state comes from the one before by the effect of the operation listed for it. */
  ghost predicate Run(ws: seq<World>, ops: seq<Op>, disk: T.Disk)
  {
    |ws| == |ops| + 1 && forall k {:trigger ops[k]} :: 0 <= k < |ops| ==> Effect(ws[k], ws[k + 1], ops[k], disk)
  }

  lemma {:induction false} RunInv(ws: seq<World>, ops: seq<Op>, disk: T.Disk, k: nat)
    requires Run(ws, ops, disk) && WorldInv(ws[0], disk) && k <= |ops|
    ensures WorldInv(ws[k], disk)
    decreases k
  {
    hide WorldInv, Effect;
    if k > 0 {
      RunInv(ws, ops, disk, k - 1);
      assert Effect(ws[k - 1], ws[k], ops[k - 1], disk);
      EffectKeeps(ws[k - 1], ws[k], ops[k - 1], disk);
    }
  }

  lemma RunStep(ws: seq<World>, ops: seq<Op>, disk: T.Disk, k: nat)
    requires Run(ws, ops, disk) && WorldInv(ws[0], disk) && k < |ops|
    ensures WorldInv(ws[k], disk) && Unnoticed(ws[k], ws[k + 1], ws[k].queue.running, disk)
    ensures var w, n := ws[k], ws[k + 1]; ops[k].Yield? ==> forall p :: Unnoticed(w, n, p, disk)
  {
    hide WorldInv, Effect, Unnoticed;
    RunInv(ws, ops, disk, k);
    assert Effect(ws[k], ws[k + 1], ops[k], disk);
    EffectKeeps(ws[k], ws[k + 1], ops[k], disk);
  }

  /** v performs none of the operations from the j-th up to the k-th. It may be switched to and away from. */
  ghost predicate Passive(ws: seq<World>, ops: seq<Op>, v: int, j: nat, k: nat)
    requires |ws| > |ops| && k <= |ops|
  {
    forall i {:trigger ops[i]} :: j <= i < k ==> ops[i].Yield? || ws[i].queue.running != v
  }

  /** What belongs to process v in w is the same in n: its address space, byte by byte, its break, its descriptors, its
      place in the kernel and its wait pointer. */
  ghost predicate Intact(w: World, n: World, v: int)
  {
    && Kept(w.sys, n.sys, v) && IsRun(n.sys.t.procs, v)
    && DirOfProc(w.sys.t.procs, v) in n.space.dirs
    && Image(n.space.mem, DirOfProc(w.sys.t.procs, v)) == Image(w.space.mem, DirOfProc(w.sys.t.procs, v))
    && 0 <= v < |w.status| == |n.status| && n.status[v] == w.status[v]
  }

  /** Isolation over whole runs: whatever the others do (stores, sbrk, wait, open, close, read, fork, execve, exit, and
      any of them failing) and however the tasks are switched, a process that does not act stays intact. */
  lemma {:induction false} Isolation(ws: seq<World>, ops: seq<Op>, disk: T.Disk, v: int, j: nat, k: nat)
    requires Run(ws, ops, disk) && WorldInv(ws[0], disk) && j <= k <= |ops|
    requires IsRun(ws[j].sys.t.procs, v) && Passive(ws, ops, v, j, k)
    ensures Intact(ws[j], ws[k], v)
    decreases k - j
  {
    hide WorldInv, Effect, Unnoticed, Image;
    if k == j {
      RunInv(ws, ops, disk, j);
      StartIntact(ws[j], disk, v);
    } else {
      Isolation(ws, ops, disk, v, j, k - 1);
      RunStep(ws, ops, disk, k - 1);
      RunInv(ws, ops, disk, k);
      var p := if ops[k - 1].Yield? then -1 else ws[k - 1].queue.running as int;
      assert Unnoticed(ws[k - 1], ws[k], p, disk);
      StayIntact(ws[k - 1], ws[k], p, disk, v);
      SameDir(ws[j].sys.t.procs, ws[k - 1].sys.t.procs, v);
    }
  }

  lemma StartIntact(w: World, disk: T.Disk, v: int)
    requires WorldInv(w, disk) && IsRun(w.sys.t.procs, v)
    ensures Intact(w, w, v)
  {
    hide Inv, Image, NoLoose, DirOfProc, Sound, Tasks;
    PlacedFacts(w.sys.t.procs, w.space, w.saved, v);
  }

  lemma StayIntact(w: World, n: World, p: int, disk: T.Disk, v: int)
    requires WorldInv(w, disk) && WorldInv(n, disk) && Unnoticed(w, n, p, disk) && v != p && IsRun(w.sys.t.procs, v)
    ensures Intact(w, n, v)
  {
    hide WorldInv, Image, DirOfProc, Mine, Elsewhere, Inv;
    assert Kept(w.sys, n.sys, v);
    StartIntact(w, disk, v);
    StartIntact(n, disk, v);
    WorldPlaced(w, disk);
    NotMine(w, n, p, v);
    SeesTheSame(w.space, n.space, Mine(w, n, p), DirOfProc(w.sys.t.procs, v));
    SameDir(w.sys.t.procs, n.sys.t.procs, v);
  }

  lemma WorldPlaced(w: World, disk: T.Disk)
    requires WorldInv(w, disk)
    ensures Placed(w.sys.t.procs, w.space, w.saved) && Inv(w.space) && NoLoose(w.space)
  {
    hide Inv, Image, NoLoose, L.SysInv, Sound, Tasks, Statuses, Current, Placed;
  }

  /** The kernel holds the same frames, but for the scratch table, which is made once. */
  ghost predicate KernelKept(s: Space, n: Space)
  {
    && n.kdir == s.kdir && |n.mem| == |s.mem|
    && (forall f {:trigger f in n.own} :: f in s.own && KernelHeld(s.own[f]) ==> f in n.own && n.own[f] == s.own[f])
    && (forall f {:trigger n.own[f]} :: f in n.own && KernelHeld(n.own[f]) ==>
          (f in s.own && s.own[f] == n.own[f]) || n.own[f] == KernelTable(TMP_DIR))
  }

  lemma KernelKeptTrans(a: Space, b: Space, c: Space)
    requires KernelKept(a, b) && KernelKept(b, c)
    ensures KernelKept(a, c)
  {
    forall f | f in a.own && KernelHeld(a.own[f])
      ensures f in c.own && c.own[f] == a.own[f]
    {
      assert f in b.own && b.own[f] == a.own[f];
    }
    forall f | f in c.own && KernelHeld(c.own[f])
      ensures (f in a.own && a.own[f] == c.own[f]) || c.own[f] == KernelTable(TMP_DIR)
    {
      assert (f in b.own && b.own[f] == c.own[f]) || c.own[f] == KernelTable(TMP_DIR);
    }
  }

  lemma UnnoticedKernel(w: World, n: World, p: int, disk: T.Disk)
    requires Unnoticed(w, n, p, disk)
    ensures KernelKept(w.space, n.space)
  {
    hide Inv, Image, WorldInv, Mine, Reach;
  }

  lemma {:induction false} KernelFrames(ws: seq<World>, ops: seq<Op>, disk: T.Disk, k: nat)
    requires Run(ws, ops, disk) && WorldInv(ws[0], disk) && k <= |ops|
    ensures KernelKept(ws[0].space, ws[k].space)
    decreases k
  {
    hide WorldInv, Effect, Unnoticed, KernelKept;
    if k == 0 {
      KernelKeptSelf(ws[0].space);
    } else {
      KernelFrames(ws, ops, disk, k - 1);
      RunStep(ws, ops, disk, k - 1);
      UnnoticedKernel(ws[k - 1], ws[k], ws[k - 1].queue.running, disk);
      KernelKeptTrans(ws[0].space, ws[k - 1].space, ws[k].space);
    }
  }

  lemma KernelKeptSelf(s: Space)
    ensures KernelKept(s, s)
  {
  }

  lemma UnnoticedHalf(w: World, n: World, p: int, disk: T.Disk)
    requires WorldInv(w, disk) && Unnoticed(w, n, p, disk)
    ensures SameKernelHalf(w.space, n.space)
  {
    hide Inv, Image, WorldInv, Reach, SameKernelHalf;
    WorldParts(w, disk);
    ReachKernelHalf(w.space, n.space, Mine(w, n, p));
  }

  lemma {:induction false} RunKernelHalf(ws: seq<World>, ops: seq<Op>, disk: T.Disk, k: nat)
    requires Run(ws, ops, disk) && WorldInv(ws[0], disk) && k <= |ops|
    ensures SameKernelHalf(ws[0].space, ws[k].space)
    decreases k
  {
    hide WorldInv, Effect, Unnoticed, SameKernelHalf;
    if k == 0 {
      SameHalfSelf(ws[0].space);
    } else {
      RunKernelHalf(ws, ops, disk, k - 1);
      RunInv(ws, ops, disk, k - 1);
      RunStep(ws, ops, disk, k - 1);
      UnnoticedHalf(ws[k - 1], ws[k], ws[k - 1].queue.running, disk);
      SameHalfTrans(ws[0].space, ws[k - 1].space, ws[k].space);
    }
  }

  /** The kernel is mapped alike everywhere and always. After any sequence of operations every directory in use, old or
      new, translates each kernel address outside the scratch slots as the boot directory did when the run began, and
      grants user mode none of them; and each process can write exactly what it can read. */
  lemma KernelMapped(ws: seq<World>, ops: seq<Op>, disk: T.Disk, k: nat, D: int, va: int)
    requires Run(ws, ops, disk) && WorldInv(ws[0], disk) && k <= |ops| && D in ws[k].space.dirs && 0 <= va < WORD
    ensures KernelDir(DirOf(va)) && DirOf(va) != TMP_DIR ==>
      WalkEntry(ws[k].space.mem, D, va) == WalkEntry(ws[0].space.mem, ws[0].space.kdir, va)
    ensures KernelDir(DirOf(va)) ==> !UserReaches(ws[k].space.mem, D, va)
    ensures UserWrites(ws[k].space.mem, D, va) <==> va in Image(ws[k].space.mem, D)
  {
    hide WorldInv, Effect, Image, DirOf, TableOf, UserReaches, UserWrites;
    RunKernelHalf(ws, ops, disk, k);
    RunInv(ws, ops, disk, k);
    WorldParts(ws[k], disk);
    WritesIff(ws[k].space, D, va);
    ReachesIff(ws[k].space, D, va);
    if KernelDir(DirOf(va)) {
      WorldParts(ws[0], disk);
      InvBounds(ws[0].space);
      KernelWalk(ws[k].space, D, va);
      KernelWalk(ws[0].space, ws[0].space.kdir, va);
    }
  }

  lemma KernelWalk(s: Space, D: int, va: int)
    requires Inv(s) && D in s.dirs && KernelDir(DirOf(va))
    ensures WalkEntry(s.mem, D, va) == Pte(s.mem, s.kdir, DirOf(va), TableOf(va))
  {
    assert Pde(s.mem, D, DirOf(va)) == Pde(s.mem, s.kdir, DirOf(va));
  }

  // ---- who uses a frame -------------------------------------------------------------------------------------------

  /** Entry d of directory D leads to a page table in frame f. */
  ghost predicate TableAt(s: Space, D: int, d: int, f: int)
  {
    UserDir(d) && Pde(s.mem, D, d).present && Pde(s.mem, D, d).frame == f
  }

  /** Entry t of that table leads to a page in frame f. */
  ghost predicate PageAt(s: Space, D: int, d: int, t: int, f: int)
  {
    UserDir(d) && Slot(t) && Pte(s.mem, D, d, t).present && Pte(s.mem, D, d, t).frame == f
  }

  /** Live directory D lies in frame f, or has a page table or a page there. */
  ghost predicate Uses(s: Space, D: int, f: int)
  {
    D in s.dirs && (D == f || (exists d :: TableAt(s, D, d, f)) || (exists d, t :: PageAt(s, D, d, t, f)))
  }

  /** No two entries anywhere lead to the same frame, and none to a directory. */
  ghost predicate OneUse(s: Space, f: int)
  {
    && (forall D, d, E, e :: D in s.dirs && E in s.dirs && TableAt(s, D, d, f) && TableAt(s, E, e, f) ==>
      D == E && d == e)
    && (forall D, d, t, E, e, u :: D in s.dirs && E in s.dirs && PageAt(s, D, d, t, f) && PageAt(s, E, e, u, f) ==>
          D == E && d == e && t == u)
    && (forall D, d, E, e, u :: D in s.dirs && E in s.dirs ==> !(TableAt(s, D, d, f) && PageAt(s, E, e, u, f)))
    && (f in s.dirs ==> forall D, d, t :: D in s.dirs ==> !TableAt(s, D, d, f) && !PageAt(s, D, d, t, f))
  }

  lemma UsedIsOwned(s: Space, D: int, f: int)
    requires Inv(s) && Uses(s, D, f)
    ensures f in s.own && HeldBy(s.own[f], f, D)
  {
    hide Pde, Pte;
    if D != f {
      if d :| TableAt(s, D, d, f) {
        assert Owns(s, Pde(s.mem, D, d).frame, Table(D, d));
      } else {
        var d, t :| PageAt(s, D, d, t, f);
        assert Owns(s, Pte(s.mem, D, d, t).frame, Leaf(D, d, t));
      }
    }
  }

  lemma UsedOnce(s: Space, f: int)
    requires Inv(s)
    ensures OneUse(s, f)
  {
    hide Pde, Pte, OwnersTrue, KernelHalf, KernelTables;
  }

  function HolderOf(o: Owner, f: int): int
  {
    match o
    case Table(D, _) => D
    case Leaf(D, _, _) => D
    case _ => f
  }

  lemma OwnedIsUsed(s: Space, f: int)
    requires Inv(s) && f in s.own && !KernelHeld(s.own[f])
    ensures Uses(s, HolderOf(s.own[f], f), f) && HeldBy(s.own[f], f, HolderOf(s.own[f], f))
  {
    hide Pde, Pte;
    assert OwnerTrue(s, f, s.own[f]);
    match s.own[f]
    case Table(D, d) => assert TableAt(s, D, d, f);
    case Leaf(D, d, t) => assert PageAt(s, D, d, t, f);
    case _ =>
  }

  /** The directory is the boot directory or that of a running process. */
  ghost predicate InService(w: World, D: int)
  {
    D == w.space.kdir || LivesIn(w.sys.t.procs, D)
  }

  /** Frame ownership over whole runs. After any sequence of operations a frame that is free is used by no directory; a
      frame that is not free is the kernel's (and was when the run began, unless it is the scratch table), or it is used
      by exactly one directory, through exactly one entry, and that directory is the boot directory or that of a running
      process. So nothing is freed while in use, nothing is shared, and nothing is lost. */
  lemma Ownership(ws: seq<World>, ops: seq<Op>, disk: T.Disk, k: nat, f: int)
    requires Run(ws, ops, disk) && WorldInv(ws[0], disk) && k <= |ops| && 0 <= f < |ws[0].space.mem|
    ensures var s, n := ws[0].space, ws[k].space;
      && OneUse(n, f) && (f in n.free <==> f !in n.own)
      && (f in n.free ==> forall D :: !Uses(n, D, f))
      && (f in n.own && KernelHeld(n.own[f]) ==>
            (Owns(s, f, n.own[f]) || n.own[f] == KernelTable(TMP_DIR)) && forall D :: !Uses(n, D, f))
      && (f in n.own && !KernelHeld(n.own[f]) ==>
            exists D :: Uses(n, D, f) && InService(ws[k], D) && forall E :: Uses(n, E, f) ==> E == D)
  {
    hide WorldInv, Effect, Inv, Uses, OneUse;
    KernelFrames(ws, ops, disk, k);
    RunInv(ws, ops, disk, k);
    WorldPlaced(ws[k], disk);
    var n := ws[k].space;
    UsedOnce(n, f);
    FreeOrOwned(n, f);
    forall D | Uses(n, D, f)
      ensures f in n.own && HeldBy(n.own[f], f, D)
    {
      UsedIsOwned(n, D, f);
    }
    if f in n.own && !KernelHeld(n.own[f]) {
      var D := HolderOf(n.own[f], f);
      OwnedIsUsed(n, f);
      Served(ws[k], D, f);
      forall E | Uses(n, E, f)
        ensures E == D
      {
      }
    }
  }

  lemma FreeOrOwned(s: Space, f: int)
    requires Inv(s) && 0 <= f < |s.mem|
    ensures f in s.free <==> f !in s.own
  {
  }

  lemma Served(w: World, D: int, f: int)
    requires Placed(w.sys.t.procs, w.space, w.saved) && Uses(w.space, D, f)
    ensures InService(w, D)
  {
    hide LivesIn;
  }

  // ---- the process table over whole runs --------------------------------------------------------------------------

  /** The steps of the process table in a run, one after the other. */
  ghost function Acts(ws: seq<World>, ops: seq<Op>): seq<L.Act>
    requires |ws| == |ops| + 1
  {
    if ops == [] then [] else Deed(ws[0], ops[0]) + Acts(ws[1..], ops[1..])
  }

  /** The table's part of a run of the machine is a run of the table, so everything proved of those holds of it. */
  lemma {:induction false} RunActs(ws: seq<World>, ops: seq<Op>, disk: T.Disk)
    requires Run(ws, ops, disk) && WorldInv(ws[0], disk)
    ensures L.Shaped(ws[0].sys) && L.IsRun(ws[0].sys, Acts(ws, ops), disk)
    ensures L.End(ws[0].sys, Acts(ws, ops), disk) == ws[|ops|].sys
    decreases |ops|
  {
    hide WorldInv, Effect, Deed, L.Next, L.Possible, L.IsRun, L.End;
    WorldParts(ws[0], disk);
    if ops == [] {
      NoActs(ws[0].sys, disk);
    } else {
      assert Effect(ws[0], ws[1], ops[0], disk);
      EffectKeeps(ws[0], ws[1], ops[0], disk);
      RunTail(ws, ops, disk);
      RunActs(ws[1..], ops[1..], disk);
      DeedOnce(ws[0], ws[1], ops[0], disk);
      DeedFirst(ws[0].sys, ws[1].sys, Deed(ws[0], ops[0]), Acts(ws[1..], ops[1..]), disk);
    }
  }

  lemma NoActs(s: L.Sys, disk: T.Disk)
    requires L.Shaped(s)
    ensures L.IsRun(s, [], disk) && L.End(s, [], disk) == s
  {
  }

  lemma DeedFirst(s: L.Sys, n: L.Sys, deed: seq<L.Act>, rest: seq<L.Act>, disk: T.Disk)
    requires L.Shaped(s) && L.Shaped(n) && L.IsRun(n, rest, disk) && |deed| <= 1
    requires if deed == [] then n == s else L.Possible(s, deed[0], disk) && n == L.Next(s, deed[0], disk)
    ensures L.IsRun(s, deed + rest, disk) && L.End(s, deed + rest, disk) == L.End(n, rest, disk)
  {
    hide L.Next, L.Possible;
    if deed == [] {
      assert deed + rest == rest;
    } else {
      assert (deed + rest)[0] == deed[0] && (deed + rest)[1..] == rest;
    }
  }

  lemma RunTail(ws: seq<World>, ops: seq<Op>, disk: T.Disk)
    requires Run(ws, ops, disk) && ops != []
    ensures Run(ws[1..], ops[1..], disk)
  {
    hide Effect;
    forall k | 0 <= k < |ops| - 1
      ensures Effect(ws[1..][k], ws[1..][k + 1], ops[1..][k], disk)
    {
      assert ops[k + 1] == ops[1..][k];
    }
  }

  lemma DeedOnce(w: World, n: World, op: Op, disk: T.Disk)
    requires Effect(w, n, op, disk)
    ensures |Deed(w, op)| <= 1
    ensures Deed(w, op) == [] ==> n.sys == w.sys
    ensures Deed(w, op) != [] ==>
      L.Shaped(w.sys) && L.Possible(w.sys, Deed(w, op)[0], disk) && n.sys == L.Next(w.sys, Deed(w, op)[0], disk)
  {
    hide MemoryDoes, StatusDoes, L.Next, L.Possible;
  }

  // ---- progress over whole runs -----------------------------------------------------------------------------------

  /** What the operation does to the ring of tasks, if anything. */
  function Moved(op: Op): seq<Event>
  {
    match op
    case Yield => [Switch]
    case Fork(i, C) => [Added(i)]
    case Exit(code) => [Left]
    case _ => []
  }

  lemma QueueMoves(w: World, n: World, op: Op, disk: T.Disk)
    requires WorldInv(w, disk) && Effect(w, n, op, disk)
    ensures Sound(w.queue) && Sound(n.queue)
    ensures if Moved(op) == [] then n.queue == w.queue
            else Possible(w.queue, Moved(op)[0]) && n.queue == After(w.queue, Moved(op)[0])
  {
    hide WorldInv, Image, Reach, Inv, L.Possible, L.Next, Sound, AfterAdd, AfterYield, AfterRemove, E.ExecImage,
         HeapMoves;
    WorldParts(w, disk);
    EffectKeeps(w, n, op, disk);
    WorldParts(n, disk);
    if op.Fork? {
      ForkFits(w, op.i, w.queue.running, op.C, disk);
    }
  }

  function Turns(ops: seq<Op>): nat
  {
    if ops == [] then 0 else (if ops[0].Yield? then 1 else 0) + Turns(ops[1..])
  }

  function Forks(ops: seq<Op>): nat
  {
    if ops == [] then 0 else (if ops[0].Fork? then 1 else 0) + Forks(ops[1..])
  }

  /** A running process that does not have the CPU waits in the ring. */
  lemma RunsOrWaits(w: World, disk: T.Disk, v: nat)
    requires WorldInv(w, disk) && IsRun(w.sys.t.procs, v) && v != w.queue.running
    ensures Sound(w.queue) && v in Waiting(w.queue)
  {
    hide Inv, Image, L.SysInv, NoLoose, Statuses, Placed, Sound;
    RunsTask(w, disk, v);
    RingWaits(w.queue, v);
  }

  lemma RunsTask(w: World, disk: T.Disk, v: nat)
    requires WorldInv(w, disk) && IsRun(w.sys.t.procs, v)
    ensures v in w.queue.ring
  {
    hide Inv, Image, L.SysInv, NoLoose, Statuses, Placed, Sound;
    assert v in w.queue.ring <==> IsRun(w.sys.t.procs, v);
  }

  lemma RingWaits(q: Queue, v: nat)
    requires Sound(q) && v in q.ring && v != q.running
    ensures v in Waiting(q)
  {
    var k :| 0 <= k < |q.ring| && q.ring[k] == v;
    if q.running in q.ring {
      assert q.ring[1..][k - 1] == v;
    }
  }

  /** Progress: a process waiting at distance d has the CPU within d yields plus one for each fork that succeeds
      meanwhile, whatever else the others do. */
  lemma {:induction false} GetsCpu(ws: seq<World>, ops: seq<Op>, disk: T.Disk, v: nat) returns (k: nat)
    requires Run(ws, ops, disk) && WorldInv(ws[0], disk) && Sound(ws[0].queue) && v in Waiting(ws[0].queue)
    requires Turns(ops) >= Distance(ws[0].queue, v) + Forks(ops)
    ensures 0 < k <= |ops| && ws[k].queue.running == v
    decreases |ops|
  {
    hide WorldInv, Effect, Sound, Waiting, After, Possible, Distance;
    assert Effect(ws[0], ws[1], ops[0], disk);
    QueueMoves(ws[0], ws[1], ops[0], disk);
    EffectKeeps(ws[0], ws[1], ops[0], disk);
    if Moved(ops[0]) != [] {
      DistanceLaw(ws[0].queue, Moved(ops[0])[0], v);
    }
    if ops[0].Yield? && Distance(ws[0].queue, v) == 1 {
      k := 1;
    } else {
      RunTail(ws, ops, disk);
      var j := GetsCpu(ws[1..], ops[1..], disk, v);
      k := j + 1;
    }
  }

  /** Nobody starves: in any sequence of operations with sixteen yields more than forks, each process that runs at its
      start has the CPU at some point. */
  lemma NobodyStarves(ws: seq<World>, ops: seq<Op>, disk: T.Disk, v: nat) returns (k: nat)
    requires Run(ws, ops, disk) && WorldInv(ws[0], disk) && IsRun(ws[0].sys.t.procs, v)
    requires Turns(ops) >= MAX_TASKS + Forks(ops)
    ensures k <= |ops| && ws[k].queue.running == v
  {
    hide WorldInv, Effect, Sound, Waiting;
    if v == ws[0].queue.running {
      k := 0;
    } else {
      RunsOrWaits(ws[0], disk, v);
      WaitingBound(ws[0].queue);
      k := GetsCpu(ws, ops, disk, v);
    }
  }

  // ---- the history of a machine -----------------------------------------------------------------------------------

  /** The states since boot, the operations between them, and the state now. */
  ghost predicate History(past: seq<World>, ops: seq<Op>, w: World, disk: T.Disk)
  {
    && Run(past, ops, disk) && past[|ops|] == w
    && WorldInv(past[0], disk) && L.Boot(past[0].sys)
  }

  lemma HistoryGrows(past: seq<World>, ops: seq<Op>, w: World, n: World, op: Op, disk: T.Disk)
    requires History(past, ops, w, disk) && Effect(w, n, op, disk)
    ensures History(past + [n], ops + [op], n, disk)
  {
    hide Effect, WorldInv, L.Boot;
    var qs, os := past + [n], ops + [op];
    forall k | 0 <= k < |os|
      ensures Effect(qs[k], qs[k + 1], os[k], disk)
    {
      if k < |ops| {
        assert Effect(past[k], past[k + 1], ops[k], disk);
      }
    }
  }

  lemma HistoryStarts(w: World, disk: T.Disk)
    requires WorldInv(w, disk) && L.Boot(w.sys)
    ensures History([w], [], w, disk)
  {
    hide WorldInv, L.Boot;
  }
}
