/** The process table and the open-file pool in place (kernel/arch/i386/process.c, kernel/arch/i386/syscall.c). */
module Processes {
  import opened Reads
  import opened Table
  import opened Lifecycle
  import opened CallLaws

  const KSTACK_SIZE := 4096

  /** The kernel's bump allocator (kernel/arch/i386/kheap.c). */
  class KernelHeap {
    const end: int
    var next: int

    constructor (start: int, size: int)
      requires 0 < start && start % 0x1000 == 0 && 0 <= size
      ensures next == start && end == start + size
    {
      next, end := start, start + size;
    }

    /** A page-aligned block of this size still fits. */
    predicate Room(size: int)
      reads this
    {
      (next + 0xFFF) / 0x1000 * 0x1000 + size <= end
    }

    /** kmalloc: the next bytes of the heap, or 0. */
    method Kmalloc(size: int) returns (addr: int)
      requires 0 < next && 0 <= size
      modifies `next
      ensures addr == 0 <==> old(next) + size > end
      ensures addr == 0 ==> next == old(next)
      ensures addr != 0 ==> addr == old(next) && addr + size <= end && next == addr + (size + 7) / 8 * 8
      ensures 0 < next
    {
      if next + size > end {
        return 0;
      }
      addr := next;
      next := next + (size + 7) / 8 * 8;
    }

    /** Memory nobody has been given before, or 0. */
    method KmallocAligned(size: int) returns (addr: int)
      requires 0 < next && 0 < size
      modifies `next
      ensures 0 < next && next >= old(next)
      ensures addr == 0 || (addr % 0x1000 == 0 && old(next) <= addr && addr + size <= end && addr + size <= next)
      ensures addr == 0 <==> !old(Room(size))
      ensures addr != 0 ==> next == addr + (size + 7) / 8 * 8
      ensures addr != 0 && old(next) % 0x1000 == 0 ==> addr == old(next)
    {
      next := (next + 0xFFF) / 0x1000 * 0x1000;
      addr := Kmalloc(size);
    }
  }

  // ---- the pool, one descriptor at a time ------------------------------------------------------------------------

  lemma RecountSame(procs: seq<Proc>, files: seq<OpenFile>)
    requires Counted(procs, files)
    ensures Recount(procs, files) == files
  {
    hide Refs;
    forall f | 0 <= f < |files|
      ensures Recounted(procs, files[f], f) == files[f]
    {
    }
  }

  function Dropped(e: OpenFile): OpenFile
  {
    if e.refcount - 1 <= 0 then CLOSED else OpenFile(e.node, e.offset, e.refcount - 1)
  }

  /** Releasing the entry a descriptor points at, and clearing the descriptor. */
  lemma RecountDrop(procs: seq<Proc>, files: seq<OpenFile>, i: int, k: int)
    requires 0 <= i < |procs| && 0 <= k < |procs[i].fds| && 0 <= procs[i].fds[k] < |files|
    ensures var f := procs[i].fds[k];
      Recount(PutFd(procs, i, k, NONE), files) == Recount(procs, files)[f := Dropped(Recount(procs, files)[f])]
  {
    hide Refs, PutFd;
    var f := procs[i].fds[k];
    PutFdRefs(procs, i, k, NONE, f);
    assert (i, k) in Refs(procs, f);
    forall g | 0 <= g < |files|
      ensures Recounted(PutFd(procs, i, k, NONE), files[g], g) ==
        Recount(procs, files)[f := Dropped(Recount(procs, files)[f])][g]
    {
      PutFdCount(procs, i, k, NONE, g);
    }
  }

  /** Clearing a descriptor that is clear already. */
  lemma PutNone(procs: seq<Proc>, i: int, k: int)
    requires 0 <= i < |procs| && 0 <= k < |procs[i].fds| && procs[i].fds[k] == NONE
    ensures PutFd(procs, i, k, NONE) == procs
  {
    assert procs[i].fds[k := NONE] == procs[i].fds;
  }

  /** Pointing one more descriptor at an entry that is in use. */
  lemma RecountShare(procs: seq<Proc>, files: seq<OpenFile>, i: int, k: int, f: int)
    requires 0 <= i < |procs| && 0 <= k < |procs[i].fds| && procs[i].fds[k] == NONE && 0 <= f < |files|
    requires |Refs(procs, f)| > 0
    ensures var e := Recount(procs, files)[f];
      Recount(PutFd(procs, i, k, f), files) == Recount(procs, files)[f := OpenFile(e.node, e.offset, e.refcount + 1)]
  {
    hide Refs, PutFd;
    forall g | 0 <= g < |files|
      ensures |Refs(PutFd(procs, i, k, f), g)| == |Refs(procs, g)| + (if g == f then 1 else 0)
    {
      PutFdCount(procs, i, k, f, g);
    }
  }

  lemma PointedAt(procs: seq<Proc>, p: int, k: int, f: int)
    requires Points(procs, p, k, f)
    ensures |Refs(procs, f)| > 0
  {
    PointsIn(procs, p, k, f);
    assert Refs(procs, f) != {};
  }

  lemma PoolFacts(t: Table, disk: Disk)
    requires Descriptors(t, disk)
    ensures |t.procs| == MAX_PROCS && |t.files| == MAX_OPEN_FILES && Recount(t.procs, t.files) == t.files
    ensures forall i {:trigger t.procs[i]} :: 0 <= i < MAX_PROCS ==> FdsOk(t.procs[i])
  {
    RecountSame(t.procs, t.files);
  }

  /** The slot as it stands between process_create and the end of fork. */
  function Begun(t: Table, p: int): Proc
    requires 0 <= p < |t.procs|
  {
    Proc(Run, t.nextPid, t.procs[p].pid, 0, 0, t.procs[p].brk, NoFds())
  }

  /** The lowest free descriptor from k on, or NONE. */
  function FreeFdFrom(fds: seq<int>, k: nat): (r: int)
    ensures r == NONE <==> forall j :: k <= j < |fds| ==> fds[j] != NONE
    ensures r != NONE ==> k <= r < |fds| && fds[r] == NONE && forall j :: k <= j < r ==> fds[j] != NONE
    decreases |fds| - k
  {
    if k >= |fds| then NONE
    else if fds[k] == NONE then k
    else FreeFdFrom(fds, k + 1)
  }

  /** The lowest pool entry from k on that nobody refers to, or NONE. */
  function FreeEntryFrom(files: seq<OpenFile>, k: nat): (r: int)
    ensures r == NONE <==> forall j :: k <= j < |files| ==> files[j].refcount != 0
    ensures r != NONE ==> k <= r < |files| && files[r].refcount == 0 && forall j :: k <= j < r ==>
      files[j].refcount != 0
    decreases |files| - k
  {
    if k >= |files| then NONE
    else if files[k].refcount == 0 then k
    else FreeEntryFrom(files, k + 1)
  }

  /** The lowest free slot from k on, or NONE. */
  function FreeSlotFrom(procs: seq<Proc>, k: nat): (r: int)
    ensures r == NONE <==> forall j :: k <= j < |procs| ==> procs[j].status != Free
    ensures r != NONE ==> k <= r < |procs| && procs[r].status == Free && forall j :: k <= j < r ==>
      procs[j].status != Free
    decreases |procs| - k
  {
    if k >= |procs| then NONE
    else if procs[k].status == Free then k
    else FreeSlotFrom(procs, k + 1)
  }

  class ProcessTable {
    const procs: array<Proc>
    const files: array<OpenFile>
    const pc: array<Pc>
    var nextPid: int
    ghost var log: seq<Note>
    ghost const disk: Disk

    ghost function S(): Sys
      reads this, procs, files, pc
    {
      Sys(Table(procs[..], nextPid, files[..]), pc[..], log)
    }

    ghost predicate Valid()
      reads this, procs, files, pc
    {
      && procs.Length == MAX_PROCS && files.Length == MAX_OPEN_FILES && pc.Length == MAX_PROCS
      && SysInv(S(), disk)
    }

    /** process_initialize */
    constructor (kernelDir: int, ghost disk0: Disk)
      ensures Valid() && fresh(procs) && fresh(files) && fresh(pc) && disk == disk0
      ensures Boot(S())
      ensures procs[0].dir == kernelDir && procs[0].brk == 0
    {
      procs := new Proc[MAX_PROCS](_ => Proc(Free, 0, 0, 0, 0, 0, NoFds()));
      files := new OpenFile[MAX_OPEN_FILES](_ => CLOSED);
      pc := new Pc[MAX_PROCS](_ => Idle);
      nextPid, log, disk := 1, [], disk0;
      new;
      procs[0] := Proc(Run, 0, 0, 0, kernelDir, 0, NoFds());
      BootInv(S(), disk);
    }

    /** open_file_alloc: the lowest entry nobody refers to. */
    method OpenFileAlloc(node: int) returns (f: int)
      requires files.Length == MAX_OPEN_FILES
      modifies files
      ensures f == FreeEntryFrom(old(files[..]), 0)
      ensures files[..] == if f == NONE then old(files[..]) else old(files[..])[f := OpenFile(node, 0, 1)]
    {
      for i := 0 to MAX_OPEN_FILES
        invariant FreeEntryFrom(files[..], i) == FreeEntryFrom(files[..], 0)
        invariant files[..] == old(files[..])
      {
        if files[i].refcount == 0 {
          files[i] := OpenFile(node, 0, 1);
          return i;
        }
      }
      return NONE;
    }

    method OpenFileRelease(f: int)
      requires files.Length == MAX_OPEN_FILES && NONE <= f < MAX_OPEN_FILES
      modifies files
      ensures files[..] == if f == NONE then old(files[..]) else old(files[..])[f := Dropped(old(files[f]))]
    {
      if f == NONE {
        return;
      }
      files[f] := Dropped(files[f]);
    }

    // ---- fork -----------------------------------------------------------------------------------------------------

    /** process_create for a fork of p: the lowest free slot, a kernel stack, and the next pid. */
    method BeginFork(p: int, heap: KernelHeap) returns (i: int, ghost slot: int)
      requires Valid() && Acts(S(), p) && !pc[p].Scan? && !pc[p].Taking? && 0 < heap.next
      modifies procs, `nextPid, heap
      ensures 0 < heap.next && pc[..] == old(pc[..]) && files[..] == old(files[..]) && log == old(log)
      ensures slot == FreeSlotFrom(old(procs[..]), 1)
      ensures i == NONE <==> slot == NONE || !old(heap.Room(KSTACK_SIZE))
      ensures i == NONE ==> nextPid == old(nextPid)
      ensures i == NONE && slot == NONE ==> S() == old(S()) && Valid()
      ensures i == NONE && slot != NONE ==>
        Possible(old(S()), Refuse(p, slot, procs[slot]), disk)
          && S() == Next(old(S()), Refuse(p, slot, procs[slot]), disk) && Valid()
      ensures i != NONE ==>
        && i == slot && nextPid == old(nextPid) + 1
        && procs[..] == old(procs[..])[i := Begun(old(S()).t, p)]
    {
      hide SysInv;
      ghost var s := S();
      SysInvFacts(s, disk, p);
      slot := NONE;
      for j := 1 to MAX_PROCS
        invariant FreeSlotFrom(s.t.procs, j) == FreeSlotFrom(s.t.procs, 1)
        invariant S() == s && slot == NONE && 0 < heap.next && nextPid == s.t.nextPid
        invariant heap.next == old(heap.next) && procs[..] == s.t.procs && log == s.log
      {
        if procs[j].status == Free {
          slot := j;
          procs[j] := Proc(Free, 0, 0, 0, 0, 0, NoFds());
          var stack := heap.KmallocAligned(KSTACK_SIZE);
          if stack == 0 {
            RefuseStep(s, p, j, procs[j], disk);
            assert S() == Next(s, Refuse(p, j, procs[j]), disk);
            return NONE, slot;
          }
          procs[j] := Proc(Run, nextPid, procs[p].pid, 0, 0, procs[p].brk, procs[j].fds);
          nextPid := nextPid + 1;
          assert procs[j].fds == NoFds();
          return j, slot;
        }
      }
      return NONE, NONE;
    }

    /** fork got its address space: the child shares every descriptor of the parent. */
    method FinishFork(p: int, i: int, dir: int, ghost s: Sys)
      requires procs.Length == MAX_PROCS && files.Length == MAX_OPEN_FILES && pc.Length == MAX_PROCS
      requires SysInv(s, disk) && Possible(s, Fork(p, i, dir), disk)
      requires procs[..] == s.t.procs[i := Begun(s.t, p)] && nextPid == s.t.nextPid + 1
      requires files[..] == s.t.files && pc[..] == s.pc && log == s.log
      modifies procs, files, pc, `log
      ensures Valid() && S() == Next(s, Fork(p, i, dir), disk)
      ensures ForkLaw(s.t, S().t, p, i, dir) && log == s.log + [NForked(s.t.procs[p].pid, s.t.nextPid)]
    {
      hide SysInv, Refs, Recount, PutFd, SharedSlot, NoFds, Next, Possible, ForkLaw;
      SysInvFacts(s, disk, 0);
      ForkParts(s, p, i, dir, disk);
      SysInvFacts(s, disk, p);
      SharedFirst(s.t, p, dir);
      SysInvSlot(s, disk, i);
      ghost var b := Begun(s.t, p);
      SharingStarts(s, p, i, disk);
      procs[i] := Proc(Run, procs[i].pid, procs[i].ppid, 0, dir, procs[i].brk, procs[i].fds);
      SharedRefs(s.t.procs[i := b], procs[..], s.t.files);
      for k := 0 to MAX_FDS
        invariant procs[..] == s.t.procs[i := SharedSlot(s.t, p, dir, k)]
        invariant files[..] == Recount(procs[..], s.t.files)
        invariant pc[..] == s.pc && log == s.log && nextPid == s.t.nextPid + 1
      {
        SharedNext(s.t, p, dir, k);
        ShareOne(p, i, k, s.t.files);
      }
      SharedAll(s.t, p, dir);
      ForkNext(s, p, i, dir, procs[..], disk);
      pc[i] := Idle;
      log := log + [NForked(procs[p].pid, procs[i].pid)];
      NextKeeps(s, Fork(p, i, dir), disk);
      InvLaw(s, Fork(p, i, dir), disk);
    }

    /** `child->fds[k] = parent->fds[k]`, and one more reference to the entry. */
    method ShareOne(p: int, i: int, k: int, ghost was: seq<OpenFile>)
      requires procs.Length == MAX_PROCS && files.Length == MAX_OPEN_FILES && |was| == MAX_OPEN_FILES
      requires Slot(p) && Slot(i) && p != i && 0 <= k < |procs[p].fds| && 0 <= k < |procs[i].fds|
      requires procs[i].fds[k] == NONE
      requires NONE <= procs[p].fds[k] < MAX_OPEN_FILES && files[..] == Recount(procs[..], was)
      modifies procs, files
      ensures procs[..] == old(procs[..])[i := WithFds(old(procs[i]), old(procs[i]).fds[k := old(procs[p]).fds[k]])]
      ensures files[..] == Recount(procs[..], was)
    {
      hide Refs, Recount, PutFd;
      ghost var before := procs[..];
      var f := procs[p].fds[k];
      procs[i] := WithFds(procs[i], procs[i].fds[k := f]);
      PutFdIs(before, i, k, f);
      if f != NONE {
        PointedAt(before, p, k, f);
        RecountShare(before, was, i, k, f);
        files[f] := OpenFile(files[f].node, files[f].offset, files[f].refcount + 1);
      } else {
        PutNone(before, i, k);
      }
    }

    /** fork found no memory: the slot is free again, the pid is spent. */
    method CancelFork(p: int, i: int, dir: int, ghost s: Sys)
      requires procs.Length == MAX_PROCS && files.Length == MAX_OPEN_FILES && pc.Length == MAX_PROCS
      requires SysInv(s, disk) && Acts(s, p) && !s.pc[p].Scan? && !s.pc[p].Taking?
      requires 1 <= i < MAX_PROCS && s.t.procs[i].status == Free
      requires procs[..] == s.t.procs[i := Begun(s.t, p)] && nextPid == s.t.nextPid + 1
      requires files[..] == s.t.files && pc[..] == s.pc && log == s.log
      modifies procs
      ensures Valid() && Possible(s, Abandon(p, i, procs[i]), disk) && S() == Next(s, Abandon(p, i, procs[i]), disk)
    {
      hide SysInv;
      SysInvFacts(s, disk, p);
      procs[i] := Proc(Free, procs[i].pid, procs[i].ppid, 0, dir, procs[i].brk, procs[i].fds);
      assert procs[..] == s.t.procs[i := procs[i]];
      NextKeeps(s, Abandon(p, i, procs[i]), disk);
    }

    // ---- exit -----------------------------------------------------------------------------------------------------

    /** The part of process_exit that works on the table. */
    method Exit(p: int, code: int, kdir: int)
      requires Valid() && Acts(S(), p) && Possible(S(), Act.Exit(p, code, kdir), disk)
      modifies procs, files, `log
      ensures Valid() && S() == Next(old(S()), Act.Exit(p, code, kdir), disk)
      ensures ExitLaw(old(S()).t, S().t, p, code, kdir) && log == old(log) + [NExited(old(procs[p]).pid, code)]
    {
      hide SysInv, Refs, Recount, PutFd, Exited, ExitLaw;
      ghost var s := S();
      SysInvFacts(s, disk, p);
      ReleaseDescriptors(p);
      Reparent(p, s.t.procs[p := WithFds(s.t.procs[p], NoFds())]);
      procs[p] := Proc(Zombie, procs[p].pid, procs[p].ppid, code, kdir, procs[p].brk, procs[p].fds);
      log := log + [NExited(procs[p].pid, code)];
      ExitedIs(s.t, p, code, kdir, procs[..], disk);
      NextKeeps(s, Act.Exit(p, code, kdir), disk);
      InvLaw(s, Act.Exit(p, code, kdir), disk);
    }

    method ReleaseDescriptors(p: int)
      requires Valid() && Acts(S(), p)
      modifies procs, files
      ensures procs[..] == old(procs[..])[p := WithFds(old(procs[p]), NoFds())]
      ensures files[..] == Recount(procs[..], old(files[..]))
    {
      hide SysInv, Refs, Recount, PutFd, Cleared, NoFds;
      ghost var s := S();
      SysInvFacts(s, disk, p);
      ghost var fds := s.t.procs[p].fds;
      ClearedAll(fds);
      SameSlot(s.t.procs, p);
      for k := 0 to MAX_FDS
        invariant procs[..] == s.t.procs[p := WithFds(s.t.procs[p], Cleared(fds, k))]
        invariant files[..] == Recount(procs[..], s.t.files)
      {
        ClearedNext(fds, k);
        ReleaseOne(p, k, s.t.files);
      }
    }

    /** `open_file_release(p->fds[k]); p->fds[k] = -1;` */
    method ReleaseOne(p: int, k: int, ghost was: seq<OpenFile>)
      requires procs.Length == MAX_PROCS && files.Length == MAX_OPEN_FILES && |was| == MAX_OPEN_FILES
      requires Slot(p) && 0 <= k < |procs[p].fds| && NONE <= procs[p].fds[k] < MAX_OPEN_FILES
      requires files[..] == Recount(procs[..], was)
      modifies procs, files
      ensures procs[..] == old(procs[..])[p := WithFds(old(procs[p]), old(procs[p]).fds[k := NONE])]
      ensures files[..] == Recount(procs[..], was)
    {
      hide Refs, Recount, PutFd;
      ghost var before := procs[..];
      var f := procs[p].fds[k];
      OpenFileRelease(f);
      procs[p] := WithFds(procs[p], procs[p].fds[k := NONE]);
      PutFdIs(before, p, k, NONE);
      if f != NONE {
        RecountDrop(before, was, p, k);
      } else {
        PutNone(before, p, k);
      }
    }

    /** Orphans go to process 0. */
    method Reparent(p: int, ghost was: seq<Proc>)
      requires procs.Length == MAX_PROCS && Slot(p) && was == procs[..] && procs[p].ppid != procs[p].pid
      modifies procs
      ensures forall i :: 0 <= i < MAX_PROCS ==> procs[i] == Adopted(was, p, i)
    {
      for i := 0 to MAX_PROCS
        invariant forall j :: 0 <= j < i ==> procs[j] == Adopted(was, p, j)
        invariant forall j :: i <= j < MAX_PROCS ==> procs[j] == was[j]
      {
        if procs[i].status != Free && procs[i].ppid == procs[p].pid {
          var q := procs[i];
          procs[i] := Proc(q.status, q.pid, 0, q.exitCode, q.dir, q.brk, q.fds);
        }
      }
    }

    // ---- wait -----------------------------------------------------------------------------------------------------

    method WaitStart(p: int)
      requires Valid() && Acts(S(), p) && Possible(S(), Wait(p), disk)
      modifies pc
      ensures Valid() && S() == Next(old(S()), Wait(p), disk)
      ensures pc[..] == old(pc[..])[p := Scan(0, 0)]
    {
      hide SysInv;
      SysInvFacts(S(), disk, p);
      NextKeeps(S(), Wait(p), disk);
      pc[p] := Scan(0, 0);
    }

    /** One turn of the scan of process_wait. `done` says that it ended without a child, `again` that it yields. */
    method WaitLook(p: int) returns (done: bool, again: bool)
      requires Valid() && Acts(S(), p) && pc[p].Scan?
      modifies pc, `log
      ensures Valid() && Possible(old(S()), Look(p), disk) && S() == Next(old(S()), Look(p), disk)
      ensures done <==> old(pc[p]).j == MAX_PROCS && forall i :: !Child(old(procs[..]), p, i)
      ensures again <==> old(pc[p]).j == MAX_PROCS && exists i :: Child(old(procs[..]), p, i)
    {
      hide SysInv;
      ghost var s := S();
      SysInvFacts(s, disk, p);
      ScanFacts(s, p, disk);
      NextKeeps(s, Look(p), disk);
      done, again := false, false;
      var j, seen := pc[p].j, pc[p].seen;
      if j == MAX_PROCS {
        if seen == 0 {
          pc[p] := Idle;
          log := log + [NChildless(procs[p].pid)];
          done := true;
        } else {
          pc[p] := Scan(0, 0);
          again := true;
        }
      } else if procs[j].status == Free || procs[j].ppid != procs[p].pid || j == p {
        pc[p] := Scan(j + 1, seen);
      } else if procs[j].status == Zombie {
        pc[p] := Taking(j);
      } else {
        pc[p] := Scan(j + 1, seen + 1);
      }
      assert S() == Looked(s, p);
    }

    /** The zombie is taken, and its code and slot with it. */
    method WaitTake(p: int) returns (pid: int, status: int)
      requires Valid() && Acts(S(), p) && pc[p].Taking?
      modifies procs, pc, `log
      ensures Valid() && Possible(old(S()), Take(p), disk) && S() == Next(old(S()), Take(p), disk)
      ensures Slot(old(pc[p]).j) && old(procs[pc[p].j]).status == Zombie
      ensures old(procs[pc[p].j]).ppid == old(procs[p]).pid
      ensures pid == old(procs[pc[p].j]).pid && status == old(procs[pc[p].j]).exitCode
      ensures ReapLaw(old(S()).t, S().t, old(pc[p]).j) && log == old(log) + [NReaped(old(procs[p]).pid, pid, status)]
    {
      hide SysInv, ReapLaw;
      ghost var s := S();
      SysInvFacts(s, disk, p);
      TakeFacts(s, p, disk);
      NextKeeps(s, Take(p), disk);
      InvLaw(s, Take(p), disk);
      var j := pc[p].j;
      var q := procs[j];
      pid, status := q.pid, q.exitCode;
      log := log + [NReaped(procs[p].pid, q.pid, q.exitCode)];
      procs[j] := Proc(Free, q.pid, q.ppid, q.exitCode, q.dir, q.brk, q.fds);
      pc[p] := Idle;
      assert S() == Taken(s, p);
    }

    // ---- files and address spaces ---------------------------------------------------------------------------------

    /** The lowest free descriptor above the standard ones. */
    method FreeDescriptor(p: int) returns (fd: int)
      requires Valid() && Slot(p)
      ensures fd == FreeFdFrom(procs[p].fds, 3)
    {
      hide SysInv;
      SysInvFacts(S(), disk, p);
      for k := 3 to MAX_FDS
        invariant FreeFdFrom(procs[p].fds, k) == FreeFdFrom(procs[p].fds, 3)
      {
        if procs[p].fds[k] == NONE {
          return k;
        }
      }
      return NONE;
    }

    method Open(p: int, fd: int, node: int) returns (f: int)
      requires Valid() && Acts(S(), p) && !pc[p].Scan? && !pc[p].Taking?
      requires 0 <= fd < |procs[p].fds| && procs[p].fds[fd] == NONE && 0 <= node < |disk|
      modifies procs, files, `log
      ensures f == FreeEntryFrom(old(files[..]), 0)
      ensures f == NONE ==> Valid() && S() == old(S())
      ensures f != NONE ==>
        Possible(old(S()), Act.Open(p, fd, f, node), disk) && S() == Next(old(S()), Act.Open(p, fd, f, node), disk)
          && Valid()
      ensures f != NONE ==> OpenLaw(old(S()).t, S().t, p, fd, f, node) && log == old(log) + [NOpened(f, node)]
    {
      hide SysInv, OpenLaw;
      ghost var s := S();
      SysInvFacts(s, disk, p);
      f := OpenFileAlloc(node);
      if f == NONE {
        return;
      }
      NextKeeps(s, Act.Open(p, fd, f, node), disk);
      InvLaw(s, Act.Open(p, fd, f, node), disk);
      procs[p] := WithFds(procs[p], procs[p].fds[fd := f]);
      log := log + [NOpened(f, node)];
      assert S() == Next(s, Act.Open(p, fd, f, node), disk);
    }

    method Close(p: int, fd: int)
      requires Valid() && Acts(S(), p) && !pc[p].Scan? && !pc[p].Taking?
      requires 0 <= fd < |procs[p].fds| && procs[p].fds[fd] != NONE
      modifies procs, files
      ensures Valid() && Possible(old(S()), Act.Close(p, fd), disk) && S() == Next(old(S()), Act.Close(p, fd), disk)
      ensures CloseLaw(old(S()).t, S().t, p, fd)
    {
      hide SysInv, Refs, Recount, PutFd, CloseLaw;
      ghost var s := S();
      SysInvFacts(s, disk, p);
      NextKeeps(s, Act.Close(p, fd), disk);
      InvLaw(s, Act.Close(p, fd), disk);
      var f := procs[p].fds[fd];
      RecountDrop(s.t.procs, s.t.files, p, fd);
      procs[p] := WithFds(procs[p], procs[p].fds[fd := NONE]);
      assert procs[..] == PutFd(s.t.procs, p, fd, NONE) by { PutFdIs(s.t.procs, p, fd, NONE); }
      OpenFileRelease(f);
    }

    /** The offset moves past the bytes just read. */
    method Advance(p: int, fd: int, ghost len: int, got: int)
      requires Valid() && Acts(S(), p) && Possible(S(), Read(p, fd, len), disk)
      requires got == |Chunk(disk[files[procs[p].fds[fd]].node], files[procs[p].fds[fd]].offset, len)|
      modifies files, `log
      ensures Valid() && S() == Next(old(S()), Read(p, fd, len), disk)
      ensures ReadLaw(old(S()).t, S().t, old(procs[p]).fds[fd], got)
      ensures var f := old(procs[p]).fds[fd];
        log == old(log) + [NRead(f, Chunk(disk[old(files[f]).node], old(files[f]).offset, len))]
    {
      hide SysInv, Chunk, ReadLaw;
      ghost var s := S();
      SysInvFacts(s, disk, p);
      NextKeeps(s, Read(p, fd, len), disk);
      AdvanceLaw(s, p, fd, len, disk);
      var f := procs[p].fds[fd];
      log := log + [NRead(f, Chunk(disk[files[f].node], files[f].offset, len))];
      files[f] := OpenFile(files[f].node, files[f].offset + got, files[f].refcount);
      assert S() == Next(s, Read(p, fd, len), disk);
    }

    method SetSpace(p: int, dir: int, brk: int)
      requires Valid() && Acts(S(), p) && Possible(S(), Remap(p, dir, brk), disk)
      modifies procs
      ensures Valid() && S() == Next(old(S()), Remap(p, dir, brk), disk)
      ensures SpaceLaw(old(S()).t, S().t, p, dir, brk)
    {
      hide SysInv, SpaceLaw;
      ghost var s := S();
      SysInvFacts(s, disk, p);
      NextKeeps(s, Remap(p, dir, brk), disk);
      InvLaw(s, Remap(p, dir, brk), disk);
      var q := procs[p];
      procs[p] := Proc(q.status, q.pid, q.ppid, q.exitCode, dir, brk, q.fds);
      assert S() == Next(s, Remap(p, dir, brk), disk);
    }
  }

  // ---- facts the methods use -------------------------------------------------------------------------------------

  lemma SysInvFacts(s: Sys, disk: Disk, p: int)
    requires SysInv(s, disk) && Slot(p)
    ensures Shaped(s) && 0 < s.t.nextPid && Recount(s.t.procs, s.t.files) == s.t.files
    ensures FdsOk(s.t.procs[p]) && |s.t.procs[p].fds| == MAX_FDS
    ensures s.t.procs[p].status == Run && p != 0 ==> s.t.procs[p].ppid != s.t.procs[p].pid
  {
    PoolFacts(s.t, disk);
    assert FdsOk(s.t.procs[p]);
    assert s.t.procs[p].status == Run ==> Live(s.t.procs, p);
  }

  lemma SysInvSlot(s: Sys, disk: Disk, i: int)
    requires SysInv(s, disk) && Slot(i) && s.t.procs[i].status != Run
    ensures s.t.procs[i].fds == NoFds()
  {
    assert FdsOk(s.t.procs[i]);
  }

  lemma RefuseStep(s: Sys, p: int, i: int, stale: Proc, disk: Disk)
    requires SysInv(s, disk) && Slot(p) && Shaped(s) && Possible(s, Refuse(p, i, stale), disk)
    ensures SysInv(Next(s, Refuse(p, i, stale), disk), disk)
  {
    NextKeeps(s, Refuse(p, i, stale), disk);
  }

  lemma PutFdIs(procs: seq<Proc>, i: int, k: int, f: int)
    requires 0 <= i < |procs| && 0 <= k < |procs[i].fds|
    ensures PutFd(procs, i, k, f) == procs[i := WithFds(procs[i], procs[i].fds[k := f])]
  {
  }

  /** The child's slot once the first k descriptors are copied. */
  function SharedSlot(t: Table, p: int, dir: int, k: int): Proc
    requires 0 <= p < |t.procs| && |t.procs[p].fds| == MAX_FDS && 0 <= k <= MAX_FDS
  {
    Proc(Run, t.nextPid, t.procs[p].pid, 0, dir, t.procs[p].brk, t.procs[p].fds[..k] + NoFds()[k..])
  }

  lemma SharedNext(t: Table, p: int, dir: int, k: int)
    requires 0 <= p < |t.procs| && |t.procs[p].fds| == MAX_FDS && 0 <= k < MAX_FDS
    ensures SharedSlot(t, p, dir, k).fds[k] == NONE && |SharedSlot(t, p, dir, k).fds| == MAX_FDS
    ensures SharedSlot(t, p, dir, k + 1) ==
      WithFds(SharedSlot(t, p, dir, k), SharedSlot(t, p, dir, k).fds[k := t.procs[p].fds[k]])
  {
    var fds := t.procs[p].fds;
    assert (fds[..k] + NoFds()[k..])[k := fds[k]] == fds[..k + 1] + NoFds()[k + 1..];
  }

  lemma SharedFirst(t: Table, p: int, dir: int)
    requires 0 <= p < |t.procs| && |t.procs[p].fds| == MAX_FDS
    ensures SharedSlot(t, p, dir, 0) == Proc(Run, t.nextPid, t.procs[p].pid, 0, dir, t.procs[p].brk, NoFds())
  {
    assert t.procs[p].fds[..0] + NoFds()[0..] == NoFds();
  }

  lemma ForkParts(s: Sys, p: int, i: int, dir: int, disk: Disk)
    requires Shaped(s) && Possible(s, Fork(p, i, dir), disk)
    ensures Acts(s, p) && Slot(p) && 1 <= i < MAX_PROCS && p != i && s.t.procs[i].status == Free
  {
  }

  /** The state fork leads to, in terms of the child's finished slot. */
  lemma ForkNext(s: Sys, p: int, i: int, dir: int, procs: seq<Proc>, disk: Disk)
    requires Shaped(s) && Possible(s, Fork(p, i, dir), disk) && |s.t.procs[p].fds| == MAX_FDS
    requires procs == s.t.procs[i := SharedSlot(s.t, p, dir, MAX_FDS)]
    ensures procs[p].pid == s.t.procs[p].pid && procs[i].pid == s.t.nextPid
    ensures Next(s, Fork(p, i, dir), disk) ==
      Sys(Table(procs, s.t.nextPid + 1, Recount(procs, s.t.files)), s.pc[i := Idle],
          s.log + [NForked(s.t.procs[p].pid, s.t.nextPid)])
  {
    hide Recount;
    SharedAll(s.t, p, dir);
  }

  lemma SharedAll(t: Table, p: int, dir: int)
    requires 0 <= p < |t.procs| && |t.procs[p].fds| == MAX_FDS
    ensures SharedSlot(t, p, dir, MAX_FDS) ==
      Proc(Run, t.nextPid, t.procs[p].pid, 0, dir, t.procs[p].brk, t.procs[p].fds)
    ensures SharedSlot(t, p, dir, 0).fds == NoFds()
  {
    assert t.procs[p].fds[..MAX_FDS] + NoFds()[MAX_FDS..] == t.procs[p].fds;
    assert t.procs[p].fds[..0] + NoFds()[0..] == NoFds();
  }

  /** A slot without descriptors adds none. */
  lemma SharingStarts(s: Sys, p: int, i: int, disk: Disk)
    requires SysInv(s, disk) && Acts(s, p) && 1 <= i < MAX_PROCS && s.t.procs[i].status == Free
    ensures Recount(s.t.procs[i := Begun(s.t, p)], s.t.files) == s.t.files
    ensures SharedSlot(s.t, p, 0, 0) == Begun(s.t, p) && |s.t.procs[p].fds| == MAX_FDS
  {
    hide Refs, Recount;
    SysInvSlot(s, disk, i);
    SysInvFacts(s, disk, p);
    SharedAll(s.t, p, 0);
    SharedRefs(s.t.procs, s.t.procs[i := Begun(s.t, p)], s.t.files);
  }

  lemma SharedRefs(a: seq<Proc>, b: seq<Proc>, files: seq<OpenFile>)
    requires SameFds(a, b)
    ensures Recount(a, files) == Recount(b, files)
  {
    hide Refs;
    forall f | 0 <= f < |files|
      ensures Recounted(a, files[f], f) == Recounted(b, files[f], f)
    {
      SameRefs(a, b, f);
    }
  }

  function Cleared(fds: seq<int>, k: int): seq<int>
    requires |fds| == MAX_FDS && 0 <= k <= MAX_FDS
  {
    NoFds()[..k] + fds[k..]
  }

  lemma SameSlot(procs: seq<Proc>, p: int)
    requires 0 <= p < |procs|
    ensures procs[p := WithFds(procs[p], procs[p].fds)] == procs
  {
  }

  lemma ClearedNext(fds: seq<int>, k: int)
    requires |fds| == MAX_FDS && 0 <= k < MAX_FDS
    ensures |Cleared(fds, k)| == MAX_FDS && Cleared(fds, k)[k] == fds[k]
    ensures Cleared(fds, k + 1) == Cleared(fds, k)[k := NONE]
  {
  }

  lemma ClearedAll(fds: seq<int>)
    requires |fds| == MAX_FDS
    ensures Cleared(fds, MAX_FDS) == NoFds() && Cleared(fds, 0) == fds
  {
  }

  /** Slot i after process p's children have gone to process 0. */
  function Adopted(procs: seq<Proc>, p: int, i: int): Proc
    requires 0 <= p < |procs| && 0 <= i < |procs|
  {
    var q := procs[i];
    if q.status != Free && q.ppid == procs[p].pid then Proc(q.status, q.pid, 0, q.exitCode, q.dir, q.brk, q.fds) else q
  }

  lemma ExitedIs(t: Table, p: int, code: int, kdir: int, procs: seq<Proc>, disk: Disk)
    requires |t.procs| == MAX_PROCS && |procs| == MAX_PROCS && Slot(p) && t.procs[p].ppid != t.procs[p].pid
    requires |t.files| == MAX_OPEN_FILES
    requires var was := t.procs[p := WithFds(t.procs[p], NoFds())];
      forall i {:trigger procs[i]} :: 0 <= i < MAX_PROCS ==>
        procs[i] ==
          if i == p then Proc(Zombie, was[p].pid, was[p].ppid, code, kdir, was[p].brk, was[p].fds)
          else Adopted(was, p, i)
    ensures procs == Exited(t, p, code, kdir).procs
    ensures Recount(procs, t.files) == Recount(t.procs[p := WithFds(t.procs[p], NoFds())], t.files)
    ensures Exited(t, p, code, kdir) == Table(procs, t.nextPid, Recount(procs, t.files))
  {
    hide Refs, Recount;
    var was := t.procs[p := WithFds(t.procs[p], NoFds())];
    forall i | 0 <= i < MAX_PROCS
      ensures procs[i] == Exited(t, p, code, kdir).procs[i] && procs[i].fds == was[i].fds
    {
    }
    SharedRefs(was, procs, t.files);
  }

  lemma ScanFacts(s: Sys, p: int, disk: Disk)
    requires SysInv(s, disk) && Acts(s, p) && s.pc[p].Scan?
    ensures 0 <= s.pc[p].j <= MAX_PROCS
    ensures s.pc[p].j == MAX_PROCS ==> (s.pc[p].seen == 0 <==> forall i :: !Child(s.t.procs, p, i))
  {
    assert PcOk(s.t.procs, p, s.pc[p]);
    if s.pc[p].j == MAX_PROCS {
      ChildlessIff(s, p);
    }
  }

  lemma TakeFacts(s: Sys, p: int, disk: Disk)
    requires SysInv(s, disk) && Slot(p) && s.pc[p].Taking?
    ensures 1 <= s.pc[p].j < MAX_PROCS && Child(s.t.procs, p, s.pc[p].j) && s.t.procs[s.pc[p].j].status == Zombie
  {
    TakingFacts(s, p);
  }
}
