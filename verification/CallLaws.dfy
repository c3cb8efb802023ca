/** What each system call promises of the process table and the open-file pool, field by field
    (kernel/arch/i386/process.c, kernel/arch/i386/syscall.c). */
module CallLaws {
  import opened Reads
  import opened Table
  import opened Lifecycle

  /** No slot but p is different. */
  ghost predicate OnlyProc(t: Table, n: Table, p: int)
  {
    && 0 <= p < |t.procs| == |n.procs|
    && forall i {:trigger n.procs[i]} :: 0 <= i < |t.procs| && i != p ==> n.procs[i] == t.procs[i]
  }

  /** Nor is the process in slot p, descriptors apart. */
  ghost predicate OnlyFds(t: Table, n: Table, p: int)
  {
    && OnlyProc(t, n, p)
    && var q, r := t.procs[p], n.procs[p];
      && r.status == q.status && r.pid == q.pid && r.ppid == q.ppid && r.exitCode == q.exitCode
      && r.dir == q.dir && r.brk == q.brk && |r.fds| == |q.fds|
  }

  /** An entry that is open was open, and stands at the same place in the same file; its count is that of its
      descriptors. */
  ghost predicate SamePositions(t: Table, n: Table)
  {
    && |n.files| == |t.files|
    && forall f {:trigger n.files[f]} :: 0 <= f < |t.files| ==>
      && n.files[f].refcount == |Refs(n.procs, f)|
      && (n.files[f].refcount > 0 ==>
            t.files[f].refcount > 0 && n.files[f].node == t.files[f].node && n.files[f].offset == t.files[f].offset)
  }

  /** fork: the child runs under the next pid, with its parent's break and descriptors. */
  ghost predicate ForkLaw(t: Table, n: Table, p: int, i: int, dir: int)
  {
    && OnlyProc(t, n, i) && n.nextPid == t.nextPid + 1 && SamePositions(t, n) && 0 <= p < |t.procs|
    && var c, q := n.procs[i], t.procs[p];
      && c.status == Run && c.pid == t.nextPid && c.ppid == q.pid && c.dir == dir && c.brk == q.brk && c.fds == q.fds
  }

  /** exit: a zombie with this code and no descriptors; its children belong to process 0. */
  ghost predicate ExitLaw(t: Table, n: Table, p: int, code: int, kdir: int)
  {
    && 0 <= p < |t.procs| == |n.procs| && n.nextPid == t.nextPid && SamePositions(t, n)
    && Buried(t.procs[p], n.procs[p], code, kdir)
    && forall i {:trigger n.procs[i]} :: 0 <= i < |t.procs| && i != p ==>
      OnlyParent(t.procs[i], n.procs[i],
                 if t.procs[i].status != Free && t.procs[i].ppid == t.procs[p].pid then 0 else t.procs[i].ppid)
  }

  predicate Buried(q: Proc, z: Proc, code: int, kdir: int)
  {
    && z.status == Zombie && z.exitCode == code && z.pid == q.pid && z.ppid == q.ppid && z.dir == kdir
    && forall k :: 0 <= k < |z.fds| ==> z.fds[k] == NONE
  }

  predicate OnlyParent(q: Proc, r: Proc, ppid: int)
  {
    && r.status == q.status && r.pid == q.pid && r.exitCode == q.exitCode && r.dir == q.dir && r.brk == q.brk
    && r.fds == q.fds && r.ppid == ppid
  }

  /** open: the descriptor leads to an entry of its own, at the start of the file. */
  ghost predicate OpenLaw(t: Table, n: Table, p: int, fd: int, f: int, node: int)
  {
    && OnlyFds(t, n, p) && n.nextPid == t.nextPid && 0 <= fd < |t.procs[p].fds| && n.procs[p].fds[fd] == f
    && (forall k :: 0 <= k < |t.procs[p].fds| && k != fd ==> n.procs[p].fds[k] == t.procs[p].fds[k])
    && 0 <= f < |t.files| == |n.files|
    && n.files[f].node == node && n.files[f].offset == 0 && n.files[f].refcount == 1
    && (forall g :: 0 <= g < |t.files| && g != f ==> n.files[g] == t.files[g])
  }

  /** close: the descriptor leads nowhere; its entry has one descriptor less and is closed with the last. */
  ghost predicate CloseLaw(t: Table, n: Table, p: int, fd: int)
  {
    && OnlyFds(t, n, p) && n.nextPid == t.nextPid && 0 <= fd < |t.procs[p].fds| && n.procs[p].fds[fd] == NONE
    && (forall k :: 0 <= k < |t.procs[p].fds| && k != fd ==> n.procs[p].fds[k] == t.procs[p].fds[k])
    && |n.files| == |t.files|
    && (forall g :: 0 <= g < |t.files| && g != t.procs[p].fds[fd] ==> n.files[g] == t.files[g])
    && (0 <= t.procs[p].fds[fd] < |t.files| ==>
      var e, r := t.files[t.procs[p].fds[fd]], n.files[t.procs[p].fds[fd]];
      && r.refcount == e.refcount - 1
      && if r.refcount == 0 then r == CLOSED else r.node == e.node && r.offset == e.offset)
  }

  /** What a read of `len` bytes through entry f finds: the bytes from the offset on, as many as there are. */
  ghost predicate ReadsFrom(t: Table, f: int, len: int, disk: Disk, bytes: seq<int>)
  {
    && 0 <= f < |t.files| && 0 <= t.files[f].node < |disk|
    && AreNext(disk[t.files[f].node], t.files[f].offset, len, bytes)
  }

  /** read: the offset moves on, and nothing else. */
  ghost predicate ReadLaw(t: Table, n: Table, f: int, got: int)
  {
    && n.procs == t.procs && n.nextPid == t.nextPid && 0 <= f < |t.files| == |n.files|
    && n.files[f].node == t.files[f].node && n.files[f].refcount == t.files[f].refcount
    && n.files[f].offset == t.files[f].offset + got
    && forall g :: 0 <= g < |t.files| && g != f ==> n.files[g] == t.files[g]
  }

  /** execve and sbrk: the process lives in this directory, with this break. */
  ghost predicate SpaceLaw(t: Table, n: Table, p: int, dir: int, brk: int)
  {
    && OnlyProc(t, n, p) && n.nextPid == t.nextPid && n.files == t.files
    && var q, r := t.procs[p], n.procs[p];
      && r.status == q.status && r.pid == q.pid && r.ppid == q.ppid && r.exitCode == q.exitCode && r.fds == q.fds
      && r.dir == dir && r.brk == brk
  }

  /** wait took the zombie in slot i: the slot is free. */
  ghost predicate ReapLaw(t: Table, n: Table, i: int)
  {
    OnlyProc(t, n, i) && n.nextPid == t.nextPid && n.files == t.files && n.procs[i].status == Free
  }

  /** What a step does to table and log. */
  ghost predicate ActLaw(s: Sys, n: Sys, a: Act, disk: Disk)
    requires Shaped(s) && Slot(a.p)
  {
    match a
    case Fork(p, i, dir) =>
      ForkLaw(s.t, n.t, p, i, dir) && n.log == s.log + [NForked(s.t.procs[p].pid, s.t.nextPid)]
    case Abandon(p, i, stale) =>
      && OnlyProc(s.t, n.t, i) && n.t.procs[i].status == Free && n.t.nextPid == s.t.nextPid + 1
      && n.t.files == s.t.files && n.log == s.log
    case Refuse(p, i, stale) =>
      && OnlyProc(s.t, n.t, i) && n.t.procs[i].status == Free && n.t.nextPid == s.t.nextPid
      && n.t.files == s.t.files && n.log == s.log
    case Exit(p, code, kdir) =>
      ExitLaw(s.t, n.t, p, code, kdir) && n.log == s.log + [NExited(s.t.procs[p].pid, code)]
    case Wait(p) => n.t == s.t && n.log == s.log && n.pc == s.pc[p := Scan(0, 0)]
    case Look(p) => n.t == s.t && (n.log == s.log || n.log == s.log + [NChildless(s.t.procs[p].pid)])
    case Take(p) =>
      && s.pc[p].Taking? && Slot(s.pc[p].j) && ReapLaw(s.t, n.t, s.pc[p].j)
      && n.log == s.log + [NReaped(s.t.procs[p].pid, s.t.procs[s.pc[p].j].pid, s.t.procs[s.pc[p].j].exitCode)]
    case Open(p, fd, f, node) => OpenLaw(s.t, n.t, p, fd, f, node) && n.log == s.log + [NOpened(f, node)]
    case Close(p, fd) => CloseLaw(s.t, n.t, p, fd) && n.log == s.log
    case Read(p, fd, len) =>
      0 <= fd < |s.t.procs[p].fds| && exists bytes: seq<int> ::
        && ReadsFrom(s.t, s.t.procs[p].fds[fd], len, disk, bytes)
        && ReadLaw(s.t, n.t, s.t.procs[p].fds[fd], |bytes|)
        && n.log == s.log + [NRead(s.t.procs[p].fds[fd], bytes)]
    case Remap(p, dir, brk) => SpaceLaw(s.t, n.t, p, dir, brk) && n.log == s.log
  }

  /** Whatever descriptors point at now, some descriptor pointed at before. */
  lemma Positions(t: Table, procs: seq<Proc>, nextPid: int)
    requires Counted(t.procs, t.files)
    requires forall i, k, f {:trigger Points(procs, i, k, f)} :: Points(procs, i, k, f) && f != NONE ==>
      exists j, l :: Points(t.procs, j, l, f)
    ensures SamePositions(t, Table(procs, nextPid, Recount(procs, t.files)))
  {
    forall f | 0 <= f < |t.files| && |Refs(procs, f)| > 0
      ensures t.files[f].refcount > 0
    {
      var x :| x in Refs(procs, f);
      assert Points(procs, x.0, x.1, f);
      var j, l :| Points(t.procs, j, l, f);
      PointsIn(t.procs, j, l, f);
    }
  }

  lemma ForkedLaw(t: Table, p: int, i: int, dir: int)
    requires 0 <= p < |t.procs| && 0 <= i < |t.procs| && Counted(t.procs, t.files)
    ensures ForkLaw(t, Forked(t, p, i, dir), p, i, dir)
  {
    hide Refs, Recount, Counted, SamePositions;
    var n := Forked(t, p, i, dir);
    forall j, k, f | Points(n.procs, j, k, f)
      ensures exists a, b :: Points(t.procs, a, b, f)
    {
      assert Points(t.procs, if j == i then p else j, k, f);
    }
    Positions(t, n.procs, n.nextPid);
  }

  lemma ExitedLaw(t: Table, p: int, code: int, kdir: int)
    requires 0 <= p < |t.procs| && Counted(t.procs, t.files)
    ensures ExitLaw(t, Exited(t, p, code, kdir), p, code, kdir)
  {
    hide Refs, Recount, Counted, SamePositions;
    var n := Exited(t, p, code, kdir);
    forall j, k, f | Points(n.procs, j, k, f) && f != NONE
      ensures exists a, b :: Points(t.procs, a, b, f)
    {
      assert Points(t.procs, j, k, f);
    }
    Positions(t, n.procs, n.nextPid);
  }

  lemma OpenedLaw(t: Table, p: int, fd: int, f: int, node: int)
    requires 0 <= p < |t.procs| && 0 <= fd < |t.procs[p].fds| && 0 <= f < |t.files|
    ensures OpenLaw(t, Opened(t, p, fd, f, node), p, fd, f, node)
  {
  }

  lemma ClosedLaw(t: Table, p: int, fd: int)
    requires 0 <= p < |t.procs| && 0 <= fd < |t.procs[p].fds| && Counted(t.procs, t.files)
    ensures CloseLaw(t, Closed(t, p, fd), p, fd)
  {
    hide Refs;
    var n := Closed(t, p, fd);
    forall g | 0 <= g < |t.files|
      ensures n.files[g] == Recounted(n.procs, t.files[g], g)
      ensures |Refs(n.procs, g)| == |Refs(t.procs, g)| - (if g == t.procs[p].fds[fd] then 1 else 0)
    {
      PutFdCount(t.procs, p, fd, NONE, g);
    }
  }

  lemma ChunkLaw(s: Sys, p: int, fd: int, len: int, disk: Disk)
    requires Shaped(s) && Possible(s, Read(p, fd, len), disk)
    ensures ActLaw(s, Next(s, Read(p, fd, len), disk), Read(p, fd, len), disk)
  {
    var f := s.t.procs[p].fds[fd];
    var bytes := Chunk(disk[s.t.files[f].node], s.t.files[f].offset, len);
    assert ReadsFrom(s.t, f, len, disk, bytes);
  }

  /** Every step does what its call promises. */
  lemma NextLaw(s: Sys, a: Act, disk: Disk)
    requires Shaped(s) && PcsOk(s) && Counted(s.t.procs, s.t.files) && Possible(s, a, disk)
    ensures ActLaw(s, Next(s, a, disk), a, disk)
  {
    hide Refs, Recount, ForkLaw, ExitLaw, OpenLaw, CloseLaw, PcOk;
    match a
    case Fork(p, i, dir) => ForkedLaw(s.t, p, i, dir);
    case Exit(p, code, kdir) => ExitedLaw(s.t, p, code, kdir);
    case Open(p, fd, f, node) => OpenedLaw(s.t, p, fd, f, node);
    case Close(p, fd) => ClosedLaw(s.t, p, fd);
    case Read(p, fd, len) => ChunkLaw(s, p, fd, len, disk);
    case Look(p) => LookedShape(s, p);
    case Take(p) => TakingFacts(s, p);
    case _ =>
  }

  /** At most one note is made, and a note of an exit is that of the caller's. */
  lemma OneNote(s: Sys, n: Sys, a: Act, disk: Disk)
    requires Shaped(s) && Slot(a.p) && ActLaw(s, n, a, disk)
    ensures n.log == s.log || exists x :: n.log == s.log + [x] && NoteOf(s, a, x)
  {
    hide ForkLaw, ExitLaw, OpenLaw, CloseLaw, ReadLaw, SpaceLaw, ReapLaw, ReadsFrom, OnlyProc;
    if n.log != s.log {
      var x := n.log[|s.log|];
      assert n.log == s.log + [x];
      assert NoteOf(s, a, x);
    }
  }

  ghost predicate NoteOf(s: Sys, a: Act, x: Note)
    requires Shaped(s) && Slot(a.p)
  {
    x.NExited? ==> a.Exit? && x == NExited(s.t.procs[a.p].pid, a.code)
  }

  lemma InvLaw(s: Sys, a: Act, disk: Disk)
    requires SysInv(s, disk) && Possible(s, a, disk)
    ensures Shaped(s) && Slot(a.p) && ActLaw(s, Next(s, a, disk), a, disk)
  {
    hide PcsOk, AllRecorded, FilesRecorded, Family, Possible, Next, ActLaw;
    ActsOf(s, a, disk);
    NextLaw(s, a, disk);
  }

  lemma ActsOf(s: Sys, a: Act, disk: Disk)
    requires Shaped(s) && Possible(s, a, disk)
    ensures Slot(a.p)
  {
  }

  lemma AdvanceLaw(s: Sys, p: int, fd: int, len: int, disk: Disk)
    requires Shaped(s) && Possible(s, Read(p, fd, len), disk)
    ensures var f := s.t.procs[p].fds[fd];
      ReadLaw(s.t, Next(s, Read(p, fd, len), disk).t, f, |Chunk(disk[s.t.files[f].node], s.t.files[f].offset, len)|)
  {
    hide Chunk;
  }

  // ---- what wait looks for ----------------------------------------------------------------------------------------

  /** A fork makes a child. */
  lemma ForkMakesChild(t: Table, n: Table, p: int, i: int, dir: int)
    requires ForkLaw(t, n, p, i, dir) && i != p
    ensures Child(n.procs, p, i)
  {
  }

  /** An exit leaves a zombie, which is the same parent's child as before. */
  lemma ExitLeavesZombie(t: Table, n: Table, q: int, p: int, code: int, kdir: int)
    requires ExitLaw(t, n, q, code, kdir) && p != q && Child(t.procs, p, q)
    ensures Child(n.procs, p, q) && n.procs[q].status == Zombie && n.procs[q].exitCode == code
  {
  }

  /** The scan after k looks without interruption. */
  function LooksAhead(s: Sys, p: int, k: nat): (n: Sys)
    requires |s.t.procs| == MAX_PROCS && |s.pc| == MAX_PROCS && Slot(p)
    ensures |n.pc| == MAX_PROCS
    decreases k
  {
    if k == 0 || !s.pc[p].Scan? then s
    else
      LookedShape(s, p);
      LooksAhead(Looked(s, p), p, k - 1)
  }

  /** A scan that is not interrupted takes the first zombie child ahead of it, and there is one to take if any lies
      ahead. */
  lemma {:induction false} ZombieFound(s: Sys, p: int, i: int)
    requires |s.t.procs| == MAX_PROCS && |s.pc| == MAX_PROCS && Slot(p) && s.pc[p].Scan? && 0 <= s.pc[p].j <= i
    requires Slot(i) && i != p && s.t.procs[i].status == Zombie && s.t.procs[i].ppid == s.t.procs[p].pid
    requires forall j :: s.pc[p].j <= j < i ==> !(Child(s.t.procs, p, j) && s.t.procs[j].status == Zombie)
    ensures var n := LooksAhead(s, p, i - s.pc[p].j + 1);
      n.pc[p] == Taking(i) && n.t == s.t && n.log == s.log
    decreases i - s.pc[p].j
  {
    hide LooksAhead;
    var k: nat := i - s.pc[p].j;
    LookedShape(s, p);
    OneLook(s, p, k);
    if s.pc[p].j < i {
      ZombieFound(Looked(s, p), p, i);
    } else {
      NoLook(Looked(s, p), p);
    }
  }

  lemma OneLook(s: Sys, p: int, k: nat)
    requires |s.t.procs| == MAX_PROCS && |s.pc| == MAX_PROCS && Slot(p) && s.pc[p].Scan?
    ensures |Looked(s, p).t.procs| == MAX_PROCS && |Looked(s, p).pc| == MAX_PROCS
    ensures LooksAhead(s, p, k + 1) == LooksAhead(Looked(s, p), p, k)
  {
    LookedShape(s, p);
  }

  lemma NoLook(s: Sys, p: int)
    requires |s.t.procs| == MAX_PROCS && |s.pc| == MAX_PROCS && Slot(p)
    ensures LooksAhead(s, p, 0) == s
  {
  }

  // ---- the code of an exit, over whole runs -----------------------------------------------------------------------

  /** Some act of the run is the exit of process `pid` with this code. */
  ghost predicate Called(s: Sys, acts: seq<Act>, disk: Disk, pid: int, code: int)
    requires Shaped(s) && IsRun(s, acts, disk)
    decreases |acts|
  {
    acts != [] &&
    ((acts[0].Exit? && acts[0].code == code && s.t.procs[acts[0].p].pid == pid)
     || Called(Next(s, acts[0], disk), acts[1..], disk, pid, code))
  }

  lemma {:induction false} ExitsCalled(s: Sys, acts: seq<Act>, disk: Disk, pid: int, code: int)
    requires SysInv(s, disk) && Shaped(s) && IsRun(s, acts, disk) && NExited(pid, code) in End(s, acts, disk).log
    ensures NExited(pid, code) in s.log || Called(s, acts, disk, pid, code)
    decreases |acts|
  {
    hide SysInv, Next, Possible, ActLaw;
    if acts != [] {
      NextKeeps(s, acts[0], disk);
      InvLaw(s, acts[0], disk);
      OneNote(s, Next(s, acts[0], disk), acts[0], disk);
      ExitsCalled(Next(s, acts[0], disk), acts[1..], disk, pid, code);
    }
  }

  /** In any run from boot, the code a reap reports is the one the reaped process gave to exit. */
  lemma ReapedCode(s: Sys, acts: seq<Act>, disk: Disk, k: int)
    requires Boot(s) && IsRun(s, acts, disk) && 0 <= k < |End(s, acts, disk).log| && End(s, acts, disk).log[k].NReaped?
    ensures Called(s, acts, disk, End(s, acts, disk).log[k].pid, End(s, acts, disk).log[k].code)
  {
    hide Next, Possible, IsRun, End, Called, SysInv;
    var j := ExitReports(s, acts, disk, k);
    BootInv(s, disk);
    ExitsCalled(s, acts, disk, End(s, acts, disk).log[k].pid, End(s, acts, disk).log[k].code);
  }
}
