/** Whole runs of fork, exit, wait and the file calls, with the slot scan of process_wait split into its steps so that
    other processes can act between them (kernel/arch/i386/process.c). */
module Lifecycle {
  import opened Reads
  import opened Table

  /** Where a process stands in the kernel: not in process_wait, about to look at slot j having seen some children, or
      about to take the zombie it found in slot j. */
  datatype Pc = Idle | Scan(j: int, seen: int) | Taking(j: int)

  /** What has been observed so far, oldest first. */
  datatype Note =
    | NForked(parent: int, child: int)
    | NExited(pid: int, code: int)
    | NReaped(taker: int, pid: int, code: int)
    | NChildless(pid: int)
    | NOpened(f: int, node: int)
    | NRead(f: int, bytes: seq<int>)

  datatype Sys = Sys(t: Table, pc: seq<Pc>, log: seq<Note>)

  datatype Act =
    | Fork(p: int, i: int, dir: int)
    | Abandon(p: int, i: int, stale: Proc)
    | Refuse(p: int, i: int, stale: Proc)
    | Exit(p: int, code: int, kdir: int)
    | Wait(p: int)
    | Look(p: int)
    | Take(p: int)
    | Open(p: int, fd: int, f: int, node: int)
    | Close(p: int, fd: int)
    | Read(p: int, fd: int, len: int)
    | Remap(p: int, dir: int, brk: int)

  predicate Acts(s: Sys, p: int)
    requires |s.t.procs| == MAX_PROCS && |s.pc| == MAX_PROCS
  {
    Slot(p) && s.t.procs[p].status == Run
  }

  ghost predicate Possible(s: Sys, a: Act, disk: Disk)
    requires Shaped(s)
  {
    && Acts(s, a.p)
    && (a.Look? <==> s.pc[a.p].Scan?)
    && (a.Take? <==> s.pc[a.p].Taking?)
    && match a
       case Fork(p, i, dir) => 1 <= i < MAX_PROCS && s.t.procs[i].status == Free
       case Abandon(p, i, stale) => 1 <= i < MAX_PROCS && s.t.procs[i].status == Free && Stale(stale)
       case Refuse(p, i, stale) => 1 <= i < MAX_PROCS && s.t.procs[i].status == Free && Stale(stale)
       case Exit(p, code, kdir) => p != 0
       case Open(p, fd, f, node) =>
         && 0 <= fd < |s.t.procs[p].fds| && s.t.procs[p].fds[fd] == NONE
         && 0 <= f < MAX_OPEN_FILES && s.t.files[f].refcount == 0 && 0 <= node < |disk|
       case Close(p, fd) => 0 <= fd < |s.t.procs[p].fds|
       case Read(p, fd, len) =>
         && 0 <= fd < |s.t.procs[p].fds| && 0 <= s.t.procs[p].fds[fd] < MAX_OPEN_FILES && 0 <= len
         && FileOk(s.t.files[s.t.procs[p].fds[fd]], disk) && s.t.files[s.t.procs[p].fds[fd]].refcount > 0
       case _ => true
  }

  ghost predicate Shaped(s: Sys)
  {
    |s.t.procs| == MAX_PROCS && |s.pc| == MAX_PROCS && |s.t.files| == MAX_OPEN_FILES
  }

  /** One look of the scan of process_wait. */
  function Looked(s: Sys, p: int): Sys
    requires |s.t.procs| == MAX_PROCS && |s.pc| == MAX_PROCS && Slot(p) && s.pc[p].Scan?
  {
    var j, seen := s.pc[p].j, s.pc[p].seen;
    if j >= MAX_PROCS then
      if seen == 0 then Sys(s.t, s.pc[p := Idle], s.log + [NChildless(s.t.procs[p].pid)])
      else Sys(s.t, s.pc[p := Scan(0, 0)], s.log)
    else if !Child(s.t.procs, p, j) then Sys(s.t, s.pc[p := Scan(j + 1, seen)], s.log)
    else if s.t.procs[j].status == Zombie then Sys(s.t, s.pc[p := Taking(j)], s.log)
    else Sys(s.t, s.pc[p := Scan(j + 1, seen + 1)], s.log)
  }

  ghost function Next(s: Sys, a: Act, disk: Disk): Sys
    requires Shaped(s) && Possible(s, a, disk)
  {
    match a
    case Fork(p, i, dir) =>
      Sys(Forked(s.t, p, i, dir), s.pc[i := Idle], s.log + [NForked(s.t.procs[p].pid, s.t.nextPid)])
    case Abandon(p, i, stale) => Sys(Abandoned(s.t, i, stale), s.pc, s.log)
    case Refuse(p, i, stale) => Sys(Table(s.t.procs[i := stale], s.t.nextPid, s.t.files), s.pc, s.log)
    case Exit(p, code, kdir) => Sys(Exited(s.t, p, code, kdir), s.pc, s.log + [NExited(s.t.procs[p].pid, code)])
    case Wait(p) => Sys(s.t, s.pc[p := Scan(0, 0)], s.log)
    case Look(p) => Looked(s, p)
    case Take(p) => Taken(s, p)
    case Open(p, fd, f, node) => Sys(Opened(s.t, p, fd, f, node), s.pc, s.log + [NOpened(f, node)])
    case Close(p, fd) => Sys(Closed(s.t, p, fd), s.pc, s.log)
    case Read(p, fd, len) =>
      var f := s.t.procs[p].fds[fd];
      var bytes := Chunk(disk[s.t.files[f].node], s.t.files[f].offset, len);
      Sys(Advanced(s.t, f, |bytes|), s.pc, s.log + [NRead(f, bytes)])
    case Remap(p, dir, brk) => Sys(Remapped(s.t, p, dir, brk), s.pc, s.log)
  }

  function Taken(s: Sys, p: int): Sys
    requires |s.t.procs| == MAX_PROCS && |s.pc| == MAX_PROCS && Slot(p) && s.pc[p].Taking?
  {
    var j := s.pc[p].j;
    if Slot(j) then
      Sys(Reaped(s.t, j), s.pc[p := Idle], s.log + [NReaped(s.t.procs[p].pid, s.t.procs[j].pid, s.t.procs[j].exitCode)])
    else s
  }

  // ---- the scan ------------------------------------------------------------------------------------------------

  ghost predicate ChildFrom(procs: seq<Proc>, p: int, j: int)
  {
    exists i :: j <= i && Child(procs, p, i)
  }

  /** What a scan may rely on however it is preempted: if it has seen no child and there is one, then some child lies
      ahead of it (others may lie behind: orphans that process 0 was given); if it has seen one, there is one; and a
      zombie it is about to take is still there and still its child. */
  ghost predicate PcOk(procs: seq<Proc>, p: int, pc: Pc)
    requires 0 <= p < |procs|
  {
    && (procs[p].status != Run ==> pc == Idle)
    && match pc
       case Idle => true
       case Scan(j, seen) =>
         0 <= j <= MAX_PROCS && 0 <= seen && (if seen == 0 then ChildFrom(procs, p, 0) ==> ChildFrom(procs, p, j)
                                              else ChildFrom(procs, p, 0))
       case Taking(j) => 1 <= j < MAX_PROCS && Child(procs, p, j) && procs[j].status == Zombie
  }

  ghost predicate PcsOk(s: Sys)
  {
    |s.t.procs| == MAX_PROCS && |s.pc| == MAX_PROCS && forall p {:trigger s.pc[p]} :: Slot(p) ==>
      PcOk(s.t.procs, p, s.pc[p])
  }

  /** A step of another process that keeps p's children, and keeps zombies among them, does not disturb p's scan. */
  lemma ScanKept(a: seq<Proc>, b: seq<Proc>, p: int, pc: Pc)
    requires 0 <= p < |a| && |a| == |b| && PcOk(a, p, pc) && a[p].status == Run && b[p].status == Run
    requires forall k {:trigger Child(b, p, k)} :: Child(a, p, k) ==> Child(b, p, k)
    requires forall k {:trigger Child(b, p, k)} :: Child(b, p, k) ==> Child(a, p, k) || ChildFrom(a, p, 0)
    requires forall k {:trigger Child(a, p, k)} :: Child(a, p, k) && a[k].status == Zombie ==> b[k].status == Zombie
    ensures PcOk(b, p, pc)
  {
    forall j | ChildFrom(a, p, j)
      ensures ChildFrom(b, p, j)
    {
      var i :| j <= i && Child(a, p, i);
      assert Child(b, p, i);
    }
    if ChildFrom(b, p, 0) {
      var i :| 0 <= i && Child(b, p, i);
      assert Child(a, p, i) ==> ChildFrom(a, p, 0);
    }
  }

  lemma SameFamilyScan(a: seq<Proc>, b: seq<Proc>, p: int, pc: Pc)
    requires 0 <= p < |a| && SameFamily(a, b) && PcOk(a, p, pc)
    ensures PcOk(b, p, pc)
  {
    forall k
      ensures Child(b, p, k) <==> Child(a, p, k)
    {
      assert 0 <= k < |a| ==> b[k].status == a[k].status;
      assert b[p].pid == a[p].pid;
    }
    assert b[p].status == a[p].status;
    if a[p].status == Run {
      ScanKept(a, b, p, pc);
    }
  }

  lemma ForkScan(t: Table, q: int, i: int, dir: int, p: int, pc: Pc)
    requires Family(t) && Slot(q) && Slot(p) && t.procs[q].status == Run && 1 <= i < MAX_PROCS
    requires t.procs[i].status == Free
    requires PcOk(t.procs, p, pc) && (p == q ==> pc == Idle) && p != i
    ensures PcOk(Forked(t, q, i, dir).procs, p, pc)
  {
    var b := Forked(t, q, i, dir).procs;
    if t.procs[p].status == Run && p != q {
      assert Live(t.procs, p) && Live(t.procs, q);
      forall k
        ensures Child(b, p, k) <==> Child(t.procs, p, k)
      {
      }
      ScanKept(t.procs, b, p, pc);
    }
  }

  lemma VacateScan(t: Table, i: int, c: Proc, p: int, pc: Pc)
    requires Family(t) && Slot(p) && 1 <= i < MAX_PROCS && c.status == Free && p != i
    requires t.procs[i].status == Free || (t.procs[i].status == Zombie && t.procs[i].ppid != t.procs[p].pid)
    requires PcOk(t.procs, p, pc)
    ensures PcOk(t.procs[i := c], p, pc)
  {
    var b := t.procs[i := c];
    forall k
      ensures Child(b, p, k) <==> Child(t.procs, p, k)
    {
    }
    if t.procs[p].status == Run {
      ScanKept(t.procs, b, p, pc);
    }
  }

  lemma ExitScan(t: Table, q: int, code: int, kdir: int, p: int, pc: Pc)
    requires Family(t) && 1 <= q < MAX_PROCS && Slot(p) && t.procs[q].status == Run
    requires PcOk(t.procs, p, pc) && (p == q ==> pc == Idle)
    ensures PcOk(Exited(t, q, code, kdir).procs, p, pc)
  {
    var b := Exited(t, q, code, kdir).procs;
    assert Live(t.procs, q) && Live(t.procs, 0);
    if t.procs[p].status == Run && p != q {
      assert Live(t.procs, p);
      forall k
        ensures Child(b, p, k) <==> Child(t.procs, p, k) || (p == 0 && Child(t.procs, q, k))
        ensures Child(t.procs, p, k) && t.procs[k].status == Zombie ==> b[k].status == Zombie
      {
      }
      if p == 0 {
        FirstHasChild(t, q);
        assert ChildFrom(t.procs, 0, 0);
      }
      ScanKept(t.procs, b, p, pc);
    }
  }

  /** One look of the scan keeps what the scan may rely on. */
  lemma LookScan(s: Sys, p: int)
    requires PcsOk(s) && Acts(s, p) && s.pc[p].Scan? && Family(s.t)
    ensures PcOk(s.t.procs, p, Looked(s, p).pc[p])
  {
    var procs, j := s.t.procs, s.pc[p].j;
    assert Live(procs, 0) && Live(procs, p);
    if j < MAX_PROCS {
      if Child(procs, p, j) {
        assert ChildFrom(procs, p, 0);
      } else if ChildFrom(procs, p, j) {
        var i :| j <= i && Child(procs, p, i);
        assert j + 1 <= i;
        assert ChildFrom(procs, p, j + 1);
      }
    }
  }

  /** The scan reports "no child" exactly when the caller has none at that moment, however it was preempted. */
  lemma ChildlessIff(s: Sys, p: int)
    requires PcsOk(s) && Acts(s, p) && s.pc[p].Scan? && s.pc[p].j == MAX_PROCS
    ensures Looked(s, p).log == s.log + [NChildless(s.t.procs[p].pid)] <==> forall i :: !Child(s.t.procs, p, i)
  {
    assert PcOk(s.t.procs, p, s.pc[p]);
    if s.pc[p].seen == 0 {
      forall i
        ensures !Child(s.t.procs, p, i)
      {
        if Child(s.t.procs, p, i) {
          assert ChildFrom(s.t.procs, p, 0);
        }
      }
    }
  }

  lemma NextPcs(s: Sys, a: Act, disk: Disk)
    requires Family(s.t) && PcsOk(s) && Shaped(s) && Possible(s, a, disk) && Family(Next(s, a, disk).t)
    ensures PcsOk(Next(s, a, disk))
  {
    hide PcOk, Family, Recount, Looked, Opened, Closed, Advanced, Remapped, Reaped, Forked, Exited;
    var n := Next(s, a, disk);
    match a
    case Look(p) =>
      LookScan(s, p);
      LookedShape(s, p);
    case Take(p) =>
      TakePcs(s, p);
    case Wait(p) =>
      WaitPc(s.t.procs, p);
    case Fork(p, i, dir) =>
      ForkedShape(s.t, p, i, dir);
      NewPc(Forked(s.t, p, i, dir).procs, i);
      forall q | Slot(q)
        ensures PcOk(n.t.procs, q, n.pc[q])
      {
        if q != i {
          IdleOf(s, p);
          ForkScan(s.t, p, i, dir, q, s.pc[q]);
        }
      }
    case Exit(p, code, kdir) =>
      forall q | Slot(q)
        ensures PcOk(n.t.procs, q, n.pc[q])
      {
        IdleOf(s, p);
        ExitScan(s.t, p, code, kdir, q, s.pc[q]);
      }
    case Abandon(p, i, stale) =>
      VacatePcs(s, Abandoned(s.t, i, stale), i, stale);
    case Refuse(p, i, stale) =>
      VacatePcs(s, n.t, i, stale);
    case _ =>
      SameFamilyActs(s, a, disk);
      forall q | Slot(q)
        ensures PcOk(n.t.procs, q, n.pc[q])
      {
        SameFamilyScan(s.t.procs, n.t.procs, q, s.pc[q]);
      }
  }

  lemma LookedShape(s: Sys, p: int)
    requires |s.t.procs| == MAX_PROCS && |s.pc| == MAX_PROCS && Slot(p) && s.pc[p].Scan?
    ensures Looked(s, p).t == s.t && Looked(s, p).pc == s.pc[p := Looked(s, p).pc[p]]
  {
  }

  lemma ForkedShape(t: Table, p: int, i: int, dir: int)
    requires 0 <= p < |t.procs| && 0 <= i < |t.procs|
    ensures |Forked(t, p, i, dir).procs| == |t.procs| && Forked(t, p, i, dir).procs[i].status == Run
  {
    hide Recount;
  }

  lemma NewPc(procs: seq<Proc>, i: int)
    requires 0 <= i < |procs|
    ensures PcOk(procs, i, Idle)
  {
  }

  lemma WaitPc(procs: seq<Proc>, p: int)
    requires 0 <= p < |procs| && procs[p].status == Run
    ensures PcOk(procs, p, Scan(0, 0))
  {
  }

  lemma IdleOf(s: Sys, p: int)
    requires Shaped(s) && Slot(p) && !s.pc[p].Scan? && !s.pc[p].Taking?
    ensures s.pc[p] == Idle
  {
  }

  lemma SameFamilyActs(s: Sys, a: Act, disk: Disk)
    requires Shaped(s) && Possible(s, a, disk) && (a.Open? || a.Close? || a.Read? || a.Remap?)
    ensures SameFamily(s.t.procs, Next(s, a, disk).t.procs) && Next(s, a, disk).pc == s.pc
  {
    hide Recount;
  }

  lemma VacatePcs(s: Sys, n: Table, i: int, c: Proc)
    requires Family(s.t) && PcsOk(s) && 1 <= i < MAX_PROCS && s.t.procs[i].status == Free && c.status == Free
    requires n.procs == s.t.procs[i := c]
    ensures PcsOk(Sys(n, s.pc, s.log))
  {
    hide Family, Child, Runs;
    forall q | Slot(q)
      ensures PcOk(n.procs, q, s.pc[q])
    {
      if q != i {
        VacateScan(s.t, i, c, q, s.pc[q]);
      }
    }
  }

  lemma TakePcs(s: Sys, p: int)
    requires Family(s.t) && PcsOk(s) && Acts(s, p) && s.pc[p].Taking?
    ensures PcsOk(Taken(s, p))
  {
    var j, procs := s.pc[p].j, s.t.procs;
    assert PcOk(procs, p, s.pc[p]);
    var n := Taken(s, p);
    forall q | Slot(q)
      ensures PcOk(n.t.procs, q, n.pc[q])
    {
      assert PcOk(procs, q, s.pc[q]);
      if q != p && q != j && procs[q].status == Run {
        assert Live(procs, p) && Live(procs, q);
        VacateScan(s.t, j, n.t.procs[j], q, s.pc[q]);
      }
    }
  }

  // ---- the log --------------------------------------------------------------------------------------------------

  ghost predicate HasExit(log: seq<Note>, pid: int)
  {
    exists code :: NExited(pid, code) in log
  }

  ghost predicate HasReap(log: seq<Note>, pid: int)
  {
    exists q, code :: NReaped(q, pid, code) in log
  }

  ghost predicate HasFork(log: seq<Note>, pid: int)
  {
    exists q :: NForked(q, pid) in log
  }

  /** Process q forked pid, or q is process 0 and the one that forked pid has exited. */
  ghost predicate InCharge(log: seq<Note>, q: int, pid: int)
  {
    exists par :: NForked(par, pid) in log && (q == par || (q == 0 && HasExit(log, par)))
  }

  /** The note is right after the history before it: a pid is forked, exits and is reaped at most once, a reap reports
      the code of the exit and goes to the process in charge. */
  ghost predicate NoteOk(log: seq<Note>, n: Note, nextPid: int)
  {
    match n
    case NForked(par, child) => 0 <= par < child < nextPid && !HasFork(log, child)
    case NExited(pid, code) => 0 < pid < nextPid && !HasExit(log, pid)
    case NReaped(q, pid, code) =>
      0 < pid < nextPid && NExited(pid, code) in log && InCharge(log, q, pid) && !HasReap(log, pid)
    case _ => true
  }

  ghost predicate LogInv(log: seq<Note>, nextPid: int)
  {
    forall k {:trigger log[k]} :: 0 <= k < |log| ==> NoteOk(log[..k], log[k], nextPid)
  }

  /** What the log says about each process that exists. */
  ghost predicate Recorded(log: seq<Note>, q: Proc)
  {
    && InCharge(log, q.ppid, q.pid)
    && !HasReap(log, q.pid)
    && (if q.status == Zombie then NExited(q.pid, q.exitCode) in log else !HasExit(log, q.pid))
  }

  ghost predicate AllRecorded(t: Table, log: seq<Note>)
  {
    && LogInv(log, t.nextPid)
    && (forall i {:trigger Live(t.procs, i)} :: 1 <= i && Live(t.procs, i) ==> Recorded(log, t.procs[i]))
  }

  lemma LogGrows(log: seq<Note>, n: Note, nextPid: int, nextPid': int)
    requires LogInv(log, nextPid) && NoteOk(log, n, nextPid') && nextPid <= nextPid'
    ensures LogInv(log + [n], nextPid')
  {
    hide NoteOk;
    var m := log + [n];
    forall k | 0 <= k < |m|
      ensures NoteOk(m[..k], m[k], nextPid')
    {
      if k < |log| {
        assert m[..k] == log[..k] && m[k] == log[k];
        NoteLater(log[..k], log[k], nextPid, nextPid');
      } else {
        assert m[..k] == log;
      }
    }
  }

  lemma NoteLater(log: seq<Note>, n: Note, nextPid: int, nextPid': int)
    requires NoteOk(log, n, nextPid) && nextPid <= nextPid'
    ensures NoteOk(log, n, nextPid')
  {
  }

  lemma LogWider(log: seq<Note>, nextPid: int, nextPid': int)
    requires LogInv(log, nextPid) && nextPid <= nextPid'
    ensures LogInv(log, nextPid')
  {
    forall k | 0 <= k < |log|
      ensures NoteOk(log[..k], log[k], nextPid')
    {
      NoteLater(log[..k], log[k], nextPid, nextPid');
    }
  }

  /** The log speaks only of pids already given out. */
  lemma NotYet(log: seq<Note>, nextPid: int, pid: int)
    requires LogInv(log, nextPid) && nextPid <= pid
    ensures !HasFork(log, pid) && !HasExit(log, pid) && !HasReap(log, pid)
  {
    forall n | n in log
      ensures !(n.NForked? && n.child == pid) && !(n.NExited? && n.pid == pid) && !(n.NReaped? && n.pid == pid)
    {
      var k :| 0 <= k < |log| && log[k] == n;
      assert NoteOk(log[..k], log[k], nextPid);
    }
  }

  lemma OneMore(log: seq<Note>, n: Note, pid: int)
    ensures HasExit(log + [n], pid) ==> HasExit(log, pid) || (n.NExited? && n.pid == pid)
    ensures HasReap(log + [n], pid) ==> HasReap(log, pid) || (n.NReaped? && n.pid == pid)
  {
  }

  /** A note about another process changes nothing recorded about this one. */
  lemma StillRecorded(log: seq<Note>, n: Note, q: Proc)
    requires Recorded(log, q)
    requires n.NExited? || n.NReaped? ==> n.pid != q.pid
    ensures Recorded(log + [n], q)
  {
    var par :| NForked(par, q.pid) in log && (q.ppid == par || (q.ppid == 0 && HasExit(log, par)));
    if HasExit(log, par) {
      var c :| NExited(par, c) in log;
      assert NExited(par, c) in log + [n];
    }
    assert NForked(par, q.pid) in log + [n];
    OneMore(log, n, q.pid);
  }

  lemma ForkRecorded(s: Sys, p: int, i: int, dir: int)
    requires Shaped(s) && Family(s.t) && AllRecorded(s.t, s.log)
    requires Slot(p) && s.t.procs[p].status == Run && 1 <= i < MAX_PROCS && s.t.procs[i].status == Free
    ensures AllRecorded(Forked(s.t, p, i, dir), s.log + [NForked(s.t.procs[p].pid, s.t.nextPid)])
  {
    hide Recount, Recorded, LogInv, NoteOk;
    var t, n := s.t, Forked(s.t, p, i, dir);
    var note := NForked(t.procs[p].pid, t.nextPid);
    assert Live(t.procs, p);
    NotYet(s.log, t.nextPid, t.nextPid);
    ForkNote(s.log, t.procs[p].pid, t.nextPid);
    LogGrows(s.log, note, t.nextPid, t.nextPid + 1);
    ChildRecorded(s.log, n.procs[i], t.procs[p].pid);
    forall k | 1 <= k && Live(n.procs, k)
      ensures Recorded(s.log + [note], n.procs[k])
    {
      if k != i {
        assert Live(t.procs, k);
        StillRecorded(s.log, note, t.procs[k]);
      }
    }
  }

  lemma ForkNote(log: seq<Note>, par: int, child: int)
    requires 0 <= par < child && !HasFork(log, child)
    ensures NoteOk(log, NForked(par, child), child + 1)
  {
  }

  lemma ChildRecorded(log: seq<Note>, c: Proc, par: int)
    requires c.status == Run && c.ppid == par && !HasExit(log, c.pid) && !HasReap(log, c.pid)
    ensures Recorded(log + [NForked(par, c.pid)], c)
  {
    var m := log + [NForked(par, c.pid)];
    assert NForked(par, c.pid) in m;
    OneMore(log, NForked(par, c.pid), c.pid);
  }

  lemma ExitRecorded(s: Sys, p: int, code: int, kdir: int)
    requires Shaped(s) && Family(s.t) && AllRecorded(s.t, s.log)
    requires 1 <= p < MAX_PROCS && s.t.procs[p].status == Run
    ensures AllRecorded(Exited(s.t, p, code, kdir), s.log + [NExited(s.t.procs[p].pid, code)])
  {
    hide Recount, Recorded, LogInv, NoteOk;
    var t, n := s.t, Exited(s.t, p, code, kdir);
    var note := NExited(t.procs[p].pid, code);
    assert Live(t.procs, p);
    ExitNote(s.log, t.procs[p], code, t.nextPid);
    LogGrows(s.log, note, t.nextPid, t.nextPid);
    forall k | 1 <= k && Live(n.procs, k)
      ensures Recorded(s.log + [note], n.procs[k])
    {
      assert Live(t.procs, k);
      if k == p {
        ZombieRecorded(s.log, t.procs[p], n.procs[p], code);
      } else {
        StillRecorded(s.log, note, t.procs[k]);
        Reparented(s.log + [note], t.procs[k], n.procs[k], t.procs[p].pid, code);
      }
    }
  }

  lemma ExitNote(log: seq<Note>, q: Proc, code: int, nextPid: int)
    requires Recorded(log, q) && q.status == Run && 0 < q.pid < nextPid
    ensures NoteOk(log, NExited(q.pid, code), nextPid)
  {
  }

  lemma ZombieRecorded(log: seq<Note>, q: Proc, z: Proc, code: int)
    requires Recorded(log, q) && z.status == Zombie && z.pid == q.pid && z.ppid == q.ppid && z.exitCode == code
    ensures Recorded(log + [NExited(q.pid, code)], z)
  {
    var m := log + [NExited(q.pid, code)];
    var par :| NForked(par, q.pid) in log && (q.ppid == par || (q.ppid == 0 && HasExit(log, par)));
    if HasExit(log, par) {
      var c :| NExited(par, c) in log;
      assert NExited(par, c) in m;
    }
    assert NForked(par, q.pid) in m && NExited(q.pid, code) in m;
    OneMore(log, NExited(q.pid, code), q.pid);
  }

  /** A child of the process that just exited now belongs to process 0. */
  lemma Reparented(log: seq<Note>, q: Proc, r: Proc, gone: int, code: int)
    requires Recorded(log, q) && NExited(gone, code) in log
    requires r == q || (q.ppid == gone && r == Proc(q.status, q.pid, 0, q.exitCode, q.dir, q.brk, q.fds))
    ensures Recorded(log, r)
  {
    var par :| NForked(par, q.pid) in log && (q.ppid == par || (q.ppid == 0 && HasExit(log, par)));
    assert HasExit(log, gone);
    assert InCharge(log, r.ppid, r.pid);
  }

  lemma TakeRecorded(s: Sys, p: int)
    requires Shaped(s) && Family(s.t) && AllRecorded(s.t, s.log) && PcsOk(s) && Acts(s, p) && s.pc[p].Taking?
    ensures AllRecorded(Taken(s, p).t, Taken(s, p).log)
  {
    hide Recorded, LogInv, NoteOk, PcOk;
    var t, j := s.t, s.pc[p].j;
    TakingFacts(s, p);
    assert Live(t.procs, j) && Live(t.procs, p);
    var note := NReaped(t.procs[p].pid, t.procs[j].pid, t.procs[j].exitCode);
    ReapNote(s.log, t.procs[j], t.procs[p].pid, t.nextPid);
    LogGrows(s.log, note, t.nextPid, t.nextPid);
    forall k | 1 <= k && Live(Taken(s, p).t.procs, k)
      ensures Recorded(s.log + [note], Taken(s, p).t.procs[k])
    {
      assert Live(t.procs, k) && k != j;
      StillRecorded(s.log, note, t.procs[k]);
    }
  }

  lemma TakingFacts(s: Sys, p: int)
    requires PcsOk(s) && Slot(p) && s.pc[p].Taking?
    ensures 1 <= s.pc[p].j < MAX_PROCS && Child(s.t.procs, p, s.pc[p].j) && s.t.procs[s.pc[p].j].status == Zombie
  {
    assert PcOk(s.t.procs, p, s.pc[p]);
  }

  lemma ReapNote(log: seq<Note>, z: Proc, q: int, nextPid: int)
    requires Recorded(log, z) && z.status == Zombie && z.ppid == q && 0 < z.pid < nextPid
    ensures NoteOk(log, NReaped(q, z.pid, z.exitCode), nextPid)
  {
  }

  /** Notes that concern no pid, and steps that leave the family tree and exit codes alone. */
  lemma SameRecorded(t: Table, n: Table, log: seq<Note>, notes: seq<Note>)
    requires AllRecorded(t, log) && t.nextPid <= n.nextPid
    requires |notes| <= 1 && (forall x :: x in notes ==> x.NChildless? || x.NOpened? || x.NRead?)
    requires forall i {:trigger Live(n.procs, i)} :: 1 <= i && Live(n.procs, i) ==>
      && Live(t.procs, i)
      && n.procs[i].status == t.procs[i].status && n.procs[i].pid == t.procs[i].pid
      && n.procs[i].ppid == t.procs[i].ppid && n.procs[i].exitCode == t.procs[i].exitCode
    ensures AllRecorded(n, log + notes)
  {
    hide LogInv;
    LogWider(log, t.nextPid, n.nextPid);
    if |notes| == 1 {
      assert notes == [notes[0]] && notes[0] in notes;
      LogGrows(log, notes[0], n.nextPid, n.nextPid);
    } else {
      assert log + notes == log;
    }
    forall i | 1 <= i && Live(n.procs, i)
      ensures Recorded(log + notes, n.procs[i])
    {
      assert Live(t.procs, i);
      SameProcRecorded(log, t.procs[i], n.procs[i]);
      if |notes| == 1 {
        StillRecorded(log, notes[0], n.procs[i]);
      }
    }
  }

  lemma SameProcRecorded(log: seq<Note>, q: Proc, r: Proc)
    requires Recorded(log, q) && r.status == q.status && r.pid == q.pid && r.ppid == q.ppid && r.exitCode == q.exitCode
    ensures Recorded(log, r)
  {
  }

  lemma NextRecorded(s: Sys, a: Act, disk: Disk)
    requires Shaped(s) && Family(s.t) && AllRecorded(s.t, s.log) && PcsOk(s) && Possible(s, a, disk)
    ensures AllRecorded(Next(s, a, disk).t, Next(s, a, disk).log)
  {
    hide AllRecorded, Family, PcsOk, Recount;
    var n := Next(s, a, disk);
    match a
    case Fork(p, i, dir) => ForkRecorded(s, p, i, dir);
    case Exit(p, code, kdir) => ExitRecorded(s, p, code, kdir);
    case Take(p) => TakeRecorded(s, p);
    case _ =>
      var notes := n.log[|s.log|..];
      assert n.log == s.log + notes;
      SameRecorded(s.t, n.t, s.log, notes);
  }

  // ---- reads through shared entries ------------------------------------------------------------------------------

  /** The file pool entry f was last opened on. */
  ghost function OpenedOn(log: seq<Note>, f: int): int
  {
    if log == [] then NONE
    else
      var n := log[|log| - 1];
      if n.NOpened? && n.f == f then n.node else OpenedOn(log[..|log| - 1], f)
  }

  /** Everything read through pool entry f since it was last opened, by whichever process, in order. */
  ghost function ReadSince(log: seq<Note>, f: int): seq<int>
  {
    if log == [] then []
    else
      var n := log[|log| - 1];
      if n.NOpened? && n.f == f then []
      else if n.NRead? && n.f == f then ReadSince(log[..|log| - 1], f) + n.bytes
      else ReadSince(log[..|log| - 1], f)
  }

  ghost predicate FileRecorded(e: OpenFile, log: seq<Note>, f: int, disk: Disk)
  {
    e.refcount > 0 ==>
      && OpenedOn(log, f) == e.node
      && 0 <= e.node < |disk| && 0 <= e.offset <= |disk[e.node]|
      && ReadSince(log, f) == disk[e.node][..e.offset]
  }

  ghost predicate FilesRecorded(t: Table, log: seq<Note>, disk: Disk)
  {
    forall f {:trigger t.files[f]} :: 0 <= f < |t.files| ==> FileRecorded(t.files[f], log, f, disk)
  }

  lemma OtherNote(log: seq<Note>, n: Note, f: int)
    ensures n.NOpened? && n.f == f ==> OpenedOn(log + [n], f) == n.node && ReadSince(log + [n], f) == []
    ensures n.NRead? && n.f == f ==>
      OpenedOn(log + [n], f) == OpenedOn(log, f) && ReadSince(log + [n], f) == ReadSince(log, f) + n.bytes
    ensures !(n.NOpened? && n.f == f) && !(n.NRead? && n.f == f) ==>
      OpenedOn(log + [n], f) == OpenedOn(log, f) && ReadSince(log + [n], f) == ReadSince(log, f)
  {
    assert (log + [n])[..|log|] == log;
  }

  lemma ReadGrows(file: seq<int>, offset: int, size: int)
    requires 0 <= offset <= |file| && 0 <= size
    ensures offset + |Chunk(file, offset, size)| <= |file|
    ensures file[..offset] + Chunk(file, offset, size) == file[..offset + |Chunk(file, offset, size)|]
    ensures Chunk(file, offset, size) == [] <==> size == 0 || offset == |file|
  {
  }

  lemma ReadRecorded(s: Sys, p: int, fd: int, len: int, disk: Disk)
    requires Shaped(s) && FilesRecorded(s.t, s.log, disk) && Possible(s, Read(p, fd, len), disk)
    ensures FilesRecorded(Next(s, Read(p, fd, len), disk).t, Next(s, Read(p, fd, len), disk).log, disk)
  {
    hide OpenedOn, ReadSince, Chunk;
    var n := Next(s, Read(p, fd, len), disk);
    var f := s.t.procs[p].fds[fd];
    var e := s.t.files[f];
    ReadGrows(disk[e.node], e.offset, len);
    var note := NRead(f, Chunk(disk[e.node], e.offset, len));
    forall g | 0 <= g < |n.t.files|
      ensures FileRecorded(n.t.files[g], n.log, g, disk)
    {
      assert FileRecorded(s.t.files[g], s.log, g, disk);
      OtherNote(s.log, note, g);
    }
  }

  lemma OpenRecorded(s: Sys, p: int, fd: int, f: int, node: int, disk: Disk)
    requires Shaped(s) && FilesRecorded(s.t, s.log, disk) && Possible(s, Open(p, fd, f, node), disk)
    ensures FilesRecorded(Next(s, Open(p, fd, f, node), disk).t, Next(s, Open(p, fd, f, node), disk).log, disk)
  {
    hide OpenedOn, ReadSince;
    var n := Next(s, Open(p, fd, f, node), disk);
    forall g | 0 <= g < |n.t.files|
      ensures FileRecorded(n.t.files[g], n.log, g, disk)
    {
      assert FileRecorded(s.t.files[g], s.log, g, disk);
      OtherNote(s.log, NOpened(f, node), g);
    }
  }

  /** Steps that open and read nothing leave each entry as it is, or close it, or change its count. */
  lemma OtherRecorded(t: Table, n: Table, log: seq<Note>, notes: seq<Note>, disk: Disk)
    requires FilesRecorded(t, log, disk) && |n.files| == |t.files|
    requires |notes| <= 1 && (forall x :: x in notes ==> !x.NOpened? && !x.NRead?)
    requires forall f {:trigger n.files[f]} :: 0 <= f < |t.files| && n.files[f].refcount > 0 ==>
      t.files[f].refcount > 0 && n.files[f].node == t.files[f].node && n.files[f].offset == t.files[f].offset
    ensures FilesRecorded(n, log + notes, disk)
  {
    hide OpenedOn, ReadSince;
    forall f | 0 <= f < |n.files|
      ensures FileRecorded(n.files[f], log + notes, f, disk)
    {
      assert FileRecorded(t.files[f], log, f, disk);
      if |notes| == 1 {
        assert notes == [notes[0]] && notes[0] in notes;
        OtherNote(log, notes[0], f);
      } else {
        assert log + notes == log;
      }
    }
  }

  /** An entry that is open after fork, exit or close was open before. */
  lemma OpenBefore(t: Table, procs: seq<Proc>, f: int, disk: Disk)
    requires Descriptors(t, disk) && 0 <= f < MAX_OPEN_FILES && |Refs(procs, f)| > 0
    requires forall i, k {:trigger Points(procs, i, k, f)} :: Points(procs, i, k, f) ==>
      exists j, l :: Points(t.procs, j, l, f)
    ensures t.files[f].refcount > 0
  {
    var x :| x in Refs(procs, f);
    assert Points(procs, x.0, x.1, f);
    var j, l :| Points(t.procs, j, l, f);
    PointsIn(t.procs, j, l, f);
  }

  lemma PoolRecorded(s: Sys, a: Act, disk: Disk)
    requires Shaped(s) && Descriptors(s.t, disk) && FilesRecorded(s.t, s.log, disk) && Possible(s, a, disk)
    requires a.Fork? || a.Exit? || a.Close?
    ensures FilesRecorded(Next(s, a, disk).t, Next(s, a, disk).log, disk)
  {
    hide Refs, FilesRecorded;
    var n := Next(s, a, disk);
    forall f | 0 <= f < MAX_OPEN_FILES && n.t.files[f].refcount > 0
      ensures s.t.files[f].refcount > 0
      ensures n.t.files[f].node == s.t.files[f].node && n.t.files[f].offset == s.t.files[f].offset
    {
      assert n.t.files[f] == Recounted(n.t.procs, s.t.files[f], f);
      forall i, k | Points(n.t.procs, i, k, f)
        ensures exists j, l :: Points(s.t.procs, j, l, f)
      {
        assert Points(s.t.procs, if a.Fork? && i == a.i then a.p else i, k, f);
      }
      OpenBefore(s.t, n.t.procs, f, disk);
    }
    var notes := n.log[|s.log|..];
    assert n.log == s.log + notes;
    OtherRecorded(s.t, n.t, s.log, notes, disk);
  }

  lemma NextFiles(s: Sys, a: Act, disk: Disk)
    requires Shaped(s) && Descriptors(s.t, disk) && FilesRecorded(s.t, s.log, disk) && Possible(s, a, disk)
    ensures FilesRecorded(Next(s, a, disk).t, Next(s, a, disk).log, disk)
  {
    hide FilesRecorded, Descriptors, Recount;
    match a
    case Open(p, fd, f, node) => OpenRecorded(s, p, fd, f, node, disk);
    case Read(p, fd, len) => ReadRecorded(s, p, fd, len, disk);
    case Fork(_, _, _) => PoolRecorded(s, a, disk);
    case Exit(_, _, _) => PoolRecorded(s, a, disk);
    case Close(_, _) => PoolRecorded(s, a, disk);
    case _ =>
      var n := Next(s, a, disk);
      var notes := n.log[|s.log|..];
      assert n.log == s.log + notes;
      OtherRecorded(s.t, n.t, s.log, notes, disk);
  }

  // ---- one step, and whole runs -----------------------------------------------------------------------------------

  ghost predicate SysInv(s: Sys, disk: Disk)
  {
    && Shaped(s)
    && TableInv(s.t, disk)
    && PcsOk(s)
    && AllRecorded(s.t, s.log)
    && FilesRecorded(s.t, s.log, disk)
  }

  lemma NextTable(s: Sys, a: Act, disk: Disk)
    requires Shaped(s) && TableInv(s.t, disk) && PcsOk(s) && Possible(s, a, disk)
    ensures TableInv(Next(s, a, disk).t, disk) && Shaped(Next(s, a, disk))
  {
    hide TableInv, PcsOk, Recount;
    match a
    case Fork(p, i, dir) => ForkedKeeps(s.t, p, i, dir, disk);
    case Abandon(p, i, stale) => AbandonedKeeps(s.t, i, stale, disk);
    case Refuse(p, i, stale) => AbandonedKeeps(s.t, i, stale, disk);
    case Exit(p, code, kdir) => ExitedKeeps(s.t, p, code, kdir, disk);
    case Wait(p) =>
    case Look(p) => LookedShape(s, p);
    case Take(p) =>
      TakingFacts(s, p);
      ReapedKeeps(s.t, s.pc[p].j, disk);
    case Open(p, fd, f, node) =>
      FdsLength(s.t, p, disk);
      OpenedKeeps(s.t, p, fd, f, node, disk);
    case Close(p, fd) =>
      FdsLength(s.t, p, disk);
      ClosedKeeps(s.t, p, fd, disk);
    case Read(p, fd, len) =>
      var e := s.t.files[s.t.procs[p].fds[fd]];
      ReadGrows(disk[e.node], e.offset, len);
      AdvancedKeeps(s.t, s.t.procs[p].fds[fd], |Chunk(disk[e.node], e.offset, len)|, disk);
    case Remap(p, dir, brk) => RemappedKeeps(s.t, p, dir, brk, disk);
  }

  lemma FdsLength(t: Table, p: int, disk: Disk)
    requires TableInv(t, disk) && Slot(p)
    ensures |t.procs[p].fds| == MAX_FDS
  {
    assert FdsOk(t.procs[p]);
  }

  /** Every step keeps the whole invariant. */
  lemma NextKeeps(s: Sys, a: Act, disk: Disk)
    requires SysInv(s, disk) && Possible(s, a, disk)
    ensures SysInv(Next(s, a, disk), disk)
  {
    hide PcsOk, AllRecorded, FilesRecorded, Family, Descriptors, Possible, Next;
    NextTable(s, a, disk);
    NextPcs(s, a, disk);
    NextRecorded(s, a, disk);
    NextFiles(s, a, disk);
  }

  lemma NextLog(s: Sys, a: Act, disk: Disk)
    requires Shaped(s) && Possible(s, a, disk)
    ensures s.log <= Next(s, a, disk).log
  {
    hide Recount;
  }

  /** The machine after process_initialize: process 0 runs, nothing is open. */
  ghost predicate Boot(s: Sys)
  {
    && Shaped(s) && s.t.nextPid == 1 && s.log == []
    && s.t.procs[0].status == Run && s.t.procs[0].pid == 0 && s.t.procs[0].ppid == 0
    && (forall i :: 0 <= i < MAX_PROCS ==> s.t.procs[i].fds == NoFds() && s.pc[i] == Idle)
    && (forall i :: 1 <= i < MAX_PROCS ==> s.t.procs[i].status == Free)
    && (forall f :: 0 <= f < MAX_OPEN_FILES ==> s.t.files[f] == CLOSED)
  }

  lemma BootInv(s: Sys, disk: Disk)
    requires Boot(s)
    ensures SysInv(s, disk)
  {
    assert Runs(s.t.procs, 0, 0);
    forall f | 0 <= f < MAX_OPEN_FILES
      ensures Refs(s.t.procs, f) == {}
    {
      forall i, k
        ensures !Points(s.t.procs, i, k, f)
      {
        assert 0 <= i < MAX_PROCS ==> s.t.procs[i].fds == NoFds();
      }
    }
  }

  ghost predicate IsRun(s: Sys, acts: seq<Act>, disk: Disk)
    requires Shaped(s)
    decreases |acts|
  {
    acts == [] ||
    (Possible(s, acts[0], disk) && Shaped(Next(s, acts[0], disk)) && IsRun(Next(s, acts[0], disk), acts[1..], disk))
  }

  ghost function End(s: Sys, acts: seq<Act>, disk: Disk): Sys
    requires Shaped(s) && IsRun(s, acts, disk)
    decreases |acts|
  {
    if acts == [] then s else End(Next(s, acts[0], disk), acts[1..], disk)
  }

  lemma {:induction false} RunKeeps(s: Sys, acts: seq<Act>, disk: Disk)
    requires SysInv(s, disk) && IsRun(s, acts, disk)
    ensures SysInv(End(s, acts, disk), disk) && s.log <= End(s, acts, disk).log
    decreases |acts|
  {
    if acts != [] {
      hide SysInv, Next, Possible;
      SysShaped(s, disk);
      NextKeeps(s, acts[0], disk);
      NextLog(s, acts[0], disk);
      RunKeeps(Next(s, acts[0], disk), acts[1..], disk);
    }
  }

  lemma SysShaped(s: Sys, disk: Disk)
    requires SysInv(s, disk)
    ensures Shaped(s)
  {
  }

  /** If note k is a reap, note j is the exit it reports, it is the only reap of that pid and the taker was in charge;
      if it is an exit, it is the only exit of that pid, which is not 0. */
  ghost predicate Reported(log: seq<Note>, k: int, j: int)
    requires 0 <= k < |log|
  {
    && (log[k].NReaped? ==> 0 <= j < k && log[j] == NExited(log[k].pid, log[k].code))
    && (log[k].NReaped? ==> forall i :: 0 <= i < |log| && i != k && log[i].NReaped? ==> log[i].pid != log[k].pid)
    && (log[k].NReaped? ==> InCharge(log[..k], log[k].taker, log[k].pid))
    && (log[k].NExited? ==> log[k].pid != 0)
    && (log[k].NExited? ==> forall i :: 0 <= i < |log| && i != k && log[i].NExited? ==> log[i].pid != log[k].pid)
  }

  /** In any run from boot a process is reaped at most once, after it exited, with the code it exited with, by the
      process that forked it or, if that one has exited, by process 0; and process 0 never exits. */
  lemma ExitReports(s: Sys, acts: seq<Act>, disk: Disk, k: int) returns (j: int)
    requires Boot(s) && IsRun(s, acts, disk) && 0 <= k < |End(s, acts, disk).log|
    ensures Reported(End(s, acts, disk).log, k, j)
  {
    hide Boot, Next, Possible, IsRun, End, Family, Descriptors, PcsOk, FilesRecorded, InCharge;
    BootInv(s, disk);
    RunKeeps(s, acts, disk);
    var log := End(s, acts, disk).log;
    assert NoteOk(log[..k], log[k], End(s, acts, disk).t.nextPid);
    j := 0;
    if log[k].NReaped? {
      j :| 0 <= j < k && log[..k][j] == NExited(log[k].pid, log[k].code);
    }
    OnceOnly(log, k, End(s, acts, disk).t.nextPid);
  }

  lemma OnceOnly(log: seq<Note>, k: int, nextPid: int)
    requires LogInv(log, nextPid) && 0 <= k < |log|
    ensures log[k].NReaped? ==> forall i :: 0 <= i < |log| && i != k && log[i].NReaped? ==> log[i].pid != log[k].pid
    ensures log[k].NExited? ==> forall i :: 0 <= i < |log| && i != k && log[i].NExited? ==> log[i].pid != log[k].pid
  {
    hide InCharge;
    forall i | 0 <= i < |log| && i != k
      ensures log[k].NReaped? && log[i].NReaped? ==> log[i].pid != log[k].pid
      ensures log[k].NExited? && log[i].NExited? ==> log[i].pid != log[k].pid
    {
      var a, b := if i < k then i else k, if i < k then k else i;
      assert NoteOk(log[..b], log[b], nextPid);
      assert log[..b][a] == log[a] && log[a] in log[..b];
      if log[a].NExited? {
        assert log[a] == NExited(log[a].pid, log[a].code);
      } else if log[a].NReaped? {
        assert log[a] == NReaped(log[a].taker, log[a].pid, log[a].code);
      }
    }
  }

  /** What has been read through pool entry f since it was opened is the first `offset` bytes of its file, and its count
      is that of the descriptors that point at it. */
  ghost predicate Partitioned(n: Sys, f: int, disk: Disk)
    requires Shaped(n) && 0 <= f < MAX_OPEN_FILES
  {
    && (n.t.files[f].refcount > 0 ==>
          && 0 <= n.t.files[f].node < |disk| && OpenedOn(n.log, f) == n.t.files[f].node
          && 0 <= n.t.files[f].offset <= |disk[n.t.files[f].node]|
          && ReadSince(n.log, f) == disk[n.t.files[f].node][..n.t.files[f].offset])
    && n.t.files[f].refcount == |Refs(n.t.procs, f)|
    && (n.t.files[f].refcount == 0 <==> forall i, k :: !Points(n.t.procs, i, k, f))
  }

  /** In any run from boot, what has been read through an open entry, by all the processes that share it, is exactly
      the first `offset` bytes of its file; and an entry is free exactly when no descriptor points at it. */
  lemma ReadsPartition(s: Sys, acts: seq<Act>, disk: Disk, f: int)
    requires Boot(s) && IsRun(s, acts, disk) && 0 <= f < MAX_OPEN_FILES
    ensures Shaped(End(s, acts, disk)) && Partitioned(End(s, acts, disk), f, disk)
  {
    hide Boot, Next, Possible, IsRun, End, Family, PcsOk, AllRecorded, Points;
    BootInv(s, disk);
    RunKeeps(s, acts, disk);
    var n := End(s, acts, disk);
    assert FileRecorded(n.t.files[f], n.log, f, disk);
    InUseIff(n.t, disk, f);
  }
}
