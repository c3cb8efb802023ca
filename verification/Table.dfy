/** The process table and the open-file pool on values: what each system call makes of them, and what all of them keep
    (kernel/arch/i386/process.c, kernel/arch/i386/syscall.c). */
module Table {

  const MAX_PROCS: nat := 16
  const MAX_FDS: nat := 16
  const MAX_OPEN_FILES: nat := 32

  const NONE := -1

  datatype Status = Free | Run | Zombie

  /** A descriptor is an index into the pool, or NONE. */
  datatype Proc = Proc(status: Status, pid: int, ppid: int, exitCode: int, dir: int, brk: int, fds: seq<int>)

  datatype OpenFile = OpenFile(node: int, offset: int, refcount: int)

  const CLOSED := OpenFile(NONE, 0, 0)

  datatype Table = Table(procs: seq<Proc>, nextPid: int, files: seq<OpenFile>)

  type Disk = seq<seq<int>>

  function NoFds(): (s: seq<int>)
    ensures |s| == MAX_FDS && forall k :: 0 <= k < MAX_FDS ==> s[k] == NONE
  {
    seq(MAX_FDS, _ => NONE)
  }

  predicate Slot(i: int)
  {
    0 <= i < MAX_PROCS
  }

  // ---- descriptors and reference counts ---------------------------------------------------------------------

  predicate Points(procs: seq<Proc>, i: int, k: int, f: int)
  {
    0 <= i < |procs| && 0 <= k < |procs[i].fds| && procs[i].fds[k] == f
  }

  /** The descriptors that point at pool entry f, as (process slot, descriptor) pairs. */
  ghost function Refs(procs: seq<Proc>, f: int): set<(int, int)>
  {
    set i, k | 0 <= i < |procs| && 0 <= k < |procs[i].fds| && Points(procs, i, k, f) :: (i, k)
  }

  lemma PointsIn(procs: seq<Proc>, i: int, k: int, f: int)
    ensures (i, k) in Refs(procs, f) <==> Points(procs, i, k, f)
  {
  }

  ghost predicate SameFds(a: seq<Proc>, b: seq<Proc>)
  {
    |a| == |b| && forall i {:trigger a[i]} {:trigger b[i]} :: 0 <= i < |a| ==> b[i].fds == a[i].fds
  }

  lemma SameRefs(a: seq<Proc>, b: seq<Proc>, f: int)
    requires SameFds(a, b)
    ensures Refs(a, f) == Refs(b, f)
  {
    forall i, k
      ensures Points(a, i, k, f) <==> Points(b, i, k, f)
    {
      assert 0 <= i < |a| ==> b[i].fds == a[i].fds;
    }
  }

  function PutFd(procs: seq<Proc>, i: int, k: int, f: int): seq<Proc>
    requires 0 <= i < |procs| && 0 <= k < |procs[i].fds|
  {
    procs[i := WithFds(procs[i], procs[i].fds[k := f])]
  }

  function WithFds(p: Proc, fds: seq<int>): Proc
  {
    Proc(p.status, p.pid, p.ppid, p.exitCode, p.dir, p.brk, fds)
  }

  /** One descriptor moves from entry g to entry f. */
  lemma PutFdRefs(procs: seq<Proc>, i: int, k: int, f: int, h: int)
    requires 0 <= i < |procs| && 0 <= k < |procs[i].fds|
    ensures Refs(PutFd(procs, i, k, f), h) == (if f == h then Refs(procs, h) + {(i, k)} else Refs(procs, h) - {(i, k)})
    ensures (i, k) in Refs(procs, h) <==> procs[i].fds[k] == h
  {
    var n := PutFd(procs, i, k, f);
    forall j, l
      ensures Points(n, j, l, h) <==> if j == i && l == k then f == h else Points(procs, j, l, h)
    {
    }
  }

  /** Counts after one descriptor was NONE and now points at f, or the other way round. */
  lemma PutFdCount(procs: seq<Proc>, i: int, k: int, f: int, h: int)
    requires 0 <= i < |procs| && 0 <= k < |procs[i].fds| && h != NONE
    requires procs[i].fds[k] == NONE || f == NONE
    ensures |Refs(PutFd(procs, i, k, f), h)| ==
      |Refs(procs, h)| + (if h == f then 1 else if h == procs[i].fds[k] then -1 else 0)
  {
    hide Refs;
    PutFdRefs(procs, i, k, f, h);
  }

  /** Every entry counts its descriptors, and an entry nobody refers to is cleared. */
  ghost predicate Counted(procs: seq<Proc>, files: seq<OpenFile>)
  {
    forall f {:trigger files[f]} :: 0 <= f < |files| ==>
      files[f].refcount == |Refs(procs, f)| && (files[f].refcount == 0 ==> files[f] == CLOSED)
  }

  ghost function Recounted(procs: seq<Proc>, e: OpenFile, f: int): OpenFile
  {
    if |Refs(procs, f)| == 0 then CLOSED else OpenFile(e.node, e.offset, |Refs(procs, f)|)
  }

  /** The pool after the descriptors changed. */
  ghost function Recount(procs: seq<Proc>, files: seq<OpenFile>): (r: seq<OpenFile>)
    ensures |r| == |files| && forall f :: 0 <= f < |files| ==> r[f] == Recounted(procs, files[f], f)
  {
    seq(|files|, f requires 0 <= f < |files| => Recounted(procs, files[f], f))
  }

  lemma CountedRecount(procs: seq<Proc>, files: seq<OpenFile>)
    ensures Counted(procs, Recount(procs, files))
  {
  }

  /** Descriptors are NONE or name an entry that is open on a file of the disk; only running processes have any. */
  ghost predicate Descriptors(t: Table, disk: Disk)
  {
    && |t.procs| == MAX_PROCS && |t.files| == MAX_OPEN_FILES
    && (forall i {:trigger t.procs[i]} :: 0 <= i < MAX_PROCS ==> FdsOk(t.procs[i]))
    && Counted(t.procs, t.files)
    && (forall f {:trigger t.files[f]} :: 0 <= f < MAX_OPEN_FILES ==> FileOk(t.files[f], disk))
  }

  predicate FdsOk(p: Proc)
  {
    && |p.fds| == MAX_FDS
    && (forall k :: 0 <= k < MAX_FDS ==> NONE <= p.fds[k] < MAX_OPEN_FILES)
    && (p.status != Run ==> p.fds == NoFds())
  }

  predicate FileOk(e: OpenFile, disk: Disk)
  {
    e.refcount > 0 ==> 0 <= e.node < |disk| && 0 <= e.offset <= |disk[e.node]|
  }

  /** An entry is reused only when nothing refers to it; conversely an entry in use is never free. */
  lemma InUseIff(t: Table, disk: Disk, f: int)
    requires Descriptors(t, disk) && 0 <= f < MAX_OPEN_FILES
    ensures t.files[f].refcount == 0 <==> forall i, k :: !Points(t.procs, i, k, f)
  {
    if t.files[f].refcount == 0 {
      forall i, k
        ensures !Points(t.procs, i, k, f)
      {
        PointsIn(t.procs, i, k, f);
      }
    } else {
      assert |Refs(t.procs, f)| > 0;
      var x :| x in Refs(t.procs, f);
      assert Points(t.procs, x.0, x.1, f);
    }
  }

  // ---- the family tree ---------------------------------------------------------------------------------------

  predicate Runs(procs: seq<Proc>, j: int, pid: int)
  {
    0 <= j < |procs| && procs[j].status == Run && procs[j].pid == pid
  }

  predicate Live(procs: seq<Proc>, i: int)
  {
    0 <= i < |procs| && procs[i].status != Free
  }

  /** Pids are unique and below the next one; every process but the first has an older parent that is running. */
  ghost predicate Family(t: Table)
  {
    && |t.procs| == MAX_PROCS && 0 < t.nextPid
    && t.procs[0].status == Run && t.procs[0].pid == 0 && t.procs[0].ppid == 0
    && (forall i {:trigger Live(t.procs, i)} :: 1 <= i && Live(t.procs, i) ==>
          0 < t.procs[i].pid < t.nextPid && 0 <= t.procs[i].ppid < t.procs[i].pid
            && HasParent(t.procs, t.procs[i].ppid))
    && (forall i, j {:trigger Live(t.procs, i), Live(t.procs, j)} :: i < j && Live(t.procs, i) && Live(t.procs, j) ==>
          t.procs[i].pid != t.procs[j].pid)
  }

  ghost predicate HasParent(procs: seq<Proc>, pid: int)
  {
    exists j :: Runs(procs, j, pid)
  }

  ghost predicate TableInv(t: Table, disk: Disk)
  {
    Family(t) && Descriptors(t, disk)
  }

  /** Slot i holds a child of the process in slot p, as process_wait tests it. */
  predicate Child(procs: seq<Proc>, p: int, i: int)
  {
    0 <= p < |procs| && Live(procs, i) && procs[i].ppid == procs[p].pid && i != p
  }

  /** As long as any process but the first exists, the first has a child. */
  lemma {:induction false} FirstHasChild(t: Table, i: int)
    requires Family(t) && 1 <= i && Live(t.procs, i)
    ensures exists k :: 1 <= k && Child(t.procs, 0, k)
    decreases t.procs[i].pid
  {
    if t.procs[i].ppid == 0 {
      assert Child(t.procs, 0, i);
    } else {
      var j :| Runs(t.procs, j, t.procs[i].ppid);
      assert Live(t.procs, j);
      FirstHasChild(t, j);
    }
  }

  // ---- what the system calls make of the table -----------------------------------------------------------------

  /** fork: slot i gets a copy of the parent's descriptors and break. */
  ghost function Forked(t: Table, p: int, i: int, dir: int): Table
    requires 0 <= p < |t.procs| && 0 <= i < |t.procs|
  {
    var c := Proc(Run, t.nextPid, t.procs[p].pid, 0, dir, t.procs[p].brk, t.procs[p].fds);
    Table(t.procs[i := c], t.nextPid + 1, Recount(t.procs[i := c], t.files))
  }

  /** fork ran out of memory after it had taken a slot and a pid: the slot is free again. */
  function Abandoned(t: Table, i: int, stale: Proc): Table
    requires 0 <= i < |t.procs|
  {
    Table(t.procs[i := stale], t.nextPid + 1, t.files)
  }

  predicate Stale(p: Proc)
  {
    p.status == Free && p.fds == NoFds()
  }

  function ExitedProc(procs: seq<Proc>, p: int, code: int, kdir: int, i: int): Proc
    requires 0 <= p < |procs| && 0 <= i < |procs|
  {
    var q := procs[i];
    if i == p then Proc(Zombie, q.pid, q.ppid, code, kdir, q.brk, NoFds())
    else if q.status != Free && q.ppid == procs[p].pid then Proc(q.status, q.pid, 0, q.exitCode, q.dir, q.brk, q.fds)
    else q
  }

  /** exit: the descriptors are released, the children go to process 0, and the slot keeps the code. */
  ghost function Exited(t: Table, p: int, code: int, kdir: int): (r: Table)
    requires 0 <= p < |t.procs|
    ensures |r.procs| == |t.procs| && forall i :: 0 <= i < |t.procs| ==>
      r.procs[i] == ExitedProc(t.procs, p, code, kdir, i)
  {
    var procs := seq(|t.procs|, i requires 0 <= i < |t.procs| => ExitedProc(t.procs, p, code, kdir, i));
    Table(procs, t.nextPid, Recount(procs, t.files))
  }

  /** wait took the zombie in slot i. */
  function Reaped(t: Table, i: int): Table
    requires 0 <= i < |t.procs|
  {
    var q := t.procs[i];
    Table(t.procs[i := Proc(Free, q.pid, q.ppid, q.exitCode, q.dir, q.brk, q.fds)], t.nextPid, t.files)
  }

  function Opened(t: Table, p: int, fd: int, f: int, node: int): Table
    requires 0 <= p < |t.procs| && 0 <= fd < |t.procs[p].fds| && 0 <= f < |t.files|
  {
    Table(PutFd(t.procs, p, fd, f), t.nextPid, t.files[f := OpenFile(node, 0, 1)])
  }

  ghost function Closed(t: Table, p: int, fd: int): Table
    requires 0 <= p < |t.procs| && 0 <= fd < |t.procs[p].fds|
  {
    var procs := PutFd(t.procs, p, fd, NONE);
    Table(procs, t.nextPid, Recount(procs, t.files))
  }

  function Advanced(t: Table, f: int, got: int): Table
    requires 0 <= f < |t.files|
  {
    var e := t.files[f];
    Table(t.procs, t.nextPid, t.files[f := OpenFile(e.node, e.offset + got, e.refcount)])
  }

  /** execve and sbrk: a new address space, a new break. */
  function Remapped(t: Table, p: int, dir: int, brk: int): Table
    requires 0 <= p < |t.procs|
  {
    var q := t.procs[p];
    Table(t.procs[p := Proc(q.status, q.pid, q.ppid, q.exitCode, dir, brk, q.fds)], t.nextPid, t.files)
  }

  // ---- each of them keeps the invariant ------------------------------------------------------------------------

  lemma RecountKeeps(t: Table, procs: seq<Proc>, nextPid: int, disk: Disk)
    requires Descriptors(t, disk) && |procs| == MAX_PROCS
    requires forall i {:trigger procs[i]} :: 0 <= i < MAX_PROCS ==> FdsOk(procs[i])
    requires forall i, k, f {:trigger Points(procs, i, k, f)} :: Points(procs, i, k, f) && f != NONE ==>
      exists j, l :: Points(t.procs, j, l, f)
    ensures Descriptors(Table(procs, nextPid, Recount(procs, t.files)), disk)
  {
    CountedRecount(procs, t.files);
    forall f | 0 <= f < MAX_OPEN_FILES
      ensures FileOk(Recounted(procs, t.files[f], f), disk)
    {
      if |Refs(procs, f)| > 0 {
        var x :| x in Refs(procs, f);
        assert Points(procs, x.0, x.1, f);
        var j, l :| Points(t.procs, j, l, f);
        assert (j, l) in Refs(t.procs, f);
      }
    }
  }

  lemma ForkedKeeps(t: Table, p: int, i: int, dir: int, disk: Disk)
    requires TableInv(t, disk) && Slot(p) && t.procs[p].status == Run && 1 <= i < MAX_PROCS && t.procs[i].status == Free
    ensures TableInv(Forked(t, p, i, dir), disk)
  {
    hide Recount, FdsOk;
    var n := Forked(t, p, i, dir);
    forall j, k, f | Points(n.procs, j, k, f)
      ensures exists a, b :: Points(t.procs, a, b, f)
    {
      assert Points(t.procs, if j == i then p else j, k, f);
    }
    CopiedFds(t.procs[p], n.procs[i]);
    RecountKeeps(t, n.procs, n.nextPid, disk);
    ForkedFamily(t, p, i, dir);
  }

  lemma CopiedFds(p: Proc, c: Proc)
    requires FdsOk(p) && p.status == Run && c.status == Run && c.fds == p.fds
    ensures FdsOk(c)
  {
  }

  lemma ForkedFamily(t: Table, p: int, i: int, dir: int)
    requires Family(t) && Slot(p) && t.procs[p].status == Run && 1 <= i < MAX_PROCS && t.procs[i].status == Free
    ensures Family(Forked(t, p, i, dir))
  {
    hide Recount;
    var n := Forked(t, p, i, dir);
    forall j
      ensures Live(n.procs, j) <==> j == i || Live(t.procs, j)
    {
    }
    forall pid | HasParent(t.procs, pid)
      ensures HasParent(n.procs, pid)
    {
      var j :| Runs(t.procs, j, pid);
      assert Runs(n.procs, j, pid);
    }
    assert Runs(n.procs, p, t.procs[p].pid);
    assert Live(t.procs, p);
  }

  lemma SameFdsKeeps(t: Table, n: Table, disk: Disk)
    requires Descriptors(t, disk) && SameFds(t.procs, n.procs) && n.files == t.files
    requires forall i {:trigger n.procs[i]} :: 0 <= i < MAX_PROCS ==>
      (n.procs[i].status == Run || n.procs[i].fds == NoFds())
    ensures Descriptors(n, disk)
  {
    forall f
      ensures Refs(n.procs, f) == Refs(t.procs, f)
    {
      SameRefs(t.procs, n.procs, f);
    }
    forall i | 0 <= i < MAX_PROCS
      ensures FdsOk(n.procs[i])
    {
      assert FdsOk(t.procs[i]);
    }
  }

  lemma AbandonedKeeps(t: Table, i: int, stale: Proc, disk: Disk)
    requires TableInv(t, disk) && 1 <= i < MAX_PROCS && t.procs[i].status == Free && Stale(stale)
    ensures TableInv(Abandoned(t, i, stale), disk)
    ensures TableInv(Table(t.procs[i := stale], t.nextPid, t.files), disk)
  {
    var n := Abandoned(t, i, stale);
    assert FdsOk(t.procs[i]);
    SameFdsKeeps(t, n, disk) by {
      forall j | 0 <= j < MAX_PROCS
        ensures n.procs[j].status == Run || n.procs[j].fds == NoFds()
      {
        assert FdsOk(t.procs[j]);
      }
    }
    SlotKeepsFamily(t, n, i);
    SlotKeepsFamily(t, Table(n.procs, t.nextPid, t.files), i);
  }

  /** A slot that was free, or a zombie's, may become free. */
  lemma SlotKeepsFamily(t: Table, n: Table, i: int)
    requires Family(t) && 1 <= i < MAX_PROCS && t.procs[i].status != Run && n.nextPid >= t.nextPid
    requires |n.procs| == MAX_PROCS && n.procs == t.procs[i := n.procs[i]] && n.procs[i].status == Free
    ensures Family(n)
  {
    forall j
      ensures Live(n.procs, j) <==> j != i && Live(t.procs, j)
    {
    }
    forall pid | HasParent(t.procs, pid)
      ensures HasParent(n.procs, pid)
    {
      var j :| Runs(t.procs, j, pid);
      assert Runs(n.procs, j, pid);
    }
  }

  lemma ExitedKeeps(t: Table, p: int, code: int, kdir: int, disk: Disk)
    requires TableInv(t, disk) && 1 <= p < MAX_PROCS && t.procs[p].status == Run
    ensures TableInv(Exited(t, p, code, kdir), disk)
  {
    hide Recount;
    var n := Exited(t, p, code, kdir);
    forall i | 0 <= i < MAX_PROCS
      ensures FdsOk(n.procs[i])
    {
      assert FdsOk(t.procs[i]);
    }
    forall j, k, f | Points(n.procs, j, k, f) && f != NONE
      ensures exists a, b :: Points(t.procs, a, b, f)
    {
      assert Points(t.procs, j, k, f);
    }
    RecountKeeps(t, n.procs, n.nextPid, disk);
    ExitedFamily(t, p, code, kdir);
  }

  lemma ExitedFamily(t: Table, p: int, code: int, kdir: int)
    requires Family(t) && 1 <= p < MAX_PROCS && t.procs[p].status == Run
    ensures Family(Exited(t, p, code, kdir))
  {
    var n := Exited(t, p, code, kdir);
    forall j
      ensures Live(n.procs, j) <==> Live(t.procs, j)
      ensures Live(t.procs, j) ==> n.procs[j].pid == t.procs[j].pid
    {
    }
    assert Live(t.procs, p) && Live(t.procs, 0);
    assert Runs(n.procs, 0, 0);
    forall i | 1 <= i && Live(n.procs, i)
      ensures 0 < n.procs[i].pid < n.nextPid && 0 <= n.procs[i].ppid < n.procs[i].pid
      ensures HasParent(n.procs, n.procs[i].ppid)
    {
      assert Live(t.procs, i);
      var j :| Runs(t.procs, j, t.procs[i].ppid);
      if j != p {
        assert Live(t.procs, j);
        assert Runs(n.procs, j, t.procs[i].ppid);
      }
    }
  }

  lemma ReapedKeeps(t: Table, i: int, disk: Disk)
    requires TableInv(t, disk) && 1 <= i < MAX_PROCS && t.procs[i].status == Zombie
    ensures TableInv(Reaped(t, i), disk)
  {
    var n := Reaped(t, i);
    forall j | 0 <= j < MAX_PROCS
      ensures n.procs[j].status == Run || n.procs[j].fds == NoFds()
    {
      assert FdsOk(t.procs[j]);
    }
    SameFdsKeeps(t, n, disk);
    SlotKeepsFamily(t, n, i);
  }

  /** Changing descriptors, break or directory of running processes leaves the family tree alone. */
  ghost predicate SameFamily(a: seq<Proc>, b: seq<Proc>)
  {
    |a| == |b| && forall i {:trigger a[i]} {:trigger b[i]} :: 0 <= i < |a| ==>
      b[i].status == a[i].status && b[i].pid == a[i].pid && b[i].ppid == a[i].ppid
  }

  lemma SameFamilyKeeps(t: Table, n: Table)
    requires Family(t) && SameFamily(t.procs, n.procs) && n.nextPid == t.nextPid
    ensures Family(n)
  {
    assert n.procs[0].status == t.procs[0].status;
    forall j
      ensures Live(n.procs, j) <==> Live(t.procs, j)
      ensures Live(t.procs, j) ==> n.procs[j].pid == t.procs[j].pid && n.procs[j].ppid == t.procs[j].ppid
    {
      assert 0 <= j < |t.procs| ==> n.procs[j].status == t.procs[j].status;
    }
    forall pid | HasParent(t.procs, pid)
      ensures HasParent(n.procs, pid)
    {
      var j :| Runs(t.procs, j, pid);
      assert Live(t.procs, j) && n.procs[j].status == t.procs[j].status;
      assert Runs(n.procs, j, pid);
    }
  }

  lemma OpenedKeeps(t: Table, p: int, fd: int, f: int, node: int, disk: Disk)
    requires TableInv(t, disk) && Slot(p) && t.procs[p].status == Run && 0 <= fd < MAX_FDS && t.procs[p].fds[fd] == NONE
    requires 0 <= f < MAX_OPEN_FILES && t.files[f].refcount == 0 && 0 <= node < |disk|
    ensures TableInv(Opened(t, p, fd, f, node), disk)
  {
    hide Refs;
    var n := Opened(t, p, fd, f, node);
    forall g | 0 <= g < MAX_OPEN_FILES
      ensures n.files[g].refcount == |Refs(n.procs, g)|
    {
      PutFdCount(t.procs, p, fd, f, g);
    }
    forall i | 0 <= i < MAX_PROCS
      ensures FdsOk(n.procs[i])
    {
      assert FdsOk(t.procs[i]);
    }
    SameFamilyKeeps(t, n);
  }

  lemma ClosedKeeps(t: Table, p: int, fd: int, disk: Disk)
    requires TableInv(t, disk) && Slot(p) && t.procs[p].status == Run && 0 <= fd < MAX_FDS
    ensures TableInv(Closed(t, p, fd), disk)
  {
    hide Recount;
    var n := Closed(t, p, fd);
    forall i | 0 <= i < MAX_PROCS
      ensures FdsOk(n.procs[i])
    {
      assert FdsOk(t.procs[i]);
    }
    forall j, k, f | Points(n.procs, j, k, f) && f != NONE
      ensures exists a, b :: Points(t.procs, a, b, f)
    {
      assert Points(t.procs, j, k, f);
    }
    RecountKeeps(t, n.procs, n.nextPid, disk);
    SameFamilyKeeps(t, n);
  }

  lemma AdvancedKeeps(t: Table, f: int, got: int, disk: Disk)
    requires TableInv(t, disk) && 0 <= f < MAX_OPEN_FILES && t.files[f].refcount > 0 && 0 <= got
    requires 0 <= t.files[f].node < |disk| && t.files[f].offset + got <= |disk[t.files[f].node]|
    ensures TableInv(Advanced(t, f, got), disk)
  {
  }

  lemma RemappedKeeps(t: Table, p: int, dir: int, brk: int, disk: Disk)
    requires TableInv(t, disk) && Slot(p) && t.procs[p].status == Run
    ensures TableInv(Remapped(t, p, dir, brk), disk)
  {
    var n := Remapped(t, p, dir, brk);
    forall j | 0 <= j < MAX_PROCS
      ensures n.procs[j].status == Run || n.procs[j].fds == NoFds()
    {
      assert FdsOk(t.procs[j]);
    }
    SameFdsKeeps(t, n, disk);
    SameFamilyKeeps(t, n);
  }
}
