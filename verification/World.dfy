/** The whole machine as one value: physical memory and its owners, the process table, the ring of tasks; what every
    operation keeps, and what holds over whole runs. */
module World {
  import opened Arith
  import opened Paging
  import opened Address
  import opened UserSpace
  import opened UserMap
  import opened Spaces
  import opened ElfFormat
  import opened Scheduler
  import T = Table
  import L = Lifecycle

  /** `saved` holds each task's regs.cr3, `status` the pointer each process handed to wait. */
  datatype World = World(space: Space, cr3: int, sys: L.Sys, queue: Queue, saved: seq<int>, status: seq<int>)

  predicate IsRun(procs: seq<T.Proc>, i: int)
  {
    0 <= i < |procs| && procs[i].status == T.Run
  }

  function DirOfProc(procs: seq<T.Proc>, i: int): int
  {
    if 0 <= i < |procs| then procs[i].dir / PAGE else 0
  }

  // ---- the invariant ---------------------------------------------------------------------------------------------

  /** The ring holds exactly the tasks of the running processes (main_task being that of process 0). */
  ghost predicate Tasks(procs: seq<T.Proc>, ring: seq<nat>)
  {
    && |procs| == T.MAX_PROCS
    && (forall t: nat {:trigger t in ring} :: t in ring <==> IsRun(procs, t))
  }

  /** Where running process i lives. Only process 0 may live in the boot directory. */
  ghost predicate Home(procs: seq<T.Proc>, s: Space, saved: seq<int>, i: int)
  {
    && 0 <= i < |procs| && 0 <= i < |saved|
    && procs[i].dir % PAGE == 0 && procs[i].dir / PAGE in s.dirs && saved[i] == procs[i].dir && saved[i] != 0
    && (i != 0 ==> procs[i].dir / PAGE != s.kdir)
  }

  ghost predicate LivesIn(procs: seq<T.Proc>, D: int)
  {
    exists i :: IsRun(procs, i) && DirOfProc(procs, i) == D
  }

  /** Each running process has a directory of its own, and there are no others but the boot directory. */
  ghost predicate Placed(procs: seq<T.Proc>, s: Space, saved: seq<int>)
  {
    && |procs| == T.MAX_PROCS == |saved|
    && (forall i {:trigger IsRun(procs, i)} :: IsRun(procs, i) ==> Home(procs, s, saved, i))
    && (forall i, j {:trigger IsRun(procs, i), IsRun(procs, j)} :: i < j && IsRun(procs, i) && IsRun(procs, j) ==>
          DirOfProc(procs, i) != DirOfProc(procs, j))
    && (forall D {:trigger D in s.dirs} :: D in s.dirs && D != s.kdir ==> LivesIn(procs, D))
  }

  /** The current directory is that of the running task; a task that has left the ring runs in the boot directory. */
  ghost predicate Current(w: World)
  {
    && |w.sys.t.procs| == T.MAX_PROCS
    && w.cr3 in w.space.dirs
    && (if w.queue.running in w.queue.ring then
          w.cr3 == DirOfProc(w.sys.t.procs, w.queue.running)
        else
          && w.cr3 == w.space.kdir && w.queue.running < T.MAX_PROCS
          && w.sys.t.procs[w.queue.running].status == T.Zombie)
  }

  /** The status pointer of a process inside wait stays good until it is used, however long it waits. */
  ghost predicate StatusOk(img: Img, pc: L.Pc, status: int)
  {
    pc == L.Idle || status == 0 || HasWord(img, status)
  }

  ghost predicate Statuses(w: World)
  {
    && |w.status| == |w.sys.pc| == |w.sys.t.procs| == T.MAX_PROCS
    && (forall i {:trigger IsRun(w.sys.t.procs, i)} :: IsRun(w.sys.t.procs, i) ==>
          StatusOk(Image(w.space.mem, DirOfProc(w.sys.t.procs, i)), w.sys.pc[i], w.status[i]))
  }

  ghost predicate WorldInv(w: World, disk: T.Disk)
  {
    && Inv(w.space) && NoLoose(w.space)
    && L.SysInv(w.sys, disk)
    && Sound(w.queue) && Tasks(w.sys.t.procs, w.queue.ring)
    && Placed(w.sys.t.procs, w.space, w.saved)
    && Current(w)
    && Statuses(w)
  }

  // ---- what one step may change -----------------------------------------------------------------------------------

  /** A process other than the one acting keeps its address space, break, descriptors and place in the kernel. */
  ghost predicate Kept(a: L.Sys, b: L.Sys, v: int)
  {
    && |a.t.procs| == T.MAX_PROCS == |b.t.procs| && |a.pc| == T.MAX_PROCS == |b.pc|
    && (IsRun(a.t.procs, v) ==>
          && IsRun(b.t.procs, v)
          && b.t.procs[v].pid == a.t.procs[v].pid && b.t.procs[v].dir == a.t.procs[v].dir
          && b.t.procs[v].brk == a.t.procs[v].brk && b.t.procs[v].fds == a.t.procs[v].fds
          && b.pc[v] == a.pc[v])
  }

  ghost predicate OthersKept(a: L.Sys, b: L.Sys, p: int)
  {
    forall v {:trigger Kept(a, b, v)} :: v != p ==> Kept(a, b, v)
  }

  /** The directories a step of process p may change: its own, and any it makes. */
  ghost function Mine(w: World, n: World, p: int): set<int>
  {
    (if IsRun(w.sys.t.procs, p) then {DirOfProc(w.sys.t.procs, p)} else {}) + (n.space.dirs - w.space.dirs)
  }

  ghost predicate SameStatuses(a: seq<int>, b: seq<int>, p: int)
  {
    |a| == |b| && forall v {:trigger b[v]} :: 0 <= v < |a| && v != p ==> b[v] == a[v]
  }

  /** After an operation of process p the invariant holds again, and no other process has noticed. */
  ghost predicate Unnoticed(w: World, n: World, p: int, disk: T.Disk)
  {
    && WorldInv(n, disk)
    && Elsewhere(w.space, n.space, Mine(w, n, p))
    && OthersKept(w.sys, n.sys, p)
    && SameStatuses(w.status, n.status, p)
  }

  // ---- the table's part -------------------------------------------------------------------------------------------

  lemma NextOthers(s: L.Sys, a: L.Act, disk: T.Disk)
    requires L.SysInv(s, disk) && L.Possible(s, a, disk)
    ensures OthersKept(s, L.Next(s, a, disk), a.p)
  {
    hide T.Recount, T.Family, T.Descriptors, L.AllRecorded, L.FilesRecorded;
    var n := L.Next(s, a, disk);
    forall v | v != a.p
      ensures Kept(s, n, v)
    {
      NextOther(s, a, disk, v);
    }
  }

  lemma NextOther(s: L.Sys, a: L.Act, disk: T.Disk, v: int)
    requires L.Shaped(s) && L.PcsOk(s) && L.Possible(s, a, disk) && v != a.p
    ensures Kept(s, L.Next(s, a, disk), v)
  {
    hide T.Recount, L.Looked;
    match a
    case Look(p) => L.LookedShape(s, p);
    case Take(p) =>
      L.TakingFacts(s, p);
    case _ =>
  }

  /** Steps after which the same processes run, in the same directories. */
  ghost predicate SamePlaces(a: seq<T.Proc>, b: seq<T.Proc>)
  {
    && |a| == |b|
    && (forall i {:trigger IsRun(b, i)} {:trigger IsRun(a, i)} :: IsRun(b, i) <==> IsRun(a, i))
    && (forall i {:trigger DirOfProc(b, i)} :: IsRun(a, i) ==>
      DirOfProc(b, i) == DirOfProc(a, i) && b[i].dir == a[i].dir)
  }

  lemma NextPlaces(s: L.Sys, a: L.Act, disk: T.Disk)
    requires L.Shaped(s) && L.PcsOk(s) && L.Possible(s, a, disk)
    requires !a.Fork? && !a.Exit? && (a.Remap? ==> a.dir == s.t.procs[a.p].dir)
    ensures SamePlaces(s.t.procs, L.Next(s, a, disk).t.procs)
  {
    hide T.Recount, L.Looked, DirOfProc;
    var n := L.Next(s, a, disk);
    NextShape(s, a, disk);
    forall i
      ensures IsRun(n.t.procs, i) <==> IsRun(s.t.procs, i)
      ensures IsRun(s.t.procs, i) ==> n.t.procs[i].dir == s.t.procs[i].dir
    {
      match a
      case Look(p) => L.LookedShape(s, p);
      case Take(p) => L.TakingFacts(s, p);
      case _ =>
    }
    forall i | IsRun(s.t.procs, i)
      ensures DirOfProc(n.t.procs, i) == DirOfProc(s.t.procs, i)
    {
      SameDir(s.t.procs, n.t.procs, i);
    }
  }

  lemma NextShape(s: L.Sys, a: L.Act, disk: T.Disk)
    requires L.Shaped(s) && L.PcsOk(s) && L.Possible(s, a, disk)
    ensures |L.Next(s, a, disk).t.procs| == |s.t.procs| && |L.Next(s, a, disk).pc| == |s.pc|
  {
    hide T.Recount, L.Looked;
    match a
    case Look(p) => L.LookedShape(s, p);
    case _ =>
  }

  lemma SameDir(a: seq<T.Proc>, b: seq<T.Proc>, i: int)
    requires |a| == |b| && 0 <= i < |a| && a[i].dir == b[i].dir
    ensures DirOfProc(a, i) == DirOfProc(b, i)
  {
  }

  lemma PlacesKept(a: seq<T.Proc>, b: seq<T.Proc>, s: Space, n: Space, saved: seq<int>, ring: seq<nat>)
    requires SamePlaces(a, b) && Placed(a, s, saved) && n.dirs == s.dirs && n.kdir == s.kdir && Tasks(a, ring)
    ensures Placed(b, n, saved) && Tasks(b, ring)
  {
    hide DirOfProc;
    forall i | IsRun(b, i)
      ensures Home(b, n, saved, i)
    {
      assert IsRun(a, i) && Home(a, s, saved, i);
      assert DirOfProc(b, i) == DirOfProc(a, i);
    }
    forall i, j | i < j && IsRun(b, i) && IsRun(b, j)
      ensures DirOfProc(b, i) != DirOfProc(b, j)
    {
      assert IsRun(a, i) && IsRun(a, j);
    }
    forall D | D in n.dirs && D != n.kdir
      ensures LivesIn(b, D)
    {
      assert LivesIn(a, D);
      var i :| IsRun(a, i) && DirOfProc(a, i) == D;
      assert IsRun(b, i) && DirOfProc(b, i) == D;
    }
  }

  // ---- the spaces' part -------------------------------------------------------------------------------------------

  lemma LooseKept(s: Space, n: Space, changed: set<int>)
    requires Elsewhere(s, n, changed) && NoLoose(s)
    ensures NoLoose(n)
  {
    hide Image, Inv;
    forall f | f in n.own
      ensures n.own[f] != Loose
    {
      if KernelHeld(n.own[f]) {
        assert (f in s.own && s.own[f] == n.own[f]) || n.own[f] == KernelTable(TMP_DIR);
      }
    }
  }

  lemma PlacedFacts(procs: seq<T.Proc>, s: Space, saved: seq<int>, i: int)
    requires Placed(procs, s, saved) && IsRun(procs, i)
    ensures DirOfProc(procs, i) in s.dirs && 0 <= i < T.MAX_PROCS
    ensures procs[i].dir == DirOfProc(procs, i) * PAGE == saved[i]
    ensures saved[i] != 0 && (i != 0 ==> DirOfProc(procs, i) != s.kdir)
    ensures forall j {:trigger IsRun(procs, j)} :: IsRun(procs, j) && j != i ==>
      DirOfProc(procs, j) != DirOfProc(procs, i)
  {
    assert Home(procs, s, saved, i);
  }

  /** Nobody else's directory is among those a step of p may change. */
  lemma NotMine(w: World, n: World, p: int, v: int)
    requires Placed(w.sys.t.procs, w.space, w.saved) && IsRun(w.sys.t.procs, v) && v != p
    ensures DirOfProc(w.sys.t.procs, v) in w.space.dirs && DirOfProc(w.sys.t.procs, v) !in Mine(w, n, p)
  {
    hide DirOfProc;
    PlacedFacts(w.sys.t.procs, w.space, w.saved, v);
  }

  lemma SeesTheSame(s: Space, n: Space, changed: set<int>, D: int)
    requires Elsewhere(s, n, changed) && D in s.dirs && D !in changed
    ensures Image(n.mem, D) == Image(s.mem, D)
  {
    hide Image, Inv;
  }

  lemma StatusesKept(w: World, n: World, p: int, disk: T.Disk)
    requires Placed(w.sys.t.procs, w.space, w.saved) && Statuses(w)
    requires Elsewhere(w.space, n.space, Mine(w, n, p)) && OthersKept(w.sys, n.sys, p)
    requires SameStatuses(w.status, n.status, p)
    requires |n.sys.pc| == |n.sys.t.procs| == T.MAX_PROCS
    requires forall i {:trigger IsRun(n.sys.t.procs, i)} :: IsRun(n.sys.t.procs, i) ==>
      i == p || IsRun(w.sys.t.procs, i) || n.sys.pc[i] == L.Idle
    requires IsRun(n.sys.t.procs, p) ==>
      StatusOk(Image(n.space.mem, DirOfProc(n.sys.t.procs, p)), n.sys.pc[p], n.status[p])
    ensures Statuses(n)
  {
    hide Image, Inv, Elsewhere, DirOfProc, StatusOk, Placed, Mine;
    forall i | IsRun(n.sys.t.procs, i)
      ensures StatusOk(Image(n.space.mem, DirOfProc(n.sys.t.procs, i)), n.sys.pc[i], n.status[i])
    {
      if i != p {
        if IsRun(w.sys.t.procs, i) {
          assert Kept(w.sys, n.sys, i);
          SameDir(w.sys.t.procs, n.sys.t.procs, i);
          NotMine(w, n, p, i);
          SeesTheSame(w.space, n.space, Mine(w, n, p), DirOfProc(w.sys.t.procs, i));
        } else {
          IdleStatus(Image(n.space.mem, DirOfProc(n.sys.t.procs, i)), n.status[i]);
        }
      }
    }
  }

  lemma IdleStatus(img: Img, status: int)
    ensures StatusOk(img, L.Idle, status)
  {
  }

  // ---- one operation after another --------------------------------------------------------------------------------

  /** Operations of the running process that leave the ring and the set of directories alone. */
  lemma InsideStep(w: World, n: World, a: L.Act, disk: T.Disk)
    requires WorldInv(w, disk) && w.queue.running in w.queue.ring && a.p == w.queue.running
    requires L.Shaped(w.sys) && L.Possible(w.sys, a, disk) && n.sys == L.Next(w.sys, a, disk)
    requires !a.Fork? && !a.Exit? && (a.Remap? ==> 0 <= a.p < |w.sys.t.procs| && a.dir == w.sys.t.procs[a.p].dir)
    requires L.SysInv(n.sys, disk)
    requires Elsewhere(w.space, n.space, {w.cr3}) && n.space.dirs == w.space.dirs
    requires n.cr3 == w.cr3 && n.queue == w.queue && n.saved == w.saved && SameStatuses(w.status, n.status, a.p)
    requires 0 <= a.p < |n.sys.pc| && a.p < |n.status|
    requires StatusOk(Image(n.space.mem, w.cr3), n.sys.pc[a.p], n.status[a.p])
    ensures Unnoticed(w, n, a.p, disk)
  {
    hide Inv, Image, Elsewhere, NoLoose, L.SysInv, Placed, Tasks, Statuses, StatusOk, DirOfProc, L.Next, L.Possible;
    var p := a.p;
    SysParts(w.sys, disk);
    SysParts(n.sys, disk);
    RunsNow(w, disk);
    NextPlaces(w.sys, a, disk);
    NextOthers(w.sys, a, disk);
    ElsewhereParts(w.space, n.space, {w.cr3});
    assert Mine(w, n, p) == {w.cr3};
    PlacesKept(w.sys.t.procs, n.sys.t.procs, w.space, n.space, w.saved, w.queue.ring);
    LooseKept(w.space, n.space, {w.cr3});
    SamePlacesAt(w.sys.t.procs, n.sys.t.procs);
    assert DirOfProc(n.sys.t.procs, p) == w.cr3;
    StatusesKept(w, n, p, disk);
  }

  lemma SamePlacesAt(a: seq<T.Proc>, b: seq<T.Proc>)
    requires SamePlaces(a, b)
    ensures forall i {:trigger IsRun(b, i)} :: IsRun(b, i) <==> IsRun(a, i)
    ensures forall i {:trigger DirOfProc(b, i)} :: IsRun(a, i) ==> DirOfProc(b, i) == DirOfProc(a, i)
  {
  }

  lemma SysParts(s: L.Sys, disk: T.Disk)
    requires L.SysInv(s, disk)
    ensures L.Shaped(s) && L.PcsOk(s) && |s.t.procs| == |s.pc| == T.MAX_PROCS && T.Family(s.t)
  {
  }

  lemma ElsewhereParts(s: Space, n: Space, changed: set<int>)
    requires Elsewhere(s, n, changed)
    ensures Inv(n) && n.kdir == s.kdir && |n.mem| == |s.mem| && n.dirs - changed == s.dirs - changed
  {
  }

  /** The running task belongs to a running process, in the current directory. */
  lemma RunsNow(w: World, disk: T.Disk)
    requires WorldInv(w, disk) && w.queue.running in w.queue.ring
    ensures IsRun(w.sys.t.procs, w.queue.running) && DirOfProc(w.sys.t.procs, w.queue.running) == w.cr3
    ensures w.cr3 in w.space.dirs && w.queue.running < T.MAX_PROCS
    ensures w.sys.t.procs[w.queue.running].dir == w.cr3 * PAGE == w.saved[w.queue.running]
    ensures w.queue.running != 0 ==> w.cr3 != w.space.kdir
  {
    hide Inv, Image, L.SysInv, Statuses, NoLoose, Sound;
    PlacedFacts(w.sys.t.procs, w.space, w.saved, w.queue.running);
  }

  /** fork succeeded: slot i runs in the new directory C, and its task is in the ring. */
  lemma ForkStep(w: World, n: World, p: int, i: nat, C: int, disk: T.Disk)
    requires WorldInv(w, disk) && w.queue.running in w.queue.ring && p == w.queue.running
    requires L.Shaped(w.sys) && L.Possible(w.sys, L.Fork(p, i, C * PAGE), disk)
    requires n.sys == L.Next(w.sys, L.Fork(p, i, C * PAGE), disk) && L.SysInv(n.sys, disk)
    requires Elsewhere(w.space, n.space, {C}) && C !in w.space.dirs && C != 0 && n.space.dirs == w.space.dirs + {C}
    requires Sound(n.queue) && n.queue == AfterAdd(w.queue, i) && n.cr3 == w.cr3
    requires |w.saved| == T.MAX_PROCS && i < T.MAX_PROCS && n.saved == w.saved[i := C * PAGE] && n.status == w.status
    ensures Unnoticed(w, n, p, disk) && WorldInv(n, disk)
  {
    hide Inv, Image, Elsewhere, NoLoose, L.SysInv, Placed, Tasks, Statuses, StatusOk, DirOfProc, L.Next, L.Possible,
         Sound;
    SysParts(w.sys, disk);
    SysParts(n.sys, disk);
    RunsNow(w, disk);
    NextOthers(w.sys, L.Fork(p, i, C * PAGE), disk);
    ElsewhereParts(w.space, n.space, {C});
    assert Mine(w, n, p) == {w.cr3} + {C};
    ElsewhereWider(w.space, n.space, {C}, {w.cr3} + {C});
    LooseKept(w.space, n.space, {C});
    InvBounds(w.space);
    ForkPlaces(w, n, p, i, C, disk);
    ForkTasks(w, n, p, i, C, disk);
    ForkSelf(w, n, p, i, C, disk);
    StatusesKept(w, n, p, disk);
  }

  lemma ForkPlaces(w: World, n: World, p: int, i: nat, C: int, disk: T.Disk)
    requires L.Shaped(w.sys) && L.Possible(w.sys, L.Fork(p, i, C * PAGE), disk)
    requires n.sys == L.Next(w.sys, L.Fork(p, i, C * PAGE), disk)
    requires Placed(w.sys.t.procs, w.space, w.saved) && |w.saved| == T.MAX_PROCS && w.space.kdir in w.space.dirs
    requires n.space.kdir == w.space.kdir && n.space.dirs == w.space.dirs + {C} && C !in w.space.dirs && C != 0
    requires n.saved == w.saved[i := C * PAGE]
    ensures Placed(n.sys.t.procs, n.space, n.saved)
  {
    hide T.Recount;
    var a, b := w.sys.t.procs, n.sys.t.procs;
    forall j
      ensures IsRun(b, j) <==> IsRun(a, j) || j == i
      ensures IsRun(b, j) ==> DirOfProc(b, j) == if j == i then C else DirOfProc(a, j)
    {
    }
    forall j | IsRun(b, j)
      ensures Home(b, n.space, n.saved, j)
    {
      assert j != i ==> IsRun(a, j);
    }
    forall j, k | j < k && IsRun(b, j) && IsRun(b, k)
      ensures DirOfProc(b, j) != DirOfProc(b, k)
    {
      assert j != i ==> IsRun(a, j) && Home(a, w.space, w.saved, j);
      assert k != i ==> IsRun(a, k) && Home(a, w.space, w.saved, k);
    }
    forall D | D in n.space.dirs && D != n.space.kdir
      ensures LivesIn(b, D)
    {
      if D == C {
        assert IsRun(b, i) && DirOfProc(b, i) == C;
      } else {
        assert LivesIn(a, D);
        var j :| IsRun(a, j) && DirOfProc(a, j) == D;
        assert IsRun(b, j) && DirOfProc(b, j) == D;
      }
    }
  }

  lemma ForkTasks(w: World, n: World, p: int, i: nat, C: int, disk: T.Disk)
    requires L.Shaped(w.sys) && L.Possible(w.sys, L.Fork(p, i, C * PAGE), disk)
    requires n.sys == L.Next(w.sys, L.Fork(p, i, C * PAGE), disk)
    requires Tasks(w.sys.t.procs, w.queue.ring) && Sound(w.queue) && n.queue == AfterAdd(w.queue, i)
    ensures Tasks(n.sys.t.procs, n.queue.ring) && n.queue.running == w.queue.running
    ensures (w.queue.running in w.queue.ring ==> n.queue.running in n.queue.ring)
  {
    hide T.Recount;
    forall t: nat
      ensures t in n.queue.ring <==> IsRun(n.sys.t.procs, t)
    {
      assert t in n.queue.ring <==> t in w.queue.ring || t == i;
      assert t in w.queue.ring <==> IsRun(w.sys.t.procs, t);
    }
  }

  lemma ForkSelf(w: World, n: World, p: int, i: nat, C: int, disk: T.Disk)
    requires WorldInv(w, disk) && w.queue.running in w.queue.ring && p == w.queue.running
    requires L.Shaped(w.sys) && L.Possible(w.sys, L.Fork(p, i, C * PAGE), disk)
    requires n.sys == L.Next(w.sys, L.Fork(p, i, C * PAGE), disk) && i < T.MAX_PROCS && n.status == w.status
    ensures IsRun(n.sys.t.procs, p) && DirOfProc(n.sys.t.procs, p) == w.cr3 && n.sys.pc[p] == L.Idle
    ensures StatusOk(Image(n.space.mem, DirOfProc(n.sys.t.procs, p)), n.sys.pc[p], n.status[p])
    ensures forall j {:trigger IsRun(n.sys.t.procs, j)} :: IsRun(n.sys.t.procs, j) ==>
      j == p || IsRun(w.sys.t.procs, j) || n.sys.pc[j] == L.Idle
  {
    hide T.Recount, Inv, Image, L.SysInv, Sound, Tasks, Statuses, NoLoose, Placed;
    RunsNow(w, disk);
    SysParts(w.sys, disk);
  }

  /** execve succeeded: the running process lives in the new directory C; its old one is gone, unless it is the boot
      directory. */
  lemma ExecStep(w: World, n: World, p: int, C: int, brk: int, disk: T.Disk)
    requires WorldInv(w, disk) && w.queue.running in w.queue.ring && p == w.queue.running
    requires L.Shaped(w.sys) && L.Possible(w.sys, L.Remap(p, C * PAGE, brk), disk)
    requires n.sys == L.Next(w.sys, L.Remap(p, C * PAGE, brk), disk) && L.SysInv(n.sys, disk)
    requires C !in w.space.dirs && C != 0
    requires n.space.dirs == (if w.cr3 == w.space.kdir then w.space.dirs else w.space.dirs - {w.cr3}) + {C}
    requires Elsewhere(w.space, n.space, if w.cr3 == w.space.kdir then {C} else {w.cr3, C})
    requires n.queue == w.queue && n.cr3 == C && n.status == w.status
    requires |w.saved| == T.MAX_PROCS && 0 <= p < T.MAX_PROCS && n.saved == w.saved[p := C * PAGE]
    ensures Unnoticed(w, n, p, disk) && WorldInv(n, disk)
  {
    hide Inv, Image, Elsewhere, NoLoose, L.SysInv, Placed, Tasks, Statuses, StatusOk, DirOfProc, L.Next, L.Possible,
         Sound;
    SysParts(w.sys, disk);
    SysParts(n.sys, disk);
    RunsNow(w, disk);
    NextOthers(w.sys, L.Remap(p, C * PAGE, brk), disk);
    var changed := if w.cr3 == w.space.kdir then {C} else {w.cr3, C};
    ElsewhereParts(w.space, n.space, changed);
    assert Mine(w, n, p) == {w.cr3} + {C};
    ElsewhereWider(w.space, n.space, changed, {w.cr3} + {C});
    LooseKept(w.space, n.space, changed);
    InvBounds(w.space);
    ExecPlaces(w, n, p, C, brk, disk);
    ExecSelf(w, n, p, C, brk, disk);
    StatusesKept(w, n, p, disk);
  }

  lemma ExecPlaces(w: World, n: World, p: int, C: int, brk: int, disk: T.Disk)
    requires L.Shaped(w.sys) && L.Possible(w.sys, L.Remap(p, C * PAGE, brk), disk)
    requires n.sys == L.Next(w.sys, L.Remap(p, C * PAGE, brk), disk)
    requires Placed(w.sys.t.procs, w.space, w.saved) && IsRun(w.sys.t.procs, p) && w.space.kdir in w.space.dirs
    requires Tasks(w.sys.t.procs, w.queue.ring) && DirOfProc(w.sys.t.procs, p) == w.cr3
    requires C !in w.space.dirs && C != 0 && n.space.kdir == w.space.kdir
    requires n.space.dirs == (if w.cr3 == w.space.kdir then w.space.dirs else w.space.dirs - {w.cr3}) + {C}
    requires n.saved == w.saved[p := C * PAGE]
    ensures Placed(n.sys.t.procs, n.space, n.saved) && Tasks(n.sys.t.procs, w.queue.ring)
  {
    var a, b := w.sys.t.procs, n.sys.t.procs;
    PlacedFacts(a, w.space, w.saved, p);
    forall j
      ensures IsRun(b, j) <==> IsRun(a, j)
      ensures IsRun(b, j) ==> DirOfProc(b, j) == if j == p then C else DirOfProc(a, j)
    {
    }
    forall j | IsRun(b, j)
      ensures Home(b, n.space, n.saved, j)
    {
      assert IsRun(a, j) && Home(a, w.space, w.saved, j);
    }
    forall j, k | j < k && IsRun(b, j) && IsRun(b, k)
      ensures DirOfProc(b, j) != DirOfProc(b, k)
    {
      assert IsRun(a, j) && Home(a, w.space, w.saved, j);
      assert IsRun(a, k) && Home(a, w.space, w.saved, k);
    }
    forall D | D in n.space.dirs && D != n.space.kdir
      ensures LivesIn(b, D)
    {
      if D == C {
        assert IsRun(b, p) && DirOfProc(b, p) == C;
      } else {
        assert LivesIn(a, D);
        var j :| IsRun(a, j) && DirOfProc(a, j) == D;
        assert IsRun(b, j) && DirOfProc(b, j) == D;
      }
    }
  }

  lemma ExecSelf(w: World, n: World, p: int, C: int, brk: int, disk: T.Disk)
    requires WorldInv(w, disk) && w.queue.running in w.queue.ring && p == w.queue.running
    requires L.Shaped(w.sys) && L.Possible(w.sys, L.Remap(p, C * PAGE, brk), disk)
    requires n.sys == L.Next(w.sys, L.Remap(p, C * PAGE, brk), disk) && n.status == w.status
    ensures IsRun(n.sys.t.procs, p) && DirOfProc(n.sys.t.procs, p) == C && 0 <= p < |n.sys.pc| && n.sys.pc[p] == L.Idle
    ensures |n.status| == T.MAX_PROCS
    ensures StatusOk(Image(n.space.mem, DirOfProc(n.sys.t.procs, p)), n.sys.pc[p], n.status[p])
    ensures forall j {:trigger IsRun(n.sys.t.procs, j)} :: IsRun(n.sys.t.procs, j) ==> IsRun(w.sys.t.procs, j)
  {
    hide Inv, Image, L.SysInv, Sound, Tasks, NoLoose, Placed;
    RunsNow(w, disk);
    SysParts(w.sys, disk);
  }

  /** exit, up to the final yield: the process is a zombie, its directory is gone, its task has left the ring. */
  lemma ExitStep(w: World, n: World, p: int, code: int, disk: T.Disk)
    requires WorldInv(w, disk) && w.queue.running in w.queue.ring && p == w.queue.running && p != 0
    requires L.Shaped(w.sys) && L.Possible(w.sys, L.Exit(p, code, w.space.kdir * PAGE), disk)
    requires n.sys == L.Next(w.sys, L.Exit(p, code, w.space.kdir * PAGE), disk) && L.SysInv(n.sys, disk)
    requires n.space.dirs == w.space.dirs - {w.cr3} && Elsewhere(w.space, n.space, {w.cr3})
    requires Sound(n.queue) && n.queue == After(w.queue, Left) && n.cr3 == w.space.kdir && n.status == w.status
    requires |w.saved| == T.MAX_PROCS && 0 <= p < T.MAX_PROCS && n.saved == w.saved[p := w.space.kdir * PAGE]
    ensures Unnoticed(w, n, p, disk) && WorldInv(n, disk)
  {
    hide Inv, Image, Elsewhere, NoLoose, L.SysInv, Placed, Tasks, Statuses, StatusOk, DirOfProc, L.Next, L.Possible,
         Sound;
    SysParts(w.sys, disk);
    SysParts(n.sys, disk);
    RunsNow(w, disk);
    NextOthers(w.sys, L.Exit(p, code, w.space.kdir * PAGE), disk);
    ElsewhereParts(w.space, n.space, {w.cr3});
    assert Mine(w, n, p) == {w.cr3};
    LooseKept(w.space, n.space, {w.cr3});
    InvBounds(w.space);
    ExitPlaces(w, n, p, code, disk);
    ExitTasks(w, n, p, code, disk);
    StatusesKept(w, n, p, disk);
  }

  lemma ExitPlaces(w: World, n: World, p: int, code: int, disk: T.Disk)
    requires L.Shaped(w.sys) && L.Possible(w.sys, L.Exit(p, code, w.space.kdir * PAGE), disk)
    requires n.sys == L.Next(w.sys, L.Exit(p, code, w.space.kdir * PAGE), disk)
    requires Placed(w.sys.t.procs, w.space, w.saved) && IsRun(w.sys.t.procs, p) && DirOfProc(w.sys.t.procs, p) == w.cr3
    requires n.space.kdir == w.space.kdir && n.space.dirs == w.space.dirs - {w.cr3} && 0 <= p < |w.saved|
    requires n.saved == w.saved[p := w.space.kdir * PAGE]
    ensures Placed(n.sys.t.procs, n.space, n.saved) && !IsRun(n.sys.t.procs, p)
    ensures n.sys.t.procs[p].status == T.Zombie
    ensures forall j {:trigger IsRun(n.sys.t.procs, j)} :: IsRun(n.sys.t.procs, j) ==> IsRun(w.sys.t.procs, j)
  {
    hide T.Recount;
    var a, b := w.sys.t.procs, n.sys.t.procs;
    forall j
      ensures IsRun(b, j) <==> IsRun(a, j) && j != p
      ensures IsRun(b, j) ==> DirOfProc(b, j) == DirOfProc(a, j) && b[j].dir == a[j].dir
    {
    }
    forall j | IsRun(b, j)
      ensures Home(b, n.space, n.saved, j)
    {
      assert IsRun(a, j) && Home(a, w.space, w.saved, j);
    }
    forall j, k | j < k && IsRun(b, j) && IsRun(b, k)
      ensures DirOfProc(b, j) != DirOfProc(b, k)
    {
      assert IsRun(a, j) && IsRun(a, k);
    }
    forall D | D in n.space.dirs && D != n.space.kdir
      ensures LivesIn(b, D)
    {
      assert LivesIn(a, D);
      var j :| IsRun(a, j) && DirOfProc(a, j) == D;
      assert IsRun(b, j) && DirOfProc(b, j) == D;
    }
  }

  lemma ExitTasks(w: World, n: World, p: int, code: int, disk: T.Disk)
    requires L.Shaped(w.sys) && L.Possible(w.sys, L.Exit(p, code, w.space.kdir * PAGE), disk)
    requires n.sys == L.Next(w.sys, L.Exit(p, code, w.space.kdir * PAGE), disk)
    requires Tasks(w.sys.t.procs, w.queue.ring) && Sound(w.queue) && p == w.queue.running && p != 0
    requires w.queue.running in w.queue.ring && n.queue == After(w.queue, Left)
    ensures Tasks(n.sys.t.procs, n.queue.ring) && n.queue.running == p && p !in n.queue.ring
  {
    hide T.Recount, Sound, After;
    AfterSound(w.queue, Left);
    forall t: nat
      ensures t in n.queue.ring <==> IsRun(n.sys.t.procs, t)
    {
      assert t in w.queue.ring <==> IsRun(w.sys.t.procs, t);
    }
  }

  /** yield: the next task runs, in the directory saved for it. */
  lemma YieldStep(w: World, n: World, disk: T.Disk)
    requires WorldInv(w, disk) && n.space == w.space && n.sys == w.sys && n.status == w.status
    requires n.queue == AfterYield(w.queue)
    requires n.queue.running == w.queue.running ==> n.saved == w.saved && n.cr3 == w.cr3
    requires n.queue.running != w.queue.running ==>
      && w.queue.running < |w.saved| && n.queue.running < |w.saved|
      && n.saved == w.saved[w.queue.running := w.cr3 * PAGE] && n.cr3 == w.saved[n.queue.running] / PAGE
    ensures WorldInv(n, disk) && n.queue.running in n.queue.ring
    ensures forall p :: Unnoticed(w, n, p, disk)
  {
    hide Inv, Image, Elsewhere, NoLoose, L.SysInv, Statuses, StatusOk, DirOfProc, Sound, AfterYield, Placed;
    SysParts(w.sys, disk);
    AfterSound(w.queue, Switch);
    YieldTasks(w, n);
    YieldPlaces(w, n, disk);
    SameImages(w, n);
    ElsewhereSelf(w.space, {});
    assert n.space.dirs - w.space.dirs == {};
    forall p
      ensures Unnoticed(w, n, p, disk)
    {
      ElsewhereWider(w.space, n.space, {}, Mine(w, n, p));
    }
  }

  lemma SameImages(w: World, n: World)
    requires Statuses(w) && n.space == w.space && n.sys == w.sys && n.status == w.status
    ensures Statuses(n)
    ensures forall p :: OthersKept(w.sys, n.sys, p) && SameStatuses(w.status, n.status, p)
  {
    hide Image, StatusOk, DirOfProc;
    forall v
      ensures Kept(w.sys, n.sys, v)
    {
    }
  }

  lemma YieldTasks(w: World, n: World)
    requires Sound(w.queue) && n.queue == AfterYield(w.queue) && Tasks(w.sys.t.procs, w.queue.ring) && n.sys == w.sys
    ensures Tasks(n.sys.t.procs, n.queue.ring)
    ensures n.queue.running in n.queue.ring && IsRun(w.sys.t.procs, n.queue.running)
  {
    hide Sound, AfterYield;
    AfterSound(w.queue, Switch);
    assert forall t: nat :: t in n.queue.ring <==> t in w.queue.ring;
  }

  lemma YieldPlaces(w: World, n: World, disk: T.Disk)
    requires WorldInv(w, disk) && n.space == w.space && n.sys == w.sys
    requires IsRun(w.sys.t.procs, n.queue.running) && n.queue.running in n.queue.ring
    requires w.queue.running in w.queue.ring || n.queue.running != w.queue.running
    requires n.queue.running == w.queue.running ==> n.saved == w.saved && n.cr3 == w.cr3
    requires n.queue.running != w.queue.running ==>
      && w.queue.running < |w.saved| && n.queue.running < |w.saved|
      && n.saved == w.saved[w.queue.running := w.cr3 * PAGE] && n.cr3 == w.saved[n.queue.running] / PAGE
    ensures Placed(n.sys.t.procs, n.space, n.saved) && Current(n)
  {
    hide Inv, Image, NoLoose, L.SysInv, Statuses, DirOfProc, Sound, Tasks;
    var procs, prev := w.sys.t.procs, w.queue.running;
    PlacedFacts(procs, w.space, w.saved, n.queue.running);
    if w.queue.running in w.queue.ring {
      RunsNow(w, disk);
      assert n.saved == w.saved;
    } else {
      forall i | IsRun(procs, i)
        ensures Home(procs, n.space, n.saved, i)
      {
        assert i != prev && Home(procs, w.space, w.saved, i);
      }
    }
  }
}
