/** What reaches a process from another one, or from a file, over whole runs of the machine: the exit code that wait
    stores, and the bytes that read stores (kernel/arch/i386/process.c, kernel/arch/i386/syscall.c). */
module Deliveries {
  import opened Arith
  import opened Words
  import opened Paging
  import opened UserSpace
  import opened UserMap
  import opened Spaces
  import opened Steps
  import opened ElfFormat
  import opened Scheduler
  import opened World
  import opened Runs
  import opened Reads
  import opened CallLaws
  import T = Table
  import L = Lifecycle

  /** The pid of the process that has the CPU. */
  function Caller(w: World): int
  {
    if w.queue.running < |w.sys.t.procs| then w.sys.t.procs[w.queue.running].pid else -1
  }

  /** An operation does to table and log what its call promises. */
  lemma OpLaw(w: World, n: World, op: Op, disk: T.Disk)
    requires WorldInv(w, disk) && Effect(w, n, op, disk)
    ensures L.Shaped(w.sys) && w.queue.running < T.MAX_PROCS == |w.sys.t.procs| == |w.sys.pc|
    ensures if Deed(w, op) == [] then n.sys == w.sys
            else T.Slot(Deed(w, op)[0].p) && ActLaw(w.sys, n.sys, Deed(w, op)[0], disk)
  {
    hide WorldInv, Effect, Deed, ActLaw, L.Possible, L.Next, L.SysInv, Sound;
    WorldParts(w, disk);
    DeedOnce(w, n, op, disk);
    RunnerBound(w.queue);
    if Deed(w, op) != [] {
      InvLaw(w.sys, Deed(w, op)[0], disk);
    }
  }

  lemma RunnerBound(q: Queue)
    requires Sound(q)
    ensures q.running < MAX_TASKS
  {
  }

  // ---- exit and wait ----------------------------------------------------------------------------------------------

  /** A note of an exit comes from that call. */
  lemma ExitNote(w: World, n: World, op: Op, disk: T.Disk, pid: int, code: int)
    requires WorldInv(w, disk) && Effect(w, n, op, disk) && L.NExited(pid, code) in n.sys.log
    ensures L.NExited(pid, code) in w.sys.log || (op == Exit(code) && Caller(w) == pid)
  {
    hide WorldInv, ActLaw, MemoryDoes, StatusDoes, TableDoes;
    OpLaw(w, n, op, disk);
    if Deed(w, op) != [] {
      OneNote(w.sys, n.sys, Deed(w, op)[0], disk);
    }
  }

  lemma {:induction false} ExitCalled(ws: seq<World>, ops: seq<Op>, disk: T.Disk, k: nat, pid: int, code: int)
    returns (e: nat)
    requires Runs.Run(ws, ops, disk) && WorldInv(ws[0], disk) && ws[0].sys.log == [] && k <= |ops|
    requires L.NExited(pid, code) in ws[k].sys.log
    ensures e < k && ops[e] == Exit(code) && Caller(ws[e]) == pid
    decreases k
  {
    hide WorldInv, Effect;
    RunInv(ws, ops, disk, k - 1);
    assert Effect(ws[k - 1], ws[k], ops[k - 1], disk);
    ExitNote(ws[k - 1], ws[k], ops[k - 1], disk, pid, code);
    if L.NExited(pid, code) in ws[k - 1].sys.log {
      e := ExitCalled(ws, ops, disk, k - 1, pid, code);
    } else {
      e := k - 1;
    }
  }

  /** Process v is inside wait, which it called with this pointer when it was process `pid`. */
  ghost predicate Waits(w: World, v: int, pid: int, ptr: int)
  {
    && 0 <= v < |w.sys.pc| && 0 <= v < |w.status| && 0 <= v < |w.sys.t.procs|
    && w.sys.pc[v] != L.Idle && w.status[v] == ptr && w.sys.t.procs[v].pid == pid
  }

  /** Only a call of wait, and the looks that follow it, take a process out of Idle. */
  lemma PcStep(s: L.Sys, a: L.Act, disk: T.Disk, v: int)
    requires L.Shaped(s) && L.PcsOk(s) && L.Possible(s, a, disk) && T.Slot(v)
    requires |L.Next(s, a, disk).pc| == T.MAX_PROCS && L.Next(s, a, disk).pc[v] != L.Idle
    ensures ((a.Wait? || a.Look?) && a.p == v) || L.Next(s, a, disk).pc[v] == s.pc[v]
    ensures a.p == v ==> a.Wait? || (a.Look? && s.pc[v].Scan?)
    ensures s.pc[v] != L.Idle ==> s.t.procs[v].status == T.Run
  {
    hide T.Recount, L.PcOk;
    PcRuns(s, v);
    if a.Take? {
      L.TakingFacts(s, a.p);
    } else if a.Look? {
      L.LookedShape(s, a.p);
    }
  }

  lemma PcRuns(s: L.Sys, v: int)
    requires L.PcsOk(s) && T.Slot(v)
    ensures s.pc[v] != L.Idle ==> s.t.procs[v].status == T.Run
  {
    assert L.PcOk(s.t.procs, v, s.pc[v]);
  }

  lemma DeedKind(w: World, n: World, op: Op, disk: T.Disk)
    requires Effect(w, n, op, disk)
    ensures op.Wait? ==> Deed(w, op) == [L.Wait(w.queue.running)]
    ensures Deed(w, op) != [] ==> Deed(w, op)[0].p == w.queue.running && (Deed(w, op)[0].Wait? <==> op.Wait?)
    ensures if op.Wait? then w.queue.running < |w.status| && n.status == w.status[w.queue.running := op.ptr]
            else n.status == w.status
  {
    hide TableDoes, MemoryDoes;
  }

  lemma WaitStep(w: World, n: World, op: Op, disk: T.Disk, v: int)
    requires WorldInv(w, disk) && Effect(w, n, op, disk) && 0 <= v < |n.sys.pc| && n.sys.pc[v] != L.Idle
    ensures 0 <= v < |n.status| && 0 <= v < |n.sys.t.procs|
    ensures (op.Wait? && w.queue.running == v && Caller(w) == n.sys.t.procs[v].pid && n.status[v] == op.ptr)
            || Waits(w, v, n.sys.t.procs[v].pid, n.status[v])
  {
    hide WorldInv, Effect, Unnoticed, ActLaw, L.PcsOk, L.Possible, L.Next, Deed, L.SysInv, Kept;
    WorldParts(w, disk);
    EffectKeeps(w, n, op, disk);
    WorldParts(n, disk);
    OpLaw(w, n, op, disk);
    DeedKind(w, n, op, disk);
    DeedOnce(w, n, op, disk);
    SysParts(w.sys, disk);
    if Deed(w, op) != [] {
      var a := Deed(w, op)[0];
      PcStep(w.sys, a, disk, v);
      if a.p == v {
        SameTable(w.sys, n.sys, a, disk);
      } else {
        StayedSame(w, n, disk, v);
      }
    }
  }

  lemma SameTable(s: L.Sys, n: L.Sys, a: L.Act, disk: T.Disk)
    requires L.Shaped(s) && T.Slot(a.p) && ActLaw(s, n, a, disk) && (a.Wait? || a.Look?)
    ensures n.t == s.t
  {
  }

  lemma StayedSame(w: World, n: World, disk: T.Disk, v: int)
    requires Unnoticed(w, n, w.queue.running, disk) && v != w.queue.running && IsRun(w.sys.t.procs, v)
    ensures |n.sys.t.procs| == |w.sys.t.procs| && n.sys.t.procs[v].pid == w.sys.t.procs[v].pid
  {
    hide WorldInv, Inv, Image, Elsewhere;
    assert Kept(w.sys, n.sys, v);
  }

  /** Whoever is inside wait has called it, and its status pointer is the one it gave. */
  lemma {:induction false} WaitCalled(ws: seq<World>, ops: seq<Op>, disk: T.Disk, k: nat, v: nat) returns (a: nat)
    requires Runs.Run(ws, ops, disk) && WorldInv(ws[0], disk) && L.Boot(ws[0].sys) && k <= |ops|
    requires v < |ws[k].sys.pc| && ws[k].sys.pc[v] != L.Idle
    ensures a < k && ops[a].Wait? && ws[a].queue.running == v
    ensures v < |ws[k].sys.t.procs| && Caller(ws[a]) == ws[k].sys.t.procs[v].pid
    ensures v < |ws[k].status| && ws[k].status[v] == ops[a].ptr
    decreases k
  {
    hide WorldInv, Effect;
    if k > 0 {
      RunInv(ws, ops, disk, k - 1);
      assert Effect(ws[k - 1], ws[k], ops[k - 1], disk);
      WaitStep(ws[k - 1], ws[k], ops[k - 1], disk, v);
      if Waits(ws[k - 1], v, ws[k].sys.t.procs[v].pid, ws[k].status[v]) {
        a := WaitCalled(ws, ops, disk, k - 1, v);
      } else {
        a := k - 1;
      }
    }
  }

  /** The byte of a 32-bit value that a little-endian machine keeps at offset i. */
  function ByteAt(value: int, i: int): int
  {
    if i == 0 then value % 0x100
    else if i == 1 then value / 0x100 % 0x100
    else if i == 2 then value / 0x1_0000 % 0x100
    else value / 0x100_0000 % 0x100
  }

  /** Exactly the four bytes at ptr have changed, and hold the code; or nothing has, if there is no pointer. */
  ghost predicate Stored(img: Img, img': Img, ptr: int, code: int)
  {
    && img'.Keys == img.Keys
    && (ptr != 0 ==> ptr in img && ptr + 1 in img && ptr + 2 in img && ptr + 3 in img)
    && forall va {:trigger img'[va]} :: va in img ==>
      img'[va] == if ptr != 0 && ptr <= va < ptr + 4 then ByteAt(code % 0x1_0000_0000, va - ptr) else img[va]
  }

  /** From w to n the running process, which is in wait, is given the zombie in slot j. */
  ghost predicate Given(w: World, n: World, j: int, ptr: int, code: int)
  {
    && 0 <= j < |w.sys.t.procs| == |n.sys.t.procs| && w.queue.running < |w.sys.t.procs|
    && w.sys.t.procs[j].status == T.Zombie && w.sys.t.procs[j].ppid == Caller(w)
    && n.sys.t.procs[j].status == T.Free
    && Stored(Image(w.space.mem, w.cr3), Image(n.space.mem, n.cr3), ptr, code)
  }

  /** What wait delivers: in any run from boot, when a process is given a zombie, that process had called wait, the
      zombie had called exit, and the code it gave to exit is stored where the pointer given to wait points. */
  lemma WaitDelivers(ws: seq<World>, ops: seq<Op>, disk: T.Disk, k: nat) returns (a: nat, e: nat, j: int)
    requires Runs.Run(ws, ops, disk) && WorldInv(ws[0], disk) && L.Boot(ws[0].sys) && k < |ops| && ops[k].Take?
    ensures a < k && ops[a].Wait? && ws[a].queue.running == ws[k].queue.running && Caller(ws[a]) == Caller(ws[k])
    ensures e < k && ops[e].Exit? && 0 <= j < |ws[k].sys.t.procs| && Caller(ws[e]) == ws[k].sys.t.procs[j].pid
    ensures Given(ws[k], ws[k + 1], j, ops[a].ptr, ops[e].code)
  {
    hide WorldInv, Effect, Given, L.Boot;
    RunInv(ws, ops, disk, k);
    assert Effect(ws[k], ws[k + 1], ops[k], disk);
    NothingLogged(ws[0].sys);
    j := TakesZombie(ws[k], ws[k + 1], disk);
    var code := ws[k].sys.t.procs[j].exitCode;
    e := ExitCalled(ws, ops, disk, k, ws[k].sys.t.procs[j].pid, code);
    a := WaitCalled(ws, ops, disk, k, ws[k].queue.running);
    TakeGives(ws[k], ws[k + 1], disk, j);
  }

  /** The zombie that is taken is a child of the taker, and its exit is in the log. */
  lemma TakesZombie(w: World, n: World, disk: T.Disk) returns (j: int)
    requires WorldInv(w, disk) && Effect(w, n, Take, disk)
    ensures w.queue.running < |w.sys.pc| && w.sys.pc[w.queue.running] == L.Taking(j)
    ensures 1 <= j < |w.sys.t.procs| && w.queue.running < |w.sys.t.procs|
    ensures w.sys.t.procs[j].status == T.Zombie && w.sys.t.procs[j].ppid == Caller(w)
    ensures L.NExited(w.sys.t.procs[j].pid, w.sys.t.procs[j].exitCode) in w.sys.log
  {
    hide WorldInv, L.SysInv, L.PcsOk, L.Next, MemoryDoes, StatusDoes, Sound, L.Recorded;
    WorldParts(w, disk);
    OpLaw(w, n, Take, disk);
    SysParts(w.sys, disk);
    j := w.sys.pc[w.queue.running].j;
    L.TakingFacts(w.sys, w.queue.running);
    ZombieLogged(w.sys, disk, j);
  }

  lemma ZombieLogged(s: L.Sys, disk: T.Disk, j: int)
    requires L.SysInv(s, disk) && 1 <= j < |s.t.procs| && s.t.procs[j].status == T.Zombie
    ensures L.NExited(s.t.procs[j].pid, s.t.procs[j].exitCode) in s.log
  {
    assert T.Live(s.t.procs, j);
  }

  lemma TakeGives(w: World, n: World, disk: T.Disk, j: int)
    requires WorldInv(w, disk) && Effect(w, n, Take, disk)
    requires w.queue.running < |w.sys.pc| && w.sys.pc[w.queue.running] == L.Taking(j)
    requires 1 <= j < |w.sys.t.procs| && w.queue.running < |w.sys.t.procs| && w.queue.running < |w.status|
    requires w.sys.t.procs[j].status == T.Zombie && w.sys.t.procs[j].ppid == Caller(w)
    ensures Given(w, n, j, w.status[w.queue.running], w.sys.t.procs[j].exitCode)
  {
    hide WorldInv, Image, L.SysInv, L.PcsOk, L.Next, Reach, PutWord, HasWord, L.Possible, Stored;
    OpLaw(w, n, Take, disk);
    PointerGood(w, disk);
    var ptr := w.status[w.queue.running];
    if ptr == 0 {
      NothingStored(Image(w.space.mem, w.cr3), w.sys.t.procs[j].exitCode);
    } else {
      WordStored(Image(w.space.mem, w.cr3), ptr, w.sys.t.procs[j].exitCode);
    }
  }

  /** The pointer a process hands to wait stays good. */
  lemma PointerGood(w: World, disk: T.Disk)
    requires WorldInv(w, disk) && w.queue.running in w.queue.ring
    ensures w.queue.running < |w.status| && w.queue.running < |w.sys.pc|
    ensures w.sys.pc[w.queue.running] == L.Idle || w.status[w.queue.running] == 0
            || HasWord(Image(w.space.mem, w.cr3), w.status[w.queue.running])
  {
    hide Inv, Image, L.SysInv, Placed, NoLoose, HasWord, Sound;
    RunsNow(w, disk);
  }

  lemma NothingStored(img: Img, code: int)
    ensures Stored(img, img, 0, code)
  {
  }

  lemma WordStored(img: Img, ptr: int, code: int)
    requires HasWord(img, ptr) && ptr != 0
    ensures Stored(img, PutWord(img, ptr, code % WORD), ptr, code)
  {
    var img' := PutWord(img, ptr, code % WORD);
    assert img'.Keys == img.Keys;
  }

  lemma NothingLogged(s: L.Sys)
    requires L.Boot(s)
    ensures s.log == []
  {
  }

  // ---- open and read ----------------------------------------------------------------------------------------------

  /** The entry an operation reads through, or NONE. */
  function ReadsThrough(w: World, op: Op): int
  {
    if op.Read? && w.queue.running < |w.sys.t.procs| && 0 <= op.fd < |w.sys.t.procs[w.queue.running].fds|
    then w.sys.t.procs[w.queue.running].fds[op.fd] else T.NONE
  }

  /** How many bytes the operations from the a-th up to the k-th have read through entry f. */
  function BytesRead(ws: seq<World>, ops: seq<Op>, f: int, a: nat, k: nat): nat
    requires |ws| > |ops| && a <= k <= |ops| && 0 <= f
    decreases k
  {
    if a == k then 0
    else BytesRead(ws, ops, f, a, k - 1) + (if ReadsThrough(ws[k - 1], ops[k - 1]) == f then |ops[k - 1].bytes| else 0)
  }

  /** Entry f is open, and stands after `offset` bytes of this file. */
  predicate Stands(w: World, f: int, node: int, offset: int)
  {
    && 0 <= f < |w.sys.t.files| && w.sys.t.files[f].refcount > 0
    && w.sys.t.files[f].node == node && w.sys.t.files[f].offset == offset
  }

  lemma EntryAct(s: L.Sys, n: L.Sys, a: L.Act, disk: T.Disk, f: int)
    requires L.Shaped(s) && L.Shaped(n) && T.Slot(a.p) && ActLaw(s, n, a, disk) && 0 <= f < T.MAX_OPEN_FILES
    requires n.t.files[f].refcount > 0
    ensures a.Open? && a.f == f ==> n.t.files[f].node == a.node && n.t.files[f].offset == 0
    ensures !(a.Open? && a.f == f) ==> s.t.files[f].refcount > 0 && n.t.files[f].node == s.t.files[f].node
    ensures !(a.Open? && a.f == f) && !a.Read? ==> n.t.files[f].offset == s.t.files[f].offset
  {
    hide OnlyProc, OnlyFds, Buried, OnlyParent, ReadsFrom, T.Refs;
  }

  lemma EntryRead(s: L.Sys, n: L.Sys, p: int, fd: int, len: int, disk: T.Disk, f: int, bytes: seq<int>)
    requires L.Shaped(s) && L.Shaped(n) && T.Slot(p) && ActLaw(s, n, L.Read(p, fd, len), disk)
    requires 0 <= f < T.MAX_OPEN_FILES && ReadAt(s, p, fd, len, disk, bytes)
    ensures n.t.files[f].offset == s.t.files[f].offset + if s.t.procs[p].fds[fd] == f then |bytes| else 0
    ensures ReadsFrom(s.t, s.t.procs[p].fds[fd], len, disk, bytes)
  {
  }

  lemma ReadOp(w: World, n: World, fd: int, buf: int, len: int, bytes: seq<Byte>, disk: T.Disk)
    requires Effect(w, n, Read(fd, buf, len, bytes), disk)
    ensures ReadAt(w.sys, w.queue.running, fd, len, disk, bytes)
    ensures Image(n.space.mem, w.cr3) == Image(w.space.mem, w.cr3) + BytesAt(buf, bytes) && n.cr3 == w.cr3
    ensures Deed(w, Read(fd, buf, len, bytes)) == [L.Read(w.queue.running, fd, len)]
  {
    hide TableDoes, StatusDoes, Image, BytesAt, ReadAt, Reach, NoLoose;
  }

  lemma DeedOpens(w: World, op: Op)
    ensures Deed(w, op) != [] ==> (Deed(w, op)[0].Open? <==> op.Open?) && (Deed(w, op)[0].Read? <==> op.Read?)
    ensures op.Open? ==> Deed(w, op) == [L.Open(w.queue.running, op.fd, op.f, op.node)]
  {
  }

  /** An entry that is open was just opened, or was open before; only a read through it moves it on. */
  lemma EntryStep(w: World, n: World, op: Op, disk: T.Disk, f: int, node: int, offset: int)
    requires WorldInv(w, disk) && Effect(w, n, op, disk) && Stands(n, f, node, offset)
    ensures if op.Open? && op.f == f then op.node == node && offset == 0
            else Stands(w, f, node, offset - if ReadsThrough(w, op) == f then |op.bytes| else 0)
  {
    hide WorldInv, Effect, Unnoticed, Deed, ActLaw, L.SysInv, ReadAt, ReadsFrom;
    OpLaw(w, n, op, disk);
    DeedOpens(w, op);
    EffectKeeps(w, n, op, disk);
    WorldParts(n, disk);
    if Deed(w, op) != [] {
      EntryAct(w.sys, n.sys, Deed(w, op)[0], disk, f);
    }
    if op.Read? {
      ReadOp(w, n, op.fd, op.buf, op.len, op.bytes, disk);
      ReadDescriptor(w.sys, w.queue.running, op.fd, op.len, disk, op.bytes);
      EntryRead(w.sys, n.sys, w.queue.running, op.fd, op.len, disk, f, op.bytes);
    }
  }

  lemma ReadDescriptor(s: L.Sys, p: int, fd: int, len: int, disk: T.Disk, bytes: seq<int>)
    requires ReadAt(s, p, fd, len, disk, bytes)
    ensures 0 <= p < |s.t.procs| && 0 <= fd < |s.t.procs[p].fds|
  {
  }

  /** An entry that is open was opened by some call, and stands after what has been read through it since. */
  lemma {:induction false} EntryOpened(ws: seq<World>, ops: seq<Op>, disk: T.Disk, k: nat, f: int, node: int,
                                       offset: int) returns (a: nat)
    requires Runs.Run(ws, ops, disk) && WorldInv(ws[0], disk) && L.Boot(ws[0].sys) && k <= |ops|
    requires Stands(ws[k], f, node, offset)
    ensures a < k && ops[a].Open? && ops[a].f == f && ops[a].node == node
    ensures forall i {:trigger ops[i]} :: a < i < k ==> !(ops[i].Open? && ops[i].f == f)
    ensures offset == BytesRead(ws, ops, f, a + 1, k)
    decreases k
  {
    hide WorldInv, Effect;
    if k > 0 {
      RunInv(ws, ops, disk, k - 1);
      var w, op := ws[k - 1], ops[k - 1];
      assert Effect(w, ws[k], op, disk);
      EntryStep(w, ws[k], op, disk, f, node, offset);
      if op.Open? && op.f == f {
        a := k - 1;
      } else {
        a := EntryOpened(ws, ops, disk, k - 1, f, node, offset - if ReadsThrough(w, op) == f then |op.bytes| else 0);
      }
    }
  }

  /** The k-th operation reads through entry f, which the a-th opened last, and stores the next bytes of that file. */
  ghost predicate Delivered(ws: seq<World>, ops: seq<Op>, disk: T.Disk, a: nat, f: int, k: nat)
  {
    && a < k < |ops| < |ws| && ops[a].Open? && ops[k].Read?
    && 0 <= ops[a].f == f == ReadsThrough(ws[k], ops[k]) && 0 <= ops[a].node < |disk|
    && (forall i {:trigger ops[i]} :: a < i < k ==> !(ops[i].Open? && ops[i].f == f))
    && AreNext(disk[ops[a].node], BytesRead(ws, ops, f, a + 1, k), ops[k].len, ops[k].bytes)
    && Image(ws[k + 1].space.mem, ws[k].cr3) ==
       Image(ws[k].space.mem, ws[k].cr3) + BytesAt(ops[k].buf, ops[k].bytes)
  }

  /** What read delivers: in any run from boot, the bytes a read stores are those of the file that was opened on the
      entry behind the descriptor, from where the reads since then, by whichever processes, have left off. */
  lemma ReadDelivers(ws: seq<World>, ops: seq<Op>, disk: T.Disk, k: nat) returns (a: nat, f: int)
    requires Runs.Run(ws, ops, disk) && WorldInv(ws[0], disk) && L.Boot(ws[0].sys) && k < |ops| && ops[k].Read?
    ensures Delivered(ws, ops, disk, a, f, k)
  {
    hide WorldInv, Effect, L.Boot, BytesAt, Image, ReadAt, ActLaw, L.SysInv;
    RunInv(ws, ops, disk, k);
    var w, n, op := ws[k], ws[k + 1], ops[k];
    assert Effect(w, n, op, disk);
    OpLaw(w, n, op, disk);
    EffectKeeps(w, n, op, disk);
    WorldParts(n, disk);
    ReadOp(w, n, op.fd, op.buf, op.len, op.bytes, disk);
    ReadDescriptor(w.sys, w.queue.running, op.fd, op.len, disk, op.bytes);
    EntryRead(w.sys, n.sys, w.queue.running, op.fd, op.len, disk, 0, op.bytes);
    f := w.sys.t.procs[w.queue.running].fds[op.fd];
    EntryInUse(w, disk, w.queue.running, op.fd, f);
    a := EntryOpened(ws, ops, disk, k, f, w.sys.t.files[f].node, w.sys.t.files[f].offset);
  }

  lemma EntryInUse(w: World, disk: T.Disk, p: int, fd: int, f: int)
    requires WorldInv(w, disk) && 0 <= p < |w.sys.t.procs| && 0 <= fd < |w.sys.t.procs[p].fds|
    requires f == w.sys.t.procs[p].fds[fd] && 0 <= f < |w.sys.t.files|
    ensures w.sys.t.files[f].refcount > 0
  {
    hide Inv, Image, NoLoose, Sound, Placed, Statuses, Current, Tasks, L.PcsOk, L.AllRecorded, L.FilesRecorded,
         T.Family;
    assert T.Points(w.sys.t.procs, p, fd, f);
    T.PointsIn(w.sys.t.procs, p, fd, f);
  }
}
