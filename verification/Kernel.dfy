/** The system calls over the whole machine (kernel/arch/i386/process.c, kernel/arch/i386/syscall.c). Each runs with
    interrupts off from its entry to its end or to a yield. */
module Kernel {
  import opened Arith
  import opened Words
  import opened Paging
  import opened Address
  import opened Reads
  import opened UserSpace
  import opened UserMap
  import opened UserAccess
  import opened Spaces
  import opened Steps
  import opened ElfFormat
  import opened Machine
  import opened Errno
  import opened Scheduler
  import Pages
  import opened World
  import opened Runs
  import T = Table
  import L = Lifecycle
  import P = Processes
  import Law = CallLaws
  import D = Deliveries
  import Dir = Directories
  import FS = ForkSteps
  import F = Fork
  import E = Exec
  import B = Sbrk
  import X = Elf
  import I = Initrd

  const EXEC_BUF_SIZE := 128 * 1024

  /** What an operation that only touched the current address space shows of the rest. */
  lemma OnlyElsewhere(s: Space, n: Space, D: int)
    requires Inv(s) && OnlySpace(s, n, D)
    ensures Elsewhere(s, n, {D}) && n.dirs == s.dirs && n.kdir == s.kdir
  {
    hide Inv, Image;
    InsideElsewhere(s, n, D);
  }

  class Kernel {
    const m: Machine
    const ring: Ring
    const tbl: P.ProcessTable
    const heap: P.KernelHeap
    const fs: I.Disk
    ghost const files: seq<I.Entry>
    var saved: seq<int>
    var status: seq<int>
    var execBuf: seq<Byte>
    ghost var past: seq<World>
    ghost var ops: seq<Op>

    ghost function W(): World
      reads this, m, m.pmm, ring, tbl, tbl.procs, tbl.files, tbl.pc
    {
      World(m.S(), m.cr3, tbl.S(), ring.Q(), saved, status)
    }

    ghost function Repr(): set<object>
    {
      {this, m, m.pmm, m.pmm.bitmap, ring, ring.next, tbl, tbl.procs, tbl.files, tbl.pc, heap}
    }

    /** The frame bitmap is no array of the process tables. */
    ghost predicate Separate()
    {
      var bitmap: set<object> := {m.pmm.bitmap};
      var others: set<object> := {ring.next, tbl.procs, tbl.files, tbl.pc};
      bitmap !! others
    }

    /** Every component is sound by itself, and they share no storage. */
    ghost predicate Parts()
      reads Repr(), fs, fs.nodes, fs.data
    {
      && m.Valid() && ring.Valid() && tbl.Valid() && 0 < heap.next
      && |execBuf| == EXEC_BUF_SIZE && Separate()
      && fs.Holds(files) && FilesFit(files) && tbl.disk == Contents(files)
      && fs.nodes !in Repr() && fs.data !in Repr() && fs !in Repr()
    }

    ghost predicate Valid()
      reads Repr(), fs, fs.nodes, fs.data
    {
      Parts() && WorldInv(W(), tbl.disk) && History(past, ops, W(), tbl.disk)
    }

    /** Always true. A fact behind `forall k :: Key(k) ==> ...` is there for whoever asserts Key(0). */
    static predicate Key(k: int)
    {
      true
    }

    /** The invariant, behind a key, so that a contract can pass it on without looking inside. */
    ghost predicate Safe()
      reads Repr(), fs, fs.nodes, fs.data
    {
      && tbl.procs.Length == T.MAX_PROCS == tbl.pc.Length && tbl.files.Length == T.MAX_OPEN_FILES
      && |execBuf| == EXEC_BUF_SIZE
      && forall k: int {:trigger Key(k)} :: Key(k) ==> Valid()
    }

    /** One operation was performed, with its whole effect, and went down in the history. */
    twostate predicate Did(op: Op)
      reads this, m, m.pmm, ring, tbl, tbl.procs, tbl.files, tbl.pc
    {
      Effect(old(W()), W(), op, tbl.disk) && ops == old(ops) + [op] && past == old(past) + [W()]
    }

    /** Two operations in a row. */
    twostate predicate DidBoth(first: Op, second: Op)
      reads this, m, m.pmm, ring, tbl, tbl.procs, tbl.files, tbl.pc
    {
      && ops == old(ops) + [first, second] && |past| == |old(past)| + 2 && past == old(past) + [past[|old(past)|], W()]
      && Effect(old(W()), past[|old(past)|], first, tbl.disk) && Effect(past[|old(past)|], W(), second, tbl.disk)
    }

    twostate predicate DidNothing()
      reads this, m, m.pmm, ring, tbl, tbl.procs, tbl.files, tbl.pc
    {
      W() == old(W()) && ops == old(ops) && past == old(past)
    }

    /** A running process is about to make a system call. */
    ghost predicate Ready()
      reads Repr(), fs, fs.nodes, fs.data
    {
      && Safe()
      && ring.running in ring.ring
      && ring.running < T.MAX_PROCS && |tbl.procs[ring.running].fds| == T.MAX_FDS
    }

    ghost predicate Outside()
      reads Repr(), fs, fs.nodes, fs.data
    {
      Ready() && tbl.pc[ring.running] == L.Idle
    }

    /** The state at boot: one process in the boot directory, one task in the ring. */
    constructor (m: Machine, heap: P.KernelHeap, fs: I.Disk, ghost files: seq<I.Entry>)
      requires m.Valid() && m.dirs == {m.kdir} && m.cr3 == m.kdir && m.kdir != 0 && NoLoose(m.S())
      requires 0 < heap.next && fs.Holds(files) && FilesFit(files) && Apart(fs, m, heap)
      ensures Ready() && Outside() && W().queue == Queue(0, [0]) && L.Boot(W().sys)
      ensures this.m == m && this.heap == heap && this.fs == fs && this.files == files
      ensures fresh(ring) && fresh(ring.next) && fresh(tbl) && fresh(tbl.procs) && fresh(tbl.files) && fresh(tbl.pc)
    {
      hide Machine.Valid, P.ProcessTable.Valid, Ring.Valid, Inv, NoLoose, WorldInv, L.SysInv, Sound, Linked, L.Boot,
           History, I.Disk.Holds, FilesFit;
      this.m, this.heap, this.fs, this.files := m, heap, fs, files;
      this.ring := new Ring();
      this.tbl := new P.ProcessTable(m.kdir * PAGE, Contents(files));
      this.saved := seq(T.MAX_PROCS, _ => m.kdir * PAGE);
      this.status := seq(T.MAX_PROCS, _ => 0);
      this.execBuf := seq(EXEC_BUF_SIZE, _ => 0);
      new;
      ValidParts(m);
      TableSize();
      assert tbl.S().t.procs[0] == tbl.procs[0];
      BootWorld(W(), tbl.disk);
      Begin();
    }

    /** The call has done its work: the state is sound again, and the operation goes down in the history. */
    ghost method Note(w: World, op: Op)
      requires Parts() && WorldInv(w, tbl.disk) && History(past, ops, w, tbl.disk) && Effect(w, W(), op, tbl.disk)
      modifies this`past, this`ops
      ensures Safe() && past == old(past) + [W()] && ops == old(ops) + [op] && W() == old(W())
      ensures op.Yield? ==> Ready()
      ensures !op.Yield? && !op.Exit? ==> Ready() && ring.running == w.queue.running
      ensures !op.Yield? && !op.Exit? && !op.Wait? && !op.Look? ==> Outside()
    {
      hide Machine.Valid, Ring.Valid, P.ProcessTable.Valid, I.Disk.Holds, WorldInv, Effect, History, FilesFit;
      TableSize();
      Recorded(past, ops, w, W(), op, tbl.disk);
      past, ops := past + [W()], ops + [op];
    }

    /** The state at boot is the first of the history. */
    ghost method Begin()
      requires Parts() && WorldInv(W(), tbl.disk) && L.Boot(tbl.S()) && W().queue == Queue(0, [0])
      modifies this`past, this`ops
      ensures Outside() && W() == old(W()) && past == [W()] && ops == []
    {
      hide Machine.Valid, Ring.Valid, P.ProcessTable.Valid, I.Disk.Holds, WorldInv, History, FilesFit, L.Boot;
      TableSize();
      BootFacts(tbl.S());
      past, ops := [W()], [];
      HistoryStarts(W(), tbl.disk);
    }

    lemma TableSize()
      requires tbl.Valid()
      ensures tbl.procs.Length == T.MAX_PROCS == tbl.pc.Length && tbl.files.Length == T.MAX_OPEN_FILES
      ensures L.SysInv(tbl.S(), tbl.disk)
      ensures forall i :: 0 <= i < T.MAX_PROCS ==> |tbl.procs[i].fds| == T.MAX_FDS
    {
      hide L.PcsOk, L.AllRecorded, L.FilesRecorded, T.Family;
      forall i | 0 <= i < T.MAX_PROCS
        ensures |tbl.procs[i].fds| == T.MAX_FDS
      {
        P.SysInvFacts(tbl.S(), tbl.disk, i);
      }
    }

    // ---- scheduling -----------------------------------------------------------------------------------------------

    /** yield: the next task of the ring runs, in the directory saved for it. */
    method Yield()
      requires Safe()
      modifies this`saved, this`past, this`ops, m`cr3, ring
      ensures Ready() && Did(Op.Yield)
      ensures W().queue == AfterYield(old(W().queue)) && m.S() == old(m.S()) && tbl.S() == old(tbl.S())
    {
      hide Machine.Valid, Ring.Valid, I.Disk.Holds, FilesFit, Inv, Image, WorldInv, L.SysInv, Sound, Linked, NoLoose,
           Placed, Effect, History;
      assert Key(0);
      ghost var w := W();
      WorldParts(w, tbl.disk);
      var prev := ring.running;
      ring.Yield();
      SwitchReady(w, ring.Q(), tbl.disk);
      if ring.running != prev {
        saved := saved[prev := m.cr3 * PAGE];
        if saved[ring.running] != 0 {
          m.SwitchDirectory(saved[ring.running]);
        }
      }
      YieldEffect(w, W(), tbl.disk);
      Note(w, Op.Yield);
    }

    // ---- the first program ----------------------------------------------------------------------------------------

    /** What load_program relies on for file k: room for it in the kernel heap, and what Exec.LoadSupply says. */
    ghost predicate FirstReady(k: int, prog: nat)
      requires 0 <= k < |files|
      reads m, m.pmm, heap
    {
      heap.next + |I.Content(files[k])| <= heap.end && E.LoadSupply(m, I.Content(files[k]), prog)
    }

    /** kernel_main's last step before process 0 runs: the named file is loaded into the boot directory, the break set,
        and the stack mapped; false when it panics. */
    method LoadProgram(name: seq<Byte>, ghost prog: nat) returns (ok: bool, entry: int, ghost inode: int)
      requires Outside() && Image(m.mem, m.cr3) == map[]
      requires forall k :: 0 <= k < |files| && files[k].name == name ==> FirstReady(k, prog)
      modifies this`past, this`ops, heap, m`mem, m`own, m.pmm, m.pmm.bitmap, tbl.procs
      ensures inode == -1 <==> forall k :: 0 <= k < |files| ==> files[k].name != name
      ensures inode != -1 ==>
        0 <= inode < |files| && files[inode].name == name && forall k :: 0 <= k < inode ==> files[k].name != name
      ensures ok ==>
        && inode != -1 && Outside() && ring.running == old(ring.running) && m.cr3 == old(m.cr3)
        && FirstIn(I.Content(files[inode]), prog, entry)
        && E.StackPaid(old(E.LoadLeft(m, I.Content(files[inode]))), |m.pmm.free|)
        && heap.next == old(heap.next) + (|I.Content(files[inode])| + 7) / 8 * 8
      ensures inode != -1 ==>
        var data := I.Content(files[inode]);
        && (Accepts(data, |data|) ==> HeadersFit(data))
        && (Accepts(data, |data|) && Entry(data) != 0 && old(E.LoadLeft(m, data)) > E.USER_STACK_PAGES ==> ok)
    {
      hide Valid, E.LoadSupply, E.LoadLeft, E.FirstLoaded, HeadersFit, Entry, Accepts, Image;
      HeapSound();
      var node := FindNode(name);
      StillOutside();
      inode := node;
      if node == -1 {
        return false, 0, inode;
      }
      ok, entry := LoadNode(node, prog);
    }

    /** `vfs_finddir(fs_root, path)` */
    method FindNode(name: seq<Byte>) returns (inode: int)
      requires Outside()
      ensures inode == -1 <==> forall k :: 0 <= k < |files| ==> files[k].name != name
      ensures inode != -1 ==>
        0 <= inode < |files| && files[inode].name == name && forall k :: 0 <= k < inode ==> files[k].name != name
    {
      hide Machine.Valid, Ring.Valid, P.ProcessTable.Valid, FilesFit, Inv, Image, WorldInv, Effect, History, I.Stands;
      assert Key(0);
      NodeNames(fs, files);
      inode := fs.FindDir(name);
    }

    /** The first program, once its file is found. */
    method LoadNode(inode: int, ghost prog: nat) returns (ok: bool, entry: int)
      requires Outside() && Image(m.mem, m.cr3) == map[] && 0 <= inode < |files| && FirstReady(inode, prog)
      modifies this`past, this`ops, heap, m`mem, m`own, m.pmm, m.pmm.bitmap, tbl.procs
      ensures ok ==>
        && Outside() && ring.running == old(ring.running) && m.cr3 == old(m.cr3)
        && FirstIn(I.Content(files[inode]), prog, entry)
        && E.StackPaid(old(E.LoadLeft(m, I.Content(files[inode]))), |m.pmm.free|)
        && heap.next == old(heap.next) + (|I.Content(files[inode])| + 7) / 8 * 8
      ensures var data := I.Content(files[inode]);
        && (Accepts(data, |data|) ==> HeadersFit(data))
        && (Accepts(data, |data|) && Entry(data) != 0 && old(E.LoadLeft(m, data)) > E.USER_STACK_PAGES ==> ok)
    {
      hide Valid, E.LoadSupply, E.LoadLeft, E.FirstLoaded, HeadersFit, Entry, Accepts, Image, Effect, E.StackPaid;
      HeapSound();
      var data := ReadAll(inode);
      var buf := heap.Kmalloc(|data|);
      StillOutside();
      ok, entry := LoadData(data, prog);
    }

    /** The first program, once its file is in a buffer. */
    method LoadData(data: seq<Byte>, ghost prog: nat) returns (ok: bool, entry: int)
      requires Outside() && Image(m.mem, m.cr3) == map[] && E.LoadSupply(m, data, prog)
      modifies this`past, this`ops, m`mem, m`own, m.pmm, m.pmm.bitmap, tbl.procs
      ensures ok ==>
        && Outside() && ring.running == old(ring.running) && m.cr3 == old(m.cr3)
        && FirstIn(data, prog, entry) && E.StackPaid(old(E.LoadLeft(m, data)), |m.pmm.free|)
      ensures Accepts(data, |data|) ==> HeadersFit(data)
      ensures Accepts(data, |data|) && Entry(data) != 0 && old(E.LoadLeft(m, data)) > E.USER_STACK_PAGES ==> ok
    {
      hide Machine.Valid, Ring.Valid, P.ProcessTable.Valid, I.Disk.Holds, FilesFit, Inv, Image, WorldInv, L.SysInv,
           Sound, NoLoose, L.Possible, L.Next, Effect, History, E.LoadSupply, E.LoadLeft, E.FirstLoaded, HeadersFit,
           Entry, Highest, PhNum, Accepts, Program, Loadable, OnlyBreak, Pages.RoundUp, E.StackPaid;
      assert Key(0);
      TableSize();
      ghost var w := W();
      var p := ring.running;
      WorldParts(w, tbl.disk);
      RunsNow(w, tbl.disk);
      var brk;
      ok, entry, brk := E.LoadFirst(m, data, prog);
      if !ok {
        return;
      }
      RemapPossible(w, tbl.disk, p, tbl.procs[p].dir, Pages.RoundUp(brk));
      tbl.SetSpace(p, tbl.procs[p].dir, Pages.RoundUp(brk));
      LoadEffect(w, W(), data, prog, Pages.RoundUp(brk), tbl.disk);
      Note(w, Op.Load(Pages.RoundUp(brk), Program(map[], data, prog)));
    }

    /** The program in `data` runs in the caller's directory, from its entry point, with its break behind it. */
    twostate predicate FirstIn(data: seq<Byte>, prog: nat, entry: int)
      reads this, m, m.pmm, ring, tbl, tbl.procs, tbl.files, tbl.pc
    {
      && E.FirstLoaded(old(m.S()), m.S(), m.cr3, data, prog)
      && HeadersFit(data) && Accepts(data, |data|) && entry == Entry(data) != 0
      && Did(Op.Load(Pages.RoundUp(Highest(data, PhNum(data))), Program(map[], data, prog)))
      && OnlyBreak(old(tbl.S()), tbl.S(), ring.running)
      && ring.running < tbl.procs.Length
      && tbl.procs[ring.running].brk == Pages.RoundUp(Highest(data, PhNum(data)))
    }

    /** `vfs_read(prog, 0, prog->length, buf)` */
    method ReadAll(inode: int) returns (bytes: seq<Byte>)
      requires Outside() && 0 <= inode < |files|
      ensures bytes == I.Content(files[inode])
    {
      hide Machine.Valid, Ring.Valid, P.ProcessTable.Valid, I.Disk.Holds, Inv, Image, WorldInv, Effect, History, Chunk,
           I.InBounds;
      assert Key(0);
      NodeNames(fs, files);
      WholeFile(I.Content(files[inode]));
      bytes := fs.Read(inode, 0, fs.nodes[inode].length, files);
    }

    // ---- memory ---------------------------------------------------------------------------------------------------

    /** A store by user code. */
    method UserStore(va: int, b: Byte)
      requires Outside() && va in Image(m.mem, m.cr3)
      modifies m`mem, this`past, this`ops
      ensures Outside() && Did(Op.Store(va, b))
      ensures Image(m.mem, m.cr3) == old(Image(m.mem, m.cr3))[va := b] && m.cr3 == old(m.cr3)
    {
      hide Machine.Valid, Ring.Valid, I.Disk.Holds, FilesFit, Inv, Image, WorldInv, L.SysInv, Sound, Linked, NoLoose,
           Elsewhere, OnlySpace, SameEntries, Effect, History;
      assert Key(0);
      ghost var w := W();
      WorldParts(w, tbl.disk);
      StoreByte(m, va, b);
      OnlyElsewhere(w.space, m.S(), m.cr3);
      StoreEffect(w, W(), va, b, tbl.disk);
      Note(w, Op.Store(va, b));
    }

    /** sys_sbrk */
    method Sbrk(inc: int, ghost heapStart: int) returns (ret: int)
      requires Outside() && 0x40_0000 <= heapStart <= tbl.procs[ring.running].brk <= B.USER_BRK_LIMIT
      requires heapStart % PAGE == 0
      requires -0x8000_0000 <= inc < 0x8000_0000
      requires inc < 0 && tbl.procs[ring.running].brk + inc >= 0 ==> tbl.procs[ring.running].brk + inc >= heapStart
      requires 0 < inc && tbl.procs[ring.running].brk + inc <= B.USER_BRK_LIMIT ==>
        SbrkSupply(tbl.procs[ring.running].brk, inc)
      modifies m`mem, m`own, m.pmm, m.pmm.bitmap, tbl.procs, this`past, this`ops
      ensures Outside() && ring.running == old(ring.running) && Did(Op.Sbrk(tbl.procs[ring.running].brk))
      ensures OnlyBreak(old(tbl.S()), tbl.S(), ring.running)
      ensures var was, brk := old(tbl.procs[ring.running].brk), tbl.procs[ring.running].brk;
        B.Answers(old(m.S()), m.S(), m.cr3, was, inc, ret, brk)
    {
      hide Machine.Valid, Ring.Valid, P.ProcessTable.Valid, I.Disk.Holds, FilesFit, Inv, Image, WorldInv, L.SysInv,
           Sound, Linked, NoLoose, Elsewhere, OnlySpace, B.Answers, UserMap.TablesHold, L.Possible, L.Next, Effect,
           History, B.Absent, Pages.PageList, UserMap.TablesOf, Pages.RoundUp, Pages.RoundDown, OnlyBreak;
      assert Key(0);
      TableSize();
      ghost var w := W();
      var p := ring.running;
      WorldParts(w, tbl.disk);
      RunsNow(w, tbl.disk);
      var brk;
      ret, brk := B.SysSbrk(m, tbl.procs[p].brk, inc, heapStart);
      RemapPossible(w, tbl.disk, p, tbl.procs[p].dir, brk);
      tbl.SetSpace(p, tbl.procs[p].dir, brk);
      SbrkEffect(w, W(), inc, ret, brk, tbl.disk);
      Note(w, Op.Sbrk(brk));
    }

    ghost predicate SbrkSupply(brk: int, inc: int)
      reads m, m.pmm
    {
      var pages := B.Absent(m.mem, m.cr3, Pages.PageList(Pages.RoundDown(brk), brk + inc));
      UserMap.TablesHold(pages, |m.pmm.free|, UserMap.TablesOf(m.mem, m.cr3))
    }

    // ---- wait -----------------------------------------------------------------------------------------------------

    /** sys_wait up to the first look: the status pointer is checked once, here. */
    method WaitStart(ptr: int) returns (ok: bool)
      requires Outside() && 0 <= ptr < WORD
      modifies tbl.pc, this`status, this`past, this`ops
      ensures Ready() && ring.running == old(ring.running)
      ensures ok <==> ptr == 0 || InReach(Image(m.mem, m.cr3), ptr, 4)
      ensures if ok then Did(Op.Wait(ptr)) else DidNothing()
      ensures ok ==> status == old(status)[ring.running := ptr] && tbl.pc[ring.running] == L.Scan(0, 0)
    {
      hide Machine.Valid, Ring.Valid, FilesFit, Inv, Image, WorldInv, L.SysInv, Sound, Linked, NoLoose, Elsewhere,
           OnlySpace, L.Possible, InReach, Effect, History, L.Next;
      assert Key(0);
      ghost var w := W();
      var p := ring.running;
      WorldParts(w, tbl.disk);
      ok := true;
      if ptr != 0 {
        ok := UserRangeOk(m, ptr, 4);
      }
      if !ok {
        return;
      }
      WaitPossible(w, tbl.disk);
      tbl.WaitStart(p);
      status := status[p := ptr];
      WaitEffect(w, W(), ptr, tbl.disk);
      Note(w, Op.Wait(ptr));
    }

    ghost predicate ScanEnds()
      reads ring, tbl, tbl.pc
    {
      ring.running < tbl.pc.Length && tbl.pc[ring.running].Scan? && tbl.pc[ring.running].j == T.MAX_PROCS
    }

    ghost predicate HasChild()
      reads ring, tbl, tbl.procs
    {
      exists i :: T.Child(tbl.procs[..], ring.running, i)
    }

    /** One look of the scan: `more` says that it has come to its end and will yield before the next round. */
    method LookOnce() returns (done: bool, more: bool)
      requires Ready() && tbl.pc[ring.running].Scan?
      modifies tbl.pc, tbl`log, this`past, this`ops
      ensures Ready() && Did(Op.Look)
      ensures done <==> old(ScanEnds()) && !old(HasChild())
      ensures more <==> old(ScanEnds()) && old(HasChild())
    {
      hide Machine.Valid, Ring.Valid, I.Disk.Holds, FilesFit, Inv, Image, WorldInv, L.SysInv, Sound, Linked, NoLoose,
           Elsewhere, L.Possible, L.Next, Effect, History;
      assert Key(0);
      ghost var w := W();
      var p := ring.running;
      WorldParts(w, tbl.disk);
      RunsNow(w, tbl.disk);
      done, more := tbl.WaitLook(p);
      LookEffect(w, W(), tbl.disk);
      Note(w, Op.Look);
    }

    /** One turn of the scan in process_wait, interrupts being on between turns: an end without a child (-ECHILD), a
        yield, or on to the next slot. */
    method WaitLook() returns (done: bool, ghost again: bool)
      requires Ready() && tbl.pc[ring.running].Scan?
      modifies tbl.pc, tbl`log, this`saved, this`past, this`ops, m`cr3, ring
      ensures Ready()
      ensures done <==> old(ScanEnds()) && !old(HasChild())
      ensures again <==> old(ScanEnds()) && old(HasChild())
      ensures if again then DidBoth(Op.Look, Op.Yield) else Did(Op.Look)
    {
      hide Effect, ScanEnds, HasChild, Valid;
      var more;
      done, more := LookOnce();
      again := more;
      if more {
        Yield();
      }
    }

    /** The end of process_wait: the code is stored through the pointer checked long before, and the zombie is gone. */
    method WaitTake() returns (pid: int)
      requires Ready() && tbl.pc[ring.running].Taking?
      modifies m`mem, tbl.procs, tbl.pc, tbl`log, this`past, this`ops
      ensures Outside() && Did(Op.Take)
      ensures Took(old(W()), W(), pid)
      ensures Law.ReapLaw(old(tbl.S()).t, tbl.S().t, old(tbl.pc[ring.running]).j)
    {
      hide Machine.Valid, Ring.Valid, I.Disk.Holds, FilesFit, Inv, Image, WorldInv, L.SysInv, Sound, Linked, NoLoose,
           Elsewhere, OnlySpace, L.Possible, L.Next, PutWord, HasWord, Effect, History;
      assert Key(0);
      ghost var w := W();
      var p := ring.running;
      WorldParts(w, tbl.disk);
      RunsNow(w, tbl.disk);
      TakeReady(w, tbl.disk);
      if status[p] != 0 {
        X.StoreWord(m, status[p], tbl.procs[tbl.pc[p].j].exitCode % WORD);
        OnlyElsewhere(w.space, m.S(), m.cr3);
      } else {
        ElsewhereSelf(w.space, {m.cr3});
      }
      var code;
      pid, code := tbl.WaitTake(p);
      TakeEffect(w, W(), tbl.disk);
      Note(w, Op.Take);
    }

    // ---- files ----------------------------------------------------------------------------------------------------

    /** user_string_ok and vfs_finddir: the node of the file whose name lies at `path`. */
    method Lookup(path: int) returns (err: int, inode: int)
      requires Outside() && 0 <= path < WORD
      ensures LookupAnswer(Image(m.mem, m.cr3), path, files, err, inode)
    {
      hide Machine.Valid, Ring.Valid, FilesFit, Inv, Image, WorldInv, StringAt, I.Stands;
      assert Key(0);
      var ok, name := UserString(m, path);
      if !ok {
        return -EFAULT, 0;
      }
      inode := fs.FindDir(name);
      NodeNames(fs, files);
      if inode == -1 {
        return -ENOENT, 0;
      }
      return 0, inode;
    }

    /** A call that left the process tables as they were, and everything else but the exec buffer, has done nothing. */
    twostate lemma StillOutside()
      requires old(Outside()) && tbl.S() == old(tbl.S()) && |execBuf| == EXEC_BUF_SIZE && 0 < heap.next
      requires unchanged(this`saved, this`status, this`past, this`ops)
      requires unchanged(m, m.pmm, m.pmm.bitmap, ring, ring.next, fs, fs.nodes, fs.data)
      ensures Outside() && DidNothing()
    {
      hide Machine.Valid, Ring.Valid, I.Disk.Holds, FilesFit, Inv, WorldInv, L.SysInv, History;
      assert Key(0);
    }

    /** sys_open once the node is known: the lowest free descriptor from 3 on, the lowest free pool entry. */
    method OpenNode(inode: int) returns (ret: int, ghost f: int)
      requires Outside() && 0 <= inode < |files|
      modifies tbl.procs, tbl.files, tbl`log, this`past, this`ops
      ensures Outside() && ring.running == old(ring.running)
      ensures OpenAnswer(old(tbl.procs[ring.running]).fds, old(tbl.files[..]), ret, f)
      ensures if ret < 0 then (ret == -EMFILE || ret == -ENFILE) && DidNothing() else Did(Op.Open(ret, f, inode))
      ensures ret >= 0 ==> Law.OpenLaw(old(tbl.S()).t, tbl.S().t, ring.running, ret, f, inode)
    {
      hide Valid, Effect, Law.OpenLaw;
      HeapSound();
      var fd := tbl.FreeDescriptor(ring.running);
      StillOutside();
      if fd == T.NONE {
        return -EMFILE, 0;
      }
      var entry := OpenEntry(fd, inode);
      f := entry;
      ret := if entry == T.NONE then -ENFILE else fd;
    }

    /** The descriptor is known to be free: the lowest free entry of the pool goes with it. */
    method OpenEntry(fd: int, inode: int) returns (f: int)
      requires Outside() && 0 <= inode < |files|
      requires 0 <= fd < |tbl.procs[ring.running].fds| && tbl.procs[ring.running].fds[fd] == T.NONE
      modifies tbl.procs, tbl.files, tbl`log, this`past, this`ops
      ensures Outside() && ring.running == old(ring.running) && f == P.FreeEntryFrom(old(tbl.files[..]), 0)
      ensures if f == T.NONE then DidNothing() else Did(Op.Open(fd, f, inode))
      ensures f != T.NONE ==> Law.OpenLaw(old(tbl.S()).t, tbl.S().t, ring.running, fd, f, inode)
    {
      hide Machine.Valid, P.ProcessTable.Valid, Ring.Valid, I.Disk.Holds, FilesFit, Inv, Image, WorldInv, L.SysInv,
           Sound, Linked, NoLoose, L.Possible, L.Next, I.Stands, Effect, History, Law.OpenLaw;
      assert Key(0);
      ghost var w := W();
      var p := ring.running;
      WorldParts(w, tbl.disk);
      RunsNow(w, tbl.disk);
      f := tbl.Open(p, fd, inode);
      if f == T.NONE {
        StillOutside();
        return;
      }
      OpenEffect(w, W(), fd, f, inode, tbl.disk);
      Note(w, Op.Open(fd, f, inode));
    }

    /** sys_open */
    method Open(path: int) returns (ret: int, ghost f: int, ghost inode: int)
      requires Outside() && 0 <= path < WORD
      modifies tbl.procs, tbl.files, tbl`log, this`past, this`ops
      ensures Outside() && ring.running == old(ring.running)
      ensures var err := if ret == -EFAULT || ret == -ENOENT then ret else 0;
        && LookupAnswer(old(Image(m.mem, m.cr3)), path, files, err, inode)
        && (err == 0 ==> OpenAnswer(old(tbl.procs[ring.running]).fds, old(tbl.files[..]), ret, f))
      ensures if ret < 0 then DidNothing() else Did(Op.Open(ret, f, inode))
      ensures ret >= 0 ==> Law.OpenLaw(old(tbl.S()).t, tbl.S().t, ring.running, ret, f, inode)
    {
      hide Machine.Valid, Ring.Valid, I.Disk.Holds, FilesFit, Inv, Image, WorldInv, L.SysInv, Sound, Linked, NoLoose,
           L.Possible, L.Next, LookupAnswer, I.Stands, Effect, History, OpenAnswer, Law.OpenLaw;
      assert Key(0);
      f, inode := 0, 0;
      var err, node := Lookup(path);
      inode := node;
      LookupFound(Image(m.mem, m.cr3), path, files, err, node);
      if err != 0 {
        return err, 0, inode;
      }
      ret, f := OpenNode(node);
    }

    method Close(fd: int) returns (ret: int)
      requires Outside()
      modifies tbl.procs, tbl.files, this`past, this`ops
      ensures Outside() && ring.running == old(ring.running)
      ensures ret == (if 0 <= fd < T.MAX_FDS && old(tbl.procs[ring.running]).fds[fd] != T.NONE then 0 else -EBADF)
      ensures if ret == 0 then Did(Op.Close(fd)) else DidNothing()
      ensures ret == 0 ==> Law.CloseLaw(old(tbl.S()).t, tbl.S().t, ring.running, fd)
    {
      hide Machine.Valid, Ring.Valid, I.Disk.Holds, FilesFit, Inv, Image, WorldInv, L.SysInv, Sound, Linked, NoLoose,
           L.Possible, L.Next, Effect, History, Law.CloseLaw;
      assert Key(0);
      ghost var w := W();
      var p := ring.running;
      WorldParts(w, tbl.disk);
      RunsNow(w, tbl.disk);
      P.SysInvFacts(w.sys, tbl.disk, p);
      if fd < 0 || fd >= T.MAX_FDS || tbl.procs[p].fds[fd] == T.NONE {
        return -EBADF;
      }
      tbl.Close(p, fd);
      CloseEffect(w, W(), fd, tbl.disk);
      Note(w, Op.Close(fd));
      ret := 0;
    }

    /** These are the next bytes of the file behind descriptor fd; the offset has moved past them, and the log has
        them. */
    twostate predicate ReadOn(fd: int, len: int, bytes: seq<Byte>)
      requires ring.running < |old(tbl.S()).t.procs| && 0 <= fd < |old(tbl.S()).t.procs[ring.running].fds|
      reads ring, tbl, tbl.procs, tbl.files, tbl.pc
    {
      var f := old(tbl.S()).t.procs[ring.running].fds[fd];
      && Law.ReadsFrom(old(tbl.S()).t, f, len, tbl.disk, bytes)
      && Law.ReadLaw(old(tbl.S()).t, tbl.S().t, f, |bytes|)
      && tbl.log == old(tbl.log) + [L.NRead(f, bytes)]
    }

    /** sys_read after its checks: the bytes go to the buffer, and the offset moves past them. */
    method ReadOpen(fd: int, buf: int, len: int) returns (ret: int, ghost bytes: seq<Byte>)
      requires Outside() && 0 <= buf < WORD && 0 <= len < WORD && InReach(Image(m.mem, m.cr3), buf, len)
      requires 0 <= fd < |tbl.procs[ring.running].fds| == T.MAX_FDS && tbl.procs[ring.running].fds[fd] != T.NONE
      modifies m`mem, tbl.files, tbl`log, this`past, this`ops
      ensures Outside() && ring.running == old(ring.running) && ret == |bytes| && Did(Op.Read(fd, buf, len, bytes))
      ensures ReadAt(old(tbl.S()), ring.running, fd, len, tbl.disk, bytes)
      ensures Image(m.mem, m.cr3) == Image(old(m.mem), m.cr3) + BytesAt(buf, bytes)
      ensures ReadOn(fd, len, bytes)
    {
      hide Machine.Valid, Ring.Valid, I.Disk.Holds, FilesFit, Inv, Image, WorldInv, L.SysInv, Sound, Linked, NoLoose,
           Elsewhere, L.Possible, L.Next, InReach, OnlySpace, X.SameTables, BytesAt, Chunk, I.InBounds, I.Stands,
           Effect, History, Law.ReadLaw, Law.ReadsFrom;
      assert Key(0);
      ghost var w := W();
      var p := ring.running;
      WorldParts(w, tbl.disk);
      RunsNow(w, tbl.disk);
      var got := Fetch(fd, buf, len);
      bytes := got;
      ReachPart(Image(m.mem, m.cr3), buf, len, |got|);
      X.CopyBytes(m, buf, got);
      tbl.Advance(p, fd, len, |got|);
      ChunkIs(w.sys, p, fd, len, tbl.disk, bytes);
      ReadEffect(w, W(), fd, buf, len, bytes, tbl.disk);
      Note(w, Op.Read(fd, buf, len, bytes));
      ret := |got|;
    }

    /** vfs_read: the bytes of the file behind descriptor fd, from its offset on. */
    method Fetch(fd: int, buf: int, len: int) returns (bytes: seq<Byte>)
      requires Outside() && 0 <= buf < WORD && 0 <= len < WORD && InReach(Image(m.mem, m.cr3), buf, len)
      requires 0 <= fd < |tbl.procs[ring.running].fds| == T.MAX_FDS && tbl.procs[ring.running].fds[fd] != T.NONE
      ensures ReadAt(tbl.S(), ring.running, fd, len, tbl.disk, bytes) && |bytes| <= len
      ensures L.Shaped(tbl.S()) && L.Acts(tbl.S(), ring.running)
      ensures L.Possible(tbl.S(), L.Read(ring.running, fd, len), tbl.disk)
    {
      hide Machine.Valid, Ring.Valid, P.ProcessTable.Valid, I.Disk.Holds, FilesFit, Inv, Image, WorldInv, L.SysInv,
           Sound, L.Possible, InReach, Chunk, I.InBounds, I.Stands, Effect, History, NoLoose;
      assert Key(0);
      TableSize();
      WorldParts(W(), tbl.disk);
      ReadReady(W(), tbl.disk, files, fd, buf, len);
      NodeNames(fs, files);
      var e := tbl.files[tbl.procs[ring.running].fds[fd]];
      bytes := fs.Read(e.node, e.offset, len, files);
    }

    /** sys_read. The buffer is checked first, so the sum of offset and length cannot wrap around in initrd_read. */
    method Read(fd: int, buf: int, len: int) returns (ret: int, ghost bytes: seq<Byte>)
      requires Outside() && 0 <= buf < WORD && 0 <= len < WORD
      modifies m`mem, tbl.files, tbl`log, this`past, this`ops
      ensures Outside() && ring.running == old(ring.running) && |old(tbl.procs[ring.running]).fds| == T.MAX_FDS
      ensures ret == -EBADF <==> !(0 <= fd < T.MAX_FDS && old(tbl.procs[ring.running]).fds[fd] != T.NONE)
      ensures ret == -EFAULT <==> ret != -EBADF && !InReach(Image(old(m.mem), m.cr3), buf, len)
      ensures ret < 0 ==> DidNothing() && (ret == -EBADF || ret == -EFAULT)
      ensures ret >= 0 ==>
        && Did(Op.Read(fd, buf, len, bytes)) && ret == |bytes|
        && ReadAt(old(tbl.S()), ring.running, fd, len, tbl.disk, bytes)
        && Image(m.mem, m.cr3) == Image(old(m.mem), m.cr3) + BytesAt(buf, bytes)
        && ReadOn(fd, len, bytes)
    {
      hide Machine.Valid, Ring.Valid, I.Disk.Holds, FilesFit, Inv, Image, WorldInv, L.SysInv, Sound, Linked, NoLoose,
           L.Possible, L.Next, InReach, BytesAt, ReadAt, Effect, History, Law.ReadLaw,
           Law.ReadsFrom;
      assert Key(0);
      WorldParts(W(), tbl.disk);
      P.SysInvFacts(tbl.S(), tbl.disk, ring.running);
      bytes := [];
      if fd < 0 || fd >= T.MAX_FDS || tbl.procs[ring.running].fds[fd] == T.NONE {
        return -EBADF, [];
      }
      var ok := UserRangeOk(m, buf, len);
      if !ok {
        return -EFAULT, [];
      }
      ret, bytes := ReadOpen(fd, buf, len);
    }

    /** What an open followed by a read delivers: the head of the first file whose name lies at `path`. */
    method OpenThenRead(path: int, buf: int, len: int)
      returns (fd: int, ret: int, ghost inode: int, ghost bytes: seq<Byte>)
      requires Outside() && 0 <= path < WORD && 0 <= buf < WORD && 0 <= len < WORD
      modifies m`mem, tbl.procs, tbl.files, tbl`log, this`past, this`ops
      ensures Outside() && ring.running == old(ring.running)
      ensures fd >= 0 ==> LookupAnswer(old(Image(m.mem, m.cr3)), path, files, 0, inode) && 0 <= inode < |files|
      ensures fd >= 0 && ret >= 0 ==>
        && ret == |bytes| && AreNext(I.Content(files[inode]), 0, len, bytes)
        && Image(m.mem, m.cr3) == old(Image(m.mem, m.cr3)) + BytesAt(buf, bytes)
    {
      hide Valid, Effect, Image, LookupAnswer, OpenAnswer, BytesAt, ReadAt, InReach, Law.ReadLaw;
      ghost var f;
      ret, bytes := 0, [];
      fd, f, inode := Open(path);
      if fd < 0 {
        return;
      }
      LookupFound(old(Image(m.mem, m.cr3)), path, files, 0, inode);
      DiskIs(inode);
      ret, bytes := Read(fd, buf, len);
    }

    lemma DiskIs(inode: int)
      requires Safe() && 0 <= inode < |files|
      ensures |tbl.disk| == |files| && tbl.disk[inode] == I.Content(files[inode])
    {
      hide Machine.Valid, Ring.Valid, P.ProcessTable.Valid, I.Disk.Holds, FilesFit, Inv, WorldInv, L.SysInv, History;
      assert Key(0);
    }

    // ---- fork, execve, exit ---------------------------------------------------------------------------------------

    /** What process_fork relies on: frames for the scratch table if there is none yet, and for the child's page
        tables. */
    ghost predicate ForkSupply()
      reads m, m.pmm
    {
      && (Pde(m.mem, m.cr3, TMP_DIR).present || (m.dirs == {m.kdir} && |m.pmm.free| >= 2))
      && (ForkFits() ==> ForkFrames() - |FS.UserPages(m.mem, m.cr3)| >= |FS.UserTables(m.mem, m.cr3)|)
    }

    ghost function ForkFrames(): int
      reads m, m.pmm
    {
      F.FramesLeft(|m.pmm.free|, Pde(m.mem, m.cr3, TMP_DIR).present)
    }

    /** The parent's pages fit in the copy list and in the frames there are. */
    ghost predicate ForkFits()
      reads m, m.pmm
    {
      |FS.UserPages(m.mem, m.cr3)| <= FS.MAX_COPY_PAGES && |FS.UserPages(m.mem, m.cr3)| <= ForkFrames()
    }

    /** process_fork: the pid of the child, or why there is none. */
    method Fork() returns (ret: int, ghost i: nat, ghost C: int)
      requires Outside() && ForkSupply()
      modifies Repr()
      ensures Outside() && ring.running == old(ring.running) && m.cr3 == old(m.cr3)
      ensures ret == -EAGAIN || ret == -ENOMEM || ret == old(tbl.nextPid) > 0
      ensures ret == -EAGAIN <==> P.FreeSlotFrom(old(tbl.procs[..]), 1) == T.NONE || !old(heap.Room(P.KSTACK_SIZE))
      ensures i < tbl.procs.Length
      ensures ret == -EAGAIN ==> DidNothing() || Did(Op.ForkRefused(i, tbl.procs[i]))
      ensures ret == -ENOMEM ==> !old(ForkFits()) && Did(Op.ForkFailed(i, tbl.procs[i])) && Undone(old(m.S()), m.S())
      // A fork that fails leaves nothing but a cleared slot, and, if it got as far as the address space, a pid spent.
      ensures ret < 0 ==>
        && OnlySlot(old(tbl.procs[..]), tbl.procs[..], i) && tbl.files[..] == old(tbl.files[..])
        && tbl.log == old(tbl.log)
        && tbl.nextPid == old(tbl.nextPid) + (if ret == -ENOMEM then 1 else 0)
        && (ret == -EAGAIN ==> m.S() == old(m.S()))
      ensures ret > 0 ==>
        && old(ForkFits())
        && Did(Op.Fork(i, C))
        && FS.Forked(old(m.S()), m.S(), m.cr3, C)
        && Image(m.mem, C) == Image(old(m.mem), m.cr3)
        && Law.ForkLaw(old(tbl.S()).t, tbl.S().t, ring.running, i, C * PAGE)
    {
      hide Machine.Valid, Ring.Valid, I.Disk.Holds, FilesFit, Inv, Image, WorldInv, L.SysInv, Sound, Linked, NoLoose,
           L.Possible, L.Next, FS.UserPages, FS.UserTables, FS.Unchanged, FS.Forked, Pde, Undone, P.Begun, Effect,
           History, OnlySlot, Law.ForkLaw;
      assert Key(0);
      ghost var w := W();
      var p := ring.running;
      WorldParts(w, tbl.disk);
      RunsNow(w, tbl.disk);
      ghost var slot;
      var child;
      child, slot := tbl.BeginFork(p, heap);
      i, C := 0, 0;
      if child == T.NONE {
        if slot != T.NONE {
          i := slot;
          RefusedEffect(w, W(), i, tbl.disk);
          Note(w, Op.ForkRefused(i, tbl.procs[i]));
        } else {
          StillOutside();
        }
        SlotsSame(w.sys.t.procs, i);
        return -EAGAIN, i, C;
      }
      i := child;
      ret, C := ForkMemory(child, w);
    }

    /** A fork that runs out of memory: it fails, undoes itself, and has spent a pid. */
    method ForkSpendsPid() returns (ret: int)
      requires Outside() && ForkSupply() && !ForkFits()
      requires P.FreeSlotFrom(tbl.procs[..], 1) != T.NONE && heap.Room(P.KSTACK_SIZE)
      modifies Repr()
      ensures Outside() && ret == -ENOMEM && tbl.nextPid == old(tbl.nextPid) + 1
      ensures ring.running == old(ring.running) && tbl.procs[ring.running] == old(tbl.procs[ring.running])
      ensures Undone(old(m.S()), m.S())
    {
      hide Valid, ForkFits, ForkSupply, Undone, FS.Forked, Effect;
      HeapSound();
      RunnerRuns();
      ghost var i, C;
      ret, i, C := Fork();
    }

    /** A fork that succeeds: a slot, a kernel stack, at most 1024 pages, and three frames for each of them and three
        more. */
    method ForkSucceeds() returns (ret: int, ghost i: nat, ghost C: int)
      requires Outside() && |FS.UserPages(m.mem, m.cr3)| <= 1024
      requires |m.pmm.free| >= 3 * |FS.UserPages(m.mem, m.cr3)| + 3
      requires (exists k :: 1 <= k < T.MAX_PROCS && tbl.procs[k].status == T.Free) && heap.Room(P.KSTACK_SIZE)
      requires Pde(m.mem, m.cr3, TMP_DIR).present || m.dirs == {m.kdir}
      modifies Repr()
      ensures Outside() && ret == old(tbl.nextPid) > 0 && ring.running == old(ring.running) && m.cr3 == old(m.cr3)
      ensures Image(m.mem, C) == Image(old(m.mem), m.cr3)
      ensures Law.ForkLaw(old(tbl.S()).t, tbl.S().t, ring.running, i, C * PAGE)
    {
      hide Valid, FS.UserPages, FS.UserTables, FS.Forked, Undone, Effect, Law.ForkLaw, Image, Pde;
      FS.TablesFewer(m.mem, m.cr3);
      HeapSound();
      ret, i, C := Fork();
    }

    /** fork once the child has its slot and pid. */
    method ForkMemory(child: nat, ghost w: World) returns (ret: int, ghost C: int)
      requires WorldInv(w, tbl.disk) && Midway(w, child) && w.queue.running in w.queue.ring && w.space == m.S()
      requires ForkSupply()
      requires w.queue.running < |w.sys.pc| && w.sys.pc[w.queue.running] == L.Idle
      requires w.sys.t.procs[child].status == T.Free
      modifies Repr()
      ensures Outside() && ring.running == w.queue.running && m.cr3 == w.cr3
      ensures ret == -ENOMEM || ret == w.sys.t.nextPid > 0
      ensures ret > 0 <==> old(ForkFits())
      ensures past == old(past) + [W()]
      ensures ret == -ENOMEM ==>
        && Effect(w, W(), Op.ForkFailed(child, tbl.procs[child]), tbl.disk) && Undone(w.space, m.S())
        && ops == old(ops) + [Op.ForkFailed(child, tbl.procs[child])]
        && OnlySlot(w.sys.t.procs, tbl.procs[..], child) && tbl.files[..] == w.sys.t.files && tbl.log == w.sys.log
        && tbl.nextPid == w.sys.t.nextPid + 1
      ensures ret > 0 ==>
        && Effect(w, W(), Op.Fork(child, C), tbl.disk) && ops == old(ops) + [Op.Fork(child, C)]
        && FS.Forked(w.space, m.S(), m.cr3, C)
        && Image(m.mem, C) == Image(w.space.mem, w.cr3)
        && Law.ForkLaw(w.sys.t, tbl.S().t, w.queue.running, child, C * PAGE)
    {
      hide Machine.Valid, Ring.Valid, I.Disk.Holds, FilesFit, Inv, Image, WorldInv, L.SysInv, Sound, Linked, NoLoose,
           L.Possible, L.Next, FS.UserPages, FS.UserTables, FS.Unchanged, FS.Forked, Pde, Undone, P.Begun, Effect,
           History, OnlySlot, Law.ForkLaw;
      assert Key(0);
      WorldParts(w, tbl.disk);
      ForkReady(w, tbl.disk, child, 0);
      C := 0;
      ghost var table;
      var dir;
      dir, table := F.ForkSpace(m);
      if dir == 0 {
        tbl.CancelFork(ring.running, child, dir, w.sys);
        ForkFailedEffect(w, W(), table, child, tbl.disk);
        AbandonedIs(w, W(), child, tbl.disk);
        Note(w, Op.ForkFailed(child, tbl.procs[child]));
        return -ENOMEM, C;
      }
      C := dir / PAGE;
      ForkReady(w, tbl.disk, child, dir);
      FrameAddress(C);
      assert dir == C * PAGE;
      StartChild(child, dir, C, w);
      ret := tbl.procs[child].pid;
    }

    /** Everything but the process table is as in w, memory apart, and slot i of the table is a child being born. */
    ghost predicate Midway(w: World, i: nat)
      reads Repr(), fs, fs.nodes, fs.data
    {
      && m.Valid() && ring.Valid() && 0 < heap.next && |execBuf| == EXEC_BUF_SIZE && Separate()
      && fs.Holds(files) && FilesFit(files) && tbl.disk == Contents(files)
      && fs.nodes !in Repr() && fs.data !in Repr() && fs !in Repr() && History(past, ops, w, tbl.disk)
      && tbl.procs.Length == T.MAX_PROCS && tbl.files.Length == T.MAX_OPEN_FILES && tbl.pc.Length == T.MAX_PROCS
      && w.cr3 == m.cr3 && w.queue == ring.Q() && w.saved == saved && w.status == status
      && L.Shaped(w.sys) && ring.running < T.MAX_PROCS && 1 <= i < T.MAX_PROCS
      && tbl.procs[..] == w.sys.t.procs[i := P.Begun(w.sys.t, ring.running)] && tbl.nextPid == w.sys.t.nextPid + 1
      && tbl.files[..] == w.sys.t.files && tbl.pc[..] == w.sys.pc && tbl.log == w.sys.log
    }

    /** The child gets its directory, the parent's descriptors, and a place in the ring. */
    method StartChild(i: nat, dir: int, ghost C: int, ghost w: World)
      requires dir == C * PAGE
      requires WorldInv(w, tbl.disk) && Midway(w, i) && w.queue.running in w.queue.ring
      requires w.queue.running < |w.sys.pc| && w.sys.pc[w.queue.running] == L.Idle
      requires L.Possible(w.sys, L.Fork(w.queue.running, i, C * PAGE), tbl.disk) && Possible(w.queue, Added(i))
      requires FS.Forked(w.space, m.S(), m.cr3, C) && C != 0
      modifies tbl.procs, tbl.files, tbl.pc, tbl`log, this`saved, this`past, this`ops, ring`ring, ring.next
      ensures Outside() && ring.running == w.queue.running && m.S() == old(m.S()) && m.cr3 == w.cr3
      ensures Effect(w, W(), Op.Fork(i, C), tbl.disk) && past == old(past) + [W()] && ops == old(ops) + [Op.Fork(i, C)]
      ensures Image(m.mem, C) == Image(w.space.mem, w.cr3)
      ensures i < tbl.procs.Length && tbl.procs[i].pid == w.sys.t.nextPid
      ensures Law.ForkLaw(w.sys.t, tbl.S().t, w.queue.running, i, C * PAGE)
    {
      hide Machine.Valid, Ring.Valid, P.ProcessTable.Valid, I.Disk.Holds, FilesFit, Inv, Image, WorldInv, L.SysInv,
           Sound, Linked, NoLoose, L.Possible, L.Next, FS.Forked, P.Begun, Effect, History, Law.ForkLaw;
      var p := ring.running;
      WorldParts(w, tbl.disk);
      AddedRunning(w.queue, i);
      tbl.FinishFork(p, i, dir, w.sys);
      saved := saved[i := dir];
      ring.TaskAdd(i);
      ForkEffect(w, W(), i, C, tbl.disk);
      Note(w, Op.Fork(i, C));
    }

    /** What process_execve relies on for file k, if it fits in the buffer. */
    ghost predicate ExecReady(k: int, prog: nat)
      requires 0 <= k < |files|
      reads this, m, m.pmm
    {
      var data := I.Content(files[k]);
      |data| <= EXEC_BUF_SIZE == |execBuf| ==> E.ExecSupply(m, Buffered(execBuf, data), |data|, prog)
    }

    /** The image at the head of the buffer has replaced the caller's space, and runs from its entry point. */
    twostate predicate Replaced(data: seq<Byte>, prog: nat, entry: int)
      reads this, m, m.pmm, ring, tbl, tbl.procs, tbl.files, tbl.pc
    {
      && E.Executed(old(m.S()), m.S(), old(m.cr3), m.cr3, data, prog)
      && |data| >= EHDR_SIZE && Loadable(map[], data, prog) && HeadersFit(data) && entry == Entry(data) && entry != 0
      && Did(Op.Exec(m.cr3, Pages.RoundUp(Highest(data, PhNum(data))), Program(map[], data, prog)))
      && Law.SpaceLaw(old(tbl.S()).t, tbl.S().t, ring.running, m.cr3 * PAGE, Pages.RoundUp(Highest(data, PhNum(data))))
    }

    /** What execve answers for file `inode`, and what it does: -E2BIG, -ENOMEM and -ENOEXEC, each exactly in its case,
        with translations, frames, break and descriptors as before; or 0, and the program in place. */
    twostate predicate ExecAnswer(inode: int, prog: nat, ret: int, entry: int)
      requires 0 <= inode < |files| && |old(execBuf)| == EXEC_BUF_SIZE
      reads this, m, m.pmm, ring, tbl, tbl.procs, tbl.files, tbl.pc
    {
      var content := I.Content(files[inode]);
      if |content| > EXEC_BUF_SIZE then ret == -E2BIG && ExecUndone()
      else
        var data := Buffered(old(execBuf), content);
        if old(m.pmm.free) == {} then ret == -ENOMEM && ExecUndone()
        else if !old(E.Runs(m, data, |content|)) then ret == -ENOEXEC && ExecUndone()
        else ret == 0 && Replaced(data, prog, entry)
    }

    /** An execve that failed has changed nothing the process or anyone else can see. */
    twostate predicate ExecUndone()
      reads this, m, m.pmm, ring, tbl, tbl.procs, tbl.files, tbl.pc
    {
      Did(Op.ExecFailed) && Undone(old(m.S()), m.S()) && m.cr3 == old(m.cr3) && tbl.S() == old(tbl.S())
    }

    /** sys_execve: the path is checked and looked up, then the program replaces the caller's. */
    method Execve(path: int, ghost prog: nat) returns (ret: int, entry: int, ghost inode: int)
      requires Outside() && 0 <= path < WORD
      requires forall k :: 0 <= k < |files| && StringAt(Image(m.mem, m.cr3), path, files[k].name) ==> ExecReady(k, prog)
      modifies this`execBuf, this`saved, this`past, this`ops, m`mem, m`own, m`dirs, m`cr3, m.pmm, m.pmm.bitmap,
        tbl.procs
      ensures Outside() && ring.running == old(ring.running)
      ensures var err := if ret == -EFAULT || ret == -ENOENT then ret else 0;
        && LookupAnswer(old(Image(m.mem, m.cr3)), path, files, err, inode)
        && (if err == 0 then 0 <= inode < |files| && ExecAnswer(inode, prog, ret, entry) else DidNothing())
    {
      hide Machine.Valid, Ring.Valid, I.Disk.Holds, FilesFit, Inv, Image, WorldInv, L.SysInv, Sound, Linked, NoLoose,
           I.Stands, L.Possible, L.Next, FS.Unchanged, Undone, E.ExecSupply, E.Runs, HeadersFit, Entry, Highest, PhNum,
           LookupAnswer, Effect, History, Program, Loadable, Elsewhere, E.ExecImage, E.Executed;
      assert Key(0);
      var err, node := Lookup(path);
      inode := node;
      LookupFound(Image(m.mem, m.cr3), path, files, err, node);
      if err != 0 {
        return err, 0, inode;
      }
      ret, entry := Exec(node, prog);
    }

    /** process_execve once the file is found: 0 and the entry point, or why the caller goes on as it was. */
    method Exec(inode: int, ghost prog: nat) returns (ret: int, entry: int)
      requires Outside() && 0 <= inode < |files|
      requires ExecReady(inode, prog)
      modifies this`execBuf, this`saved, this`past, this`ops, m`mem, m`own, m`dirs, m`cr3, m.pmm, m.pmm.bitmap,
        tbl.procs
      ensures Outside() && ring.running == old(ring.running)
      ensures ret != -EFAULT && ret != -ENOENT && ExecAnswer(inode, prog, ret, entry)
    {
      hide Machine.Valid, Ring.Valid, P.ProcessTable.Valid, I.Disk.Holds, FilesFit, Inv, Image, WorldInv, History,
           Undone, E.ExecSupply, E.Runs, Effect, E.Executed, Program, Loadable, HeadersFit, Entry, Highest, PhNum;
      ghost var w := W();
      entry := 0;
      var length := FileLength(inode);
      if length > EXEC_BUF_SIZE {
        TooBig();
        return -E2BIG, 0;
      }
      FillBuffer(inode);
      ret, entry := ExecBuffer(length, prog, w);
    }

    /** `prog->length` */
    method FileLength(inode: int) returns (length: int)
      requires Outside() && 0 <= inode < |files|
      ensures length == |I.Content(files[inode])|
    {
      hide Machine.Valid, Ring.Valid, P.ProcessTable.Valid, FilesFit, Inv, Image, WorldInv, I.Stands, Effect, History;
      assert Key(0);
      NodeNames(fs, files);
      length := fs.nodes[inode].length;
    }

    /** An execve that does nothing at all still goes down in the history. */
    ghost method TooBig()
      requires Outside()
      modifies this`past, this`ops
      ensures Outside() && Did(Op.ExecFailed) && W() == old(W()) && Undone(m.S(), m.S())
    {
      hide Machine.Valid, Ring.Valid, P.ProcessTable.Valid, I.Disk.Holds, FilesFit, Inv, Image, WorldInv, L.SysInv,
           Sound, NoLoose, Effect, History, Undone, FS.Unchanged;
      assert Key(0);
      WorldParts(W(), tbl.disk);
      UndoneNothing(m.S());
      ExecFailedEffect(W(), W(), 0, tbl.disk);
      Note(W(), Op.ExecFailed);
    }

    /** `vfs_read(prog, 0, prog->length, exec_buf)` */
    method FillBuffer(inode: int)
      requires Outside() && 0 <= inode < |files| && |I.Content(files[inode])| <= EXEC_BUF_SIZE
      modifies this`execBuf
      ensures Outside() && DidNothing()
      ensures execBuf == Buffered(old(execBuf), I.Content(files[inode]))
    {
      hide Valid, I.Disk.Holds;
      HeapSound();
      var bytes := ReadAll(inode);
      execBuf := bytes + execBuf[|bytes|..];
      StillOutside();
    }

    /** execve once the file is in the buffer. */
    method ExecBuffer(size: int, ghost prog: nat, ghost w: World) returns (ret: int, entry: int)
      requires Outside() && w == W() && 0 <= size <= EXEC_BUF_SIZE == |execBuf|
      requires E.ExecSupply(m, execBuf, size, prog)
      modifies this`saved, this`past, this`ops, m`mem, m`own, m`dirs, m`cr3, m.pmm, m.pmm.bitmap, tbl.procs
      ensures Outside() && ring.running == old(ring.running)
      ensures ret == if old(m.pmm.free) == {} then -ENOMEM else if old(E.Runs(m, execBuf, size)) then 0 else -ENOEXEC
      ensures ret == 0 ==> Replaced(execBuf, prog, entry)
      ensures ret != 0 ==> Did(Op.ExecFailed) && Undone(w.space, m.S()) && m.cr3 == w.cr3 && tbl.S() == w.sys
    {
      hide Machine.Valid, Ring.Valid, I.Disk.Holds, FilesFit, Inv, Image, WorldInv, L.SysInv, Sound, Linked, NoLoose,
           L.Possible, L.Next, FS.Unchanged, Undone, E.ExecSupply, E.Runs, HeadersFit, Entry, Highest, PhNum,
           Pages.RoundUp, Effect, History, Program, Loadable, Elsewhere, E.ExecImage, E.Executed, Law.SpaceLaw;
      assert Key(0);
      var p := ring.running;
      WorldParts(w, tbl.disk);
      RunsNow(w, tbl.disk);
      var err, dir, brk; ghost var table;
      err, dir, entry, brk, table := E.ExecSpace(m, execBuf, size, prog);
      if err != 0 {
        ExecFailedEffect(w, W(), table, tbl.disk);
        Note(w, Op.ExecFailed);
        return err, 0;
      }
      ghost var C := dir / PAGE;
      assert dir == C * PAGE by { FrameAddress(C); }
      RemapPossible(w, tbl.disk, p, dir, Pages.RoundUp(brk));
      tbl.SetSpace(p, dir, Pages.RoundUp(brk));
      saved := saved[p := dir];
      ExecEffect(w, W(), C, Pages.RoundUp(brk), execBuf, prog, tbl.disk);
      ghost var op := Op.Exec(C, Pages.RoundUp(brk), Program(map[], execBuf, prog));
      Note(w, op);
      ret := 0;
    }

    /** process_exit and the yield it ends with. Process 0 cannot exit: the machine halts. */
    method Exit(code: int) returns (halted: bool)
      requires Outside()
      modifies this`saved, this`past, this`ops, m`mem, m`own, m`dirs, m`cr3, m.pmm, m.pmm.bitmap, tbl.procs, tbl.files,
               tbl`log, ring, ring.next
      ensures Ready() && (halted <==> old(ring.running) == 0)
      ensures if halted then DidNothing() else DidBoth(Op.Exit(code), Op.Yield)
      ensures !halted ==>
        && Dir.DirectoryFreed(old(m.S()), m.S(), old(m.cr3))
        && Exited(old(W().queue), W().queue)
        && Law.ExitLaw(old(tbl.S()).t, tbl.S().t, old(ring.running), code, m.kdir * PAGE)
    {
      hide Valid, Dir.DirectoryFreed, Sound, After, AfterYield, Effect, Law.ExitLaw;
      ghost var w := W();
      if ring.running == 0 {
        return true;
      }
      Leave(code, w);
      Yield();
      LeftRing(w.queue);
      halted := false;
    }

    /** The process goes on in the boot directory, and its own is torn down. */
    method DropSpace(p: int, dir: int)
      requires m.Valid() && m.cr3 == dir / PAGE != m.kdir && dir % PAGE == 0 && m.kdir in m.dirs && 0 <= p < |saved|
      modifies this`saved, m`mem, m`own, m`dirs, m`cr3, m.pmm, m.pmm.bitmap
      ensures m.Valid() && m.cr3 == m.kdir && saved == old(saved)[p := m.kdir * PAGE]
      ensures Dir.DirectoryFreed(old(m.S()), m.S(), dir / PAGE) && Elsewhere(old(m.S()), m.S(), {dir / PAGE})
    {
      hide Inv, Image, Elsewhere, Dir.DirectoryFreed;
      ghost var s := m.S();
      FrameAddress(m.kdir);
      m.SwitchDirectory(m.kdir * PAGE);
      saved := saved[p := m.kdir * PAGE];
      m.FreeDirectory(dir);
      FreedElsewhere(s, m.S(), dir / PAGE);
    }

    /** process_exit up to the yield. */
    method Leave(code: int, ghost w: World)
      requires Outside() && w == W() && ring.running != 0
      modifies this`saved, this`past, this`ops, m`mem, m`own, m`dirs, m`cr3, m.pmm, m.pmm.bitmap, tbl.procs, tbl.files,
               tbl`log, ring, ring.next
      ensures Safe() && Did(Op.Exit(code))
      ensures Dir.DirectoryFreed(w.space, m.S(), w.cr3) && Sound(w.queue) && W().queue == After(w.queue, Left)
      ensures Law.ExitLaw(w.sys.t, tbl.S().t, w.queue.running, code, m.kdir * PAGE)
    {
      hide Machine.Valid, Ring.Valid, I.Disk.Holds, FilesFit, Inv, Image, WorldInv, L.SysInv, Sound, Linked, NoLoose,
           Elsewhere, L.Possible, L.Next, Dir.DirectoryFreed, AfterRemove, Effect, History, Law.ExitLaw;
      assert Key(0);
      var p := ring.running;
      WorldParts(w, tbl.disk);
      RunsNow(w, tbl.disk);
      InvBounds(w.space);
      FrameAddress(m.kdir);
      FrameAddress(m.cr3);
      ExitPossible(w, code, tbl.disk);
      var dir := tbl.procs[p].dir;
      tbl.Exit(p, code, m.kdir * PAGE);
      DropSpace(p, dir);
      ring.TaskRemove(p);
      ExitEffect(w, W(), code, tbl.disk);
      Note(w, Op.Exit(code));
    }

    lemma HeapSound()
      requires Safe()
      ensures 0 < heap.next && tbl.Valid()
    {
      hide Machine.Valid, Ring.Valid, P.ProcessTable.Valid, I.Disk.Holds, FilesFit, Inv, WorldInv, L.SysInv, History;
      assert Key(0);
    }

    lemma RunnerRuns()
      requires Ready()
      ensures IsRun(tbl.procs[..], ring.running)
    {
      hide Machine.Valid, Ring.Valid, P.ProcessTable.Valid, I.Disk.Holds, FilesFit, Inv, WorldInv, L.SysInv, History;
      assert Key(0);
      RunsNow(W(), tbl.disk);
    }

    // ---- what holds of a kernel after any sequence of calls -------------------------------------------------------

    /** Every call goes down in the history, so what holds of all runs holds of the kernel at any moment. */
    lemma FrameOwned(f: int)
      requires Safe() && 0 <= f < |m.mem|
      ensures OneUse(m.S(), f)
      ensures f in m.pmm.free ==> forall D :: !Uses(m.S(), D, f)
      ensures f !in m.pmm.free ==>
        || (f in m.own && KernelHeld(m.own[f]) && forall D :: !Uses(m.S(), D, f))
        || (exists D :: Uses(m.S(), D, f) && InService(W(), D) && forall E :: Uses(m.S(), E, f) ==> E == D)
    {
      hide WorldInv, Effect, Inv, Uses, OneUse, L.Boot, Machine.Valid, Ring.Valid, I.Disk.Holds, InService;
      assert Key(0);
      KernelFrames(past, ops, tbl.disk, |ops|);
      Ownership(past, ops, tbl.disk, |ops|, f);
    }

    /** A process that has not acted since state j of the history still has every byte it had then, its break, its
        descriptors and its place in the kernel. */
    lemma BystanderIntact(j: nat, v: int)
      requires Safe() && j < |past| == |ops| + 1 && IsRun(past[j].sys.t.procs, v) && Passive(past, ops, v, j, |ops|)
      ensures Intact(past[j], W(), v)
    {
      hide WorldInv, Effect, L.Boot, Machine.Valid, Ring.Valid, I.Disk.Holds, FilesFit, Intact, Passive;
      assert Key(0);
      Isolation(past, ops, tbl.disk, v, j, |ops|);
    }

    /** What all the sharers of pool entry f have read since it was opened is the head of its file. */
    lemma ReadInOrder(f: int)
      requires Safe() && 0 <= f < T.MAX_OPEN_FILES && L.Shaped(tbl.S())
      ensures L.Partitioned(tbl.S(), f, tbl.disk)
    {
      hide WorldInv, Effect, L.Boot, L.Partitioned, Machine.Valid, Ring.Valid, I.Disk.Holds, FilesFit, L.IsRun, L.End;
      assert Key(0);
      RunActs(past, ops, tbl.disk);
      L.ReadsPartition(past[0].sys, Acts(past, ops), tbl.disk, f);
    }

    /** A reap noted in the log is the only one of its pid, comes after that process's exit, and has the code that the
        process gave to exit. */
    lemma ExitReported(k: int) returns (j: int, e: int)
      requires Safe() && 0 <= k < |tbl.log|
      ensures L.Reported(tbl.log, k, j)
      ensures tbl.log[k].NReaped? ==>
        0 <= e < |ops| < |past| && ops[e] == Op.Exit(tbl.log[k].code) && D.Caller(past[e]) == tbl.log[k].pid
    {
      hide WorldInv, Effect, L.Boot, L.Reported, Machine.Valid, Ring.Valid, I.Disk.Holds, L.IsRun, L.End;
      assert Key(0);
      RunActs(past, ops, tbl.disk);
      j := L.ExitReports(past[0].sys, Acts(past, ops), tbl.disk, k);
      e := 0;
      if tbl.log[k].NReaped? {
        D.NothingLogged(past[0].sys);
        ReportedExit(tbl.log, k, j);
        e := D.ExitCalled(past, ops, tbl.disk, |ops|, tbl.log[k].pid, tbl.log[k].code);
      }
    }
  }

  lemma ReportedExit(log: seq<L.Note>, k: int, j: int)
    requires 0 <= k < |log| && log[k].NReaped? && L.Reported(log, k, j)
    ensures L.NExited(log[k].pid, log[k].code) in log
  {
    assert log[j] == L.NExited(log[k].pid, log[k].code);
  }

  // ---- the effect of each call ------------------------------------------------------------------------------------

  /** A call whose effect is known keeps the invariant and extends the history. */
  lemma Recorded(past: seq<World>, ops: seq<Op>, w: World, n: World, op: Op, disk: T.Disk)
    requires WorldInv(w, disk) && History(past, ops, w, disk) && Effect(w, n, op, disk)
    ensures WorldInv(n, disk) && History(past + [n], ops + [op], n, disk)
    ensures !op.Yield? && !op.Exit? ==>
      && n.queue.running == w.queue.running && n.queue.running in n.queue.ring
      && n.queue.running < T.MAX_PROCS == |n.sys.pc|
      && (!op.Wait? && !op.Look? ==> n.sys.pc[n.queue.running] == L.Idle)
    ensures op.Yield? ==> n.queue.running in n.queue.ring && n.queue.running < T.MAX_PROCS == |n.sys.pc|
  {
    hide WorldInv, History, Effect, Unnoticed;
    EffectKeeps(w, n, op, disk);
    HistoryGrows(past, ops, w, n, op, disk);
    if op.Yield? {
      Yielded(w, n, disk);
    } else if !op.Exit? {
      StillRunning(w, n, op, disk);
    }
  }

  lemma Yielded(w: World, n: World, disk: T.Disk)
    requires WorldInv(w, disk) && WorldInv(n, disk) && Effect(w, n, Op.Yield, disk)
    ensures n.queue.running in n.queue.ring && n.queue.running < T.MAX_PROCS == |n.sys.pc|
  {
    hide WorldInv, AfterYield;
    WorldParts(w, disk);
    WorldParts(n, disk);
    AfterSound(w.queue, Switch);
    RunningBound(n.queue);
  }

  /** What the running process's own step shows of the rest of the machine. */
  ghost predicate Alone(w: World, n: World)
  {
    && NoLoose(w.space) && Elsewhere(w.space, n.space, {w.cr3}) && n.space.dirs == w.space.dirs
    && n.cr3 == w.cr3 && n.saved == w.saved && n.queue == w.queue
    && w.queue.running in w.queue.ring
  }

  lemma AloneOwn(w: World, n: World)
    requires Alone(w, n)
    ensures Own(w, n)
  {
    hide Inv, Image, Reach;
    LooseKept(w.space, n.space, {w.cr3});
  }

  lemma YieldEffect(w: World, n: World, disk: T.Disk)
    requires Sound(w.queue) && n.space == w.space && n.sys == w.sys && n.status == w.status
    requires n.queue == AfterYield(w.queue)
    requires n.queue.running == w.queue.running ==> n.saved == w.saved && n.cr3 == w.cr3
    requires n.queue.running != w.queue.running ==>
      && w.queue.running < |w.saved| && n.queue.running < |w.saved|
      && n.saved == w.saved[w.queue.running := w.cr3 * PAGE] && n.cr3 == w.saved[n.queue.running] / PAGE
    ensures Effect(w, n, Op.Yield, disk)
  {
    hide Sound, AfterYield;
  }

  lemma StoreEffect(w: World, n: World, va: int, b: Byte, disk: T.Disk)
    requires Alone(w, n) && n.sys == w.sys && n.status == w.status && InUser(w)
    requires va in Image(w.space.mem, w.cr3) && Image(n.space.mem, w.cr3) == Image(w.space.mem, w.cr3)[va := b]
    ensures Effect(w, n, Op.Store(va, b), disk)
  {
    hide Image, Elsewhere, Own;
    AloneOwn(w, n);
  }

  lemma LoadEffect(w: World, n: World, data: seq<Byte>, prog: nat, brk: int, disk: T.Disk)
    requires WorldInv(w, disk) && w.queue.running in w.queue.ring && w.queue.running < |w.sys.t.procs|
    requires n.cr3 == w.cr3 && n.saved == w.saved && n.queue == w.queue && n.status == w.status
    requires w.sys.t.procs[w.queue.running].dir == w.cr3 * PAGE
    requires L.Shaped(w.sys) && L.Possible(w.sys, L.Remap(w.queue.running, w.cr3 * PAGE, brk), disk)
    requires n.sys == L.Next(w.sys, L.Remap(w.queue.running, w.cr3 * PAGE, brk), disk)
    requires E.FirstLoaded(w.space, n.space, w.cr3, data, prog)
    ensures |data| >= EHDR_SIZE && Loadable(map[], data, prog)
    ensures Effect(w, n, Op.Load(brk, Program(map[], data, prog)), disk) && OnlyBreak(w.sys, n.sys, w.queue.running)
    ensures n.sys.t.procs[w.queue.running].brk == brk
  {
    hide WorldInv, Image, Elsewhere, Own, L.Possible, L.Next, E.ExecImage, Program, Loadable, OnlySpace;
    WorldParts(w, disk);
    OnlyElsewhere(w.space, n.space, w.cr3);
    RemapIs(w.sys, w.queue.running, brk, disk);
    AloneOwn(w, n);
  }

  lemma SbrkEffect(w: World, n: World, inc: int, ret: int, brk: int, disk: T.Disk)
    requires WorldInv(w, disk) && w.queue.running in w.queue.ring && w.queue.running < |w.sys.t.procs|
    requires n.cr3 == w.cr3 && n.saved == w.saved && n.queue == w.queue && n.status == w.status
    requires w.sys.t.procs[w.queue.running].dir == w.cr3 * PAGE
    requires L.Shaped(w.sys) && L.Possible(w.sys, L.Remap(w.queue.running, w.cr3 * PAGE, brk), disk)
    requires n.sys == L.Next(w.sys, L.Remap(w.queue.running, w.cr3 * PAGE, brk), disk)
    requires B.Answers(w.space, n.space, w.cr3, w.sys.t.procs[w.queue.running].brk, inc, ret, brk)
    ensures Effect(w, n, Op.Sbrk(brk), disk) && OnlyBreak(w.sys, n.sys, w.queue.running)
    ensures n.sys.t.procs[w.queue.running].brk == brk
  {
    hide WorldInv, Image, Elsewhere, Own, L.Possible, L.Next, HeapMoves, B.SbrkDone, B.Answers;
    WorldParts(w, disk);
    B.AnswersDone(w.space, n.space, w.cr3, w.sys.t.procs[w.queue.running].brk, inc, ret, brk);
    SbrkElsewhere(w.space, n.space, w.cr3, w.sys.t.procs[w.queue.running].brk, inc, brk);
    SbrkBytes(w.space, n.space, w.cr3, w.sys.t.procs[w.queue.running].brk, inc, brk);
    RemapIs(w.sys, w.queue.running, brk, disk);
    AloneOwn(w, n);
  }

  /** What sbrk did to the bytes the process sees. */
  lemma SbrkBytes(s: Space, n: Space, D: int, was: int, inc: int, brk: int)
    requires B.SbrkDone(s, n, D, was, inc, brk)
    ensures HeapMoves(Image(s.mem, D), Image(n.mem, D), was, brk)
  {
    hide Inv, Image, OnlySpace, Pte, WalkEntry, Pages.RoundDown, Pages.RoundUp;
    if n == s && brk == was {
      ImageRange(s.mem, D);
      assert B.BytesGrown(Image(s.mem, D), Image(n.mem, D), Pages.RoundDown(was), Pages.RoundDown(was));
    }
  }

  lemma WaitEffect(w: World, n: World, ptr: int, disk: T.Disk)
    requires Same(w, n) && w.queue.running in w.queue.ring && w.queue.running < |w.status|
    requires L.Shaped(w.sys) && L.Possible(w.sys, L.Wait(w.queue.running), disk)
    requires n.sys == L.Next(w.sys, L.Wait(w.queue.running), disk)
    requires n.status == w.status[w.queue.running := ptr] && (ptr == 0 || InReach(Image(w.space.mem, w.cr3), ptr, 4))
    ensures Effect(w, n, Op.Wait(ptr), disk)
  {
    hide Image, L.Possible, L.Next, Own;
    if ptr != 0 {
      PointerReach(Image(w.space.mem, w.cr3), ptr);
    }
  }

  lemma PointerReach(img: Img, ptr: int)
    requires InReach(img, ptr, 4)
    ensures HasWord(img, ptr)
  {
    assert ptr in img && ptr + 1 in img && ptr + 2 in img && ptr + 3 in img;
  }

  lemma LookEffect(w: World, n: World, disk: T.Disk)
    requires Same(w, n) && w.queue.running in w.queue.ring && n.status == w.status
    requires L.Shaped(w.sys) && L.Possible(w.sys, L.Look(w.queue.running), disk)
    requires n.sys == L.Next(w.sys, L.Look(w.queue.running), disk)
    ensures Effect(w, n, Op.Look, disk)
  {
    hide Image, L.Possible, L.Next, Own;
  }

  /** Process w.queue.running took a zombie: its pid is the answer, and its exit code is where the status pointer
      points. */
  ghost predicate Took(w: World, n: World, pid: int)
  {
    var p := w.queue.running;
    && p < |w.sys.pc| && p < |w.status| && w.sys.pc[p].Taking?
    && var j := w.sys.pc[p].j;
      && 0 <= j < |w.sys.t.procs| && w.sys.t.procs[j].status == T.Zombie && pid == w.sys.t.procs[j].pid
      && if w.status[p] == 0 then n.space == w.space
         else
           && HasWord(Image(w.space.mem, w.cr3), w.status[p])
           && Image(n.space.mem, w.cr3) ==
                PutWord(Image(w.space.mem, w.cr3), w.status[p], w.sys.t.procs[j].exitCode % WORD)
  }

  lemma TakeEffect(w: World, n: World, disk: T.Disk)
    requires Alone(w, n) && n.status == w.status && w.queue.running < |w.status|
    requires L.Shaped(w.sys) && L.Possible(w.sys, L.Take(w.queue.running), disk) && w.queue.running < |w.sys.pc|
    requires n.sys == L.Next(w.sys, L.Take(w.queue.running), disk)
    requires w.sys.pc[w.queue.running].Taking? && T.Slot(w.sys.pc[w.queue.running].j)
    requires Image(n.space.mem, w.cr3) ==
      (if w.status[w.queue.running] == 0 then Image(w.space.mem, w.cr3)
       else PutWord(Image(w.space.mem, w.cr3), w.status[w.queue.running],
                    w.sys.t.procs[w.sys.pc[w.queue.running].j].exitCode % WORD))
    ensures Effect(w, n, Op.Take, disk)
  {
    hide Image, Elsewhere, Own, L.Possible, L.Next, PutWord;
    AloneOwn(w, n);
  }

  lemma OpenEffect(w: World, n: World, fd: int, f: int, node: int, disk: T.Disk)
    requires Same(w, n) && w.queue.running in w.queue.ring && n.status == w.status
    requires L.Shaped(w.sys) && L.Possible(w.sys, L.Open(w.queue.running, fd, f, node), disk)
    requires n.sys == L.Next(w.sys, L.Open(w.queue.running, fd, f, node), disk)
    ensures Effect(w, n, Op.Open(fd, f, node), disk)
  {
    hide Image, L.Possible, L.Next, Own;
  }

  lemma CloseEffect(w: World, n: World, fd: int, disk: T.Disk)
    requires Same(w, n) && w.queue.running in w.queue.ring && n.status == w.status
    requires L.Shaped(w.sys) && L.Possible(w.sys, L.Close(w.queue.running, fd), disk)
    requires n.sys == L.Next(w.sys, L.Close(w.queue.running, fd), disk)
    ensures Effect(w, n, Op.Close(fd), disk)
  {
    hide Image, L.Possible, L.Next, Own;
  }

  lemma ReadEffect(w: World, n: World, fd: int, buf: int, len: int, bytes: seq<Byte>, disk: T.Disk)
    requires WorldInv(w, disk) && w.queue.running in w.queue.ring && OnlySpace(w.space, n.space, w.cr3)
    requires n.cr3 == w.cr3 && n.saved == w.saved && n.queue == w.queue && n.status == w.status
    requires L.Shaped(w.sys) && L.Possible(w.sys, L.Read(w.queue.running, fd, len), disk)
    requires n.sys == L.Next(w.sys, L.Read(w.queue.running, fd, len), disk)
    requires ReadAt(w.sys, w.queue.running, fd, len, disk, bytes)
    requires Image(n.space.mem, w.cr3) == Image(w.space.mem, w.cr3) + BytesAt(buf, bytes)
    ensures Effect(w, n, Op.Read(fd, buf, len, bytes), disk)
  {
    hide WorldInv, Image, Elsewhere, Own, L.Possible, L.Next, BytesAt, ReadAt, OnlySpace;
    WorldParts(w, disk);
    OnlyElsewhere(w.space, n.space, w.cr3);
    AloneOwn(w, n);
  }

  lemma RefusedEffect(w: World, n: World, i: nat, disk: T.Disk)
    requires Same(w, n) && w.queue.running in w.queue.ring && n.status == w.status && i < |n.sys.t.procs|
    requires L.Shaped(w.sys) && L.Possible(w.sys, L.Refuse(w.queue.running, i, n.sys.t.procs[i]), disk)
    requires n.sys == L.Next(w.sys, L.Refuse(w.queue.running, i, n.sys.t.procs[i]), disk)
    ensures Effect(w, n, Op.ForkRefused(i, n.sys.t.procs[i]), disk)
    ensures OnlySlot(w.sys.t.procs, n.sys.t.procs, i) && n.sys.t.files == w.sys.t.files && n.sys.log == w.sys.log
    ensures n.sys.t.nextPid == w.sys.t.nextPid
  {
    hide Image, Own;
  }

  /** Memory is as it was, but for the scratch table and frame 0. */
  lemma RestoredFrom(w: World, n: World, table: int)
    requires Inv(w.space) && NoLoose(w.space) && w.cr3 in w.space.dirs
    requires FS.Unchanged(w.space, n.space, table) && (table == 0 || table !in w.space.own)
    requires n.cr3 == w.cr3 && n.queue == w.queue && n.saved == w.saved
    ensures Restored(w, n) && Undone(w.space, n.space)
  {
    hide Inv, Image, Reach;
    UnchangedElsewhere(w.space, n.space, table);
    ElsewhereWider(w.space, n.space, {}, {w.cr3});
    LooseKept(w.space, n.space, {w.cr3});
    SeesTheSame(w.space, n.space, {}, w.cr3);
  }

  lemma ForkFailedEffect(w: World, n: World, table: int, i: nat, disk: T.Disk)
    requires WorldInv(w, disk) && w.queue.running in w.queue.ring
    requires FS.Unchanged(w.space, n.space, table) && (table == 0 || table !in w.space.own)
    requires n.cr3 == w.cr3 && n.queue == w.queue && n.saved == w.saved && n.status == w.status
    requires i < |n.sys.t.procs| && L.Shaped(w.sys)
    requires L.Possible(w.sys, L.Abandon(w.queue.running, i, n.sys.t.procs[i]), disk)
    requires n.sys == L.Next(w.sys, L.Abandon(w.queue.running, i, n.sys.t.procs[i]), disk)
    ensures Effect(w, n, Op.ForkFailed(i, n.sys.t.procs[i]), disk) && Undone(w.space, n.space)
  {
    hide WorldInv, Image, FS.Unchanged, Restored, L.Possible, L.Next, Undone;
    WorldParts(w, disk);
    RestoredFrom(w, n, table);
  }

  /** Nothing in the table but slot i is different, and that slot was free and is free. */
  predicate OnlySlot(a: seq<T.Proc>, b: seq<T.Proc>, i: nat)
  {
    i < |a| == |b| && b == a[i := b[i]] && (b[i] == a[i] || (i != 0 && a[i].status == T.Free && b[i].status == T.Free))
  }

  lemma SlotsSame(a: seq<T.Proc>, i: nat)
    ensures i < |a| ==> OnlySlot(a, a, i)
  {
  }

  lemma AbandonedIs(w: World, n: World, i: nat, disk: T.Disk)
    requires L.Shaped(w.sys) && i < |n.sys.t.procs|
    requires L.Possible(w.sys, L.Abandon(w.queue.running, i, n.sys.t.procs[i]), disk)
    requires n.sys == L.Next(w.sys, L.Abandon(w.queue.running, i, n.sys.t.procs[i]), disk)
    ensures OnlySlot(w.sys.t.procs, n.sys.t.procs, i) && n.sys.t.files == w.sys.t.files && n.sys.log == w.sys.log
    ensures n.sys.t.nextPid == w.sys.t.nextPid + 1
  {
  }

  lemma ForkEffect(w: World, n: World, i: nat, C: int, disk: T.Disk)
    requires WorldInv(w, disk) && w.queue.running in w.queue.ring && Sound(w.queue)
    requires FS.Forked(w.space, n.space, w.cr3, C) && C != 0 && n.cr3 == w.cr3 && n.status == w.status
    requires i < |w.saved| && n.saved == w.saved[i := C * PAGE] && n.queue == AfterAdd(w.queue, i)
    requires L.Shaped(w.sys) && L.Possible(w.sys, L.Fork(w.queue.running, i, C * PAGE), disk)
    requires n.sys == L.Next(w.sys, L.Fork(w.queue.running, i, C * PAGE), disk)
    ensures Effect(w, n, Op.Fork(i, C), disk) && Image(n.space.mem, C) == Image(w.space.mem, w.cr3)
    ensures i < |n.sys.t.procs| && n.sys.t.procs[i].pid == w.sys.t.nextPid
  {
    hide WorldInv, Image, Reach, Inv, L.Possible, L.Next, Sound, AfterAdd, FS.Forked;
    WorldParts(w, disk);
    RunsNow(w, disk);
    ForkedPc(w.sys, w.queue.running, i, C * PAGE, disk);
    ForkedElsewhere(w.space, n.space, w.cr3, C);
    ForkedShape(w.space, n.space, w.cr3, C);
    ReachWider(w.space, n.space, {C}, {});
    LooseKept(w.space, n.space, {C});
  }

  lemma ExecFailedEffect(w: World, n: World, table: int, disk: T.Disk)
    requires WorldInv(w, disk) && w.queue.running in w.queue.ring && InUser(w)
    requires FS.Unchanged(w.space, n.space, table) && (table == 0 || table !in w.space.own)
    requires n.sys == w.sys && n.cr3 == w.cr3 && n.queue == w.queue && n.saved == w.saved && n.status == w.status
    ensures Effect(w, n, Op.ExecFailed, disk) && Undone(w.space, n.space)
  {
    hide WorldInv, Image, FS.Unchanged, Restored, Undone;
    WorldParts(w, disk);
    RestoredFrom(w, n, table);
  }

  lemma ExecEffect(w: World, n: World, C: int, brk: int, data: seq<Byte>, prog: nat, disk: T.Disk)
    requires WorldInv(w, disk) && w.queue.running in w.queue.ring && w.queue.running < |w.saved|
    requires E.Executed(w.space, n.space, w.cr3, C, data, prog) && C != 0 && n.cr3 == C
    requires n.queue == w.queue && n.saved == w.saved[w.queue.running := C * PAGE] && n.status == w.status
    requires L.Shaped(w.sys) && L.Possible(w.sys, L.Remap(w.queue.running, C * PAGE, brk), disk)
    requires n.sys == L.Next(w.sys, L.Remap(w.queue.running, C * PAGE, brk), disk)
    ensures |data| >= EHDR_SIZE && Loadable(map[], data, prog)
    ensures Effect(w, n, Op.Exec(C, brk, Program(map[], data, prog)), disk)
  {
    hide WorldInv, Image, Reach, Inv, L.Possible, L.Next, Loadable, Program, E.ExecImage;
    WorldParts(w, disk);
    ExecutedShape(w.space, n.space, w.cr3, C, data, prog);
    var changed := if w.cr3 == w.space.kdir then {C} else {w.cr3, C};
    var mine := if w.cr3 == w.space.kdir then {} else {w.cr3};
    ReachWider(w.space, n.space, changed, mine);
    LooseKept(w.space, n.space, changed);
  }

  lemma ExitEffect(w: World, n: World, code: int, disk: T.Disk)
    requires WorldInv(w, disk) && w.queue.running in w.queue.ring && w.queue.running != 0 && w.queue.running < |w.saved|
    requires Elsewhere(w.space, n.space, {w.cr3}) && Dir.DirectoryFreed(w.space, n.space, w.cr3)
    requires n.cr3 == w.space.kdir && n.saved == w.saved[w.queue.running := w.space.kdir * PAGE] && n.status == w.status
    requires Sound(w.queue) && n.queue == After(w.queue, Left)
    requires L.Shaped(w.sys) && L.Possible(w.sys, L.Exit(w.queue.running, code, w.space.kdir * PAGE), disk)
    requires n.sys == L.Next(w.sys, L.Exit(w.queue.running, code, w.space.kdir * PAGE), disk)
    ensures Effect(w, n, Op.Exit(code), disk)
  {
    hide WorldInv, Image, Reach, Inv, L.Possible, L.Next, Sound, After, Dir.Without;
    WorldParts(w, disk);
    LooseKept(w.space, n.space, {w.cr3});
  }

  // ---- facts the calls use ----------------------------------------------------------------------------------------

  /** No file is larger than 1 GiB. */
  ghost predicate FilesFit(files: seq<I.Entry>)
  {
    forall k :: 0 <= k < |files| ==> |I.Content(files[k])| <= 0x4000_0000
  }

  /** -EFAULT exactly if no string lies at `path`, -ENOENT exactly if no file has that name, and otherwise the first
      file that has it. */
  ghost predicate LookupAnswer(img: Img, path: int, files: seq<I.Entry>, err: int, inode: int)
  {
    if forall s: seq<Byte> :: |s| < MAX_PATH ==> !StringAt(img, path, s) then err == -EFAULT
    else exists s: seq<Byte> ::
      && |s| < MAX_PATH && StringAt(img, path, s)
      && if forall k :: 0 <= k < |files| ==> files[k].name != s then err == -ENOENT
         else
           && err == 0 && 0 <= inode < |files| && files[inode].name == s
           && forall k :: 0 <= k < inode ==> files[k].name != s
  }

  lemma LookupFound(img: Img, path: int, files: seq<I.Entry>, err: int, inode: int)
    requires LookupAnswer(img, path, files, err, inode)
    ensures err == 0 || err == -EFAULT || err == -ENOENT
    ensures err == 0 ==> 0 <= inode < |files| && StringAt(img, path, files[inode].name)
  {
    hide StringAt;
  }

  lemma OnlyName(img: Img, path: int, name: seq<Byte>)
    requires Terminated(img, path, name)
    ensures forall t: seq<Byte> :: StringAt(img, path, t) <==> t == name
  {
    forall t: seq<Byte>
      ensures StringAt(img, path, t) <==> t == name
    {
      StringStored(img, path, name, t);
    }
  }

  /** With this name at `path`, the answer is the first file of that name, or -ENOENT if there is none. */
  lemma LookupMeans(img: Img, path: int, files: seq<I.Entry>, err: int, inode: int, name: seq<Byte>)
    requires LookupAnswer(img, path, files, err, inode) && |name| < 256 && Terminated(img, path, name)
    ensures (forall k :: 0 <= k < |files| ==> files[k].name != name) ==> err == -2
    ensures (exists k :: 0 <= k < |files| && files[k].name == name) ==>
      && err == 0 && 0 <= inode < |files| && files[inode].name == name
      && forall j :: 0 <= j < inode ==> files[j].name != name
  {
    hide StringAt, Terminated;
    OnlyName(img, path, name);
  }

  /** The lowest free descriptor from 3 on, with the lowest free pool entry, or the first of the two that ran out. */
  predicate OpenAnswer(fds: seq<int>, files: seq<T.OpenFile>, ret: int, f: int)
  {
    var fd, entry := P.FreeFdFrom(fds, 3), P.FreeEntryFrom(files, 0);
    if fd == T.NONE then ret == -EMFILE
    else if entry == T.NONE then ret == -ENFILE
    else ret == fd && f == entry
  }

  /** open succeeds exactly when a descriptor from 3 on and a pool entry are free, and takes the lowest of each. */
  lemma OpenMeans(fds: seq<int>, files: seq<T.OpenFile>, ret: int, f: int)
    requires OpenAnswer(fds, files, ret, f)
    ensures ret == -24 <==> forall k :: 3 <= k < |fds| ==> fds[k] != T.NONE
    ensures ret == -23 <==> ret != -24 && forall g :: 0 <= g < |files| ==> files[g].refcount != 0
    ensures ret != -24 && ret != -23 ==>
      && 3 <= ret < |fds| && fds[ret] == T.NONE && (forall k :: 3 <= k < ret ==> fds[k] != T.NONE)
      && 0 <= f < |files| && files[f].refcount == 0 && forall g :: 0 <= g < f ==> files[g].refcount != 0
  {
  }

  function WithBreak(q: T.Proc, brk: int): T.Proc
  {
    T.Proc(q.status, q.pid, q.ppid, q.exitCode, q.dir, brk, q.fds)
  }

  /** A buffer in reach lies between 4 MiB and 3 GiB. */
  lemma ReadSmall(s: Space, D: int, buf: int, len: int)
    requires Inv(s) && D in s.dirs && InReach(Image(s.mem, D), buf, len) && 0 <= len && 0 <= buf
    ensures len <= USER_LIMIT - 0x40_0000
  {
    hide Inv, Image;
    if len > 0 {
      ReachEnds(s, D);
      ReachStarts(s, D, buf);
      assert buf + len - 1 in Image(s.mem, D);
    }
  }

  lemma ReachStarts(s: Space, D: int, va: int)
    requires Inv(s) && D in s.dirs
    ensures va in Image(s.mem, D) ==> va >= 0x40_0000
  {
    hide Inv, Image;
    ImageRange(s.mem, D);
    if va in Image(s.mem, D) {
      ImageAt(s, D, va);
    }
  }

  /** The ram disk shares no storage with the rest. */
  ghost predicate Apart(fs: I.Disk, m: Machine, heap: P.KernelHeap)
  {
    var a: set<object> := {fs, fs.nodes, fs.data};
    var b: set<object> := {m, m.pmm, m.pmm.bitmap, heap};
    a !! b
  }

  ghost function Contents(files: seq<I.Entry>): T.Disk
  {
    seq(|files|, k requires 0 <= k < |files| => I.Content(files[k]))
  }

  lemma BootWorld(w: World, disk: T.Disk)
    requires Inv(w.space) && w.space.dirs == {w.space.kdir} && w.cr3 == w.space.kdir && NoLoose(w.space)
    requires w.space.kdir != 0
    requires L.Boot(w.sys) && w.queue == Queue(0, [0]) && L.SysInv(w.sys, disk)
    requires w.sys.t.procs[0].dir == w.space.kdir * PAGE
    requires w.saved == seq(T.MAX_PROCS, _ => w.space.kdir * PAGE) && |w.status| == T.MAX_PROCS
    ensures WorldInv(w, disk)
  {
    hide Inv, Image, NoLoose, L.SysInv;
    FrameAddress(w.space.kdir);
    assert forall i :: IsRun(w.sys.t.procs, i) <==> i == 0;
    assert L.Idle == w.sys.pc[0];
  }

  /** Where the next task will run is a live directory. */
  lemma SwitchReady(w: World, q: Queue, disk: T.Disk)
    requires WorldInv(w, disk) && q == AfterYield(w.queue) && Sound(w.queue)
    ensures q.running in q.ring && q.running < T.MAX_PROCS && w.queue.running < T.MAX_PROCS
    ensures w.saved[q.running] != 0 && w.saved[q.running] / PAGE in w.space.dirs
    ensures w.queue.running != q.running ==> w.saved[w.queue.running := w.cr3 * PAGE][q.running] == w.saved[q.running]
    ensures |w.saved| == T.MAX_PROCS == |w.sys.pc|
  {
    hide Inv, Image, L.SysInv, NoLoose, Statuses, Sound, AfterYield;
    SysParts(w.sys, disk);
    AfterSound(w.queue, Switch);
    assert q.running in w.queue.ring;
    PlacedFacts(w.sys.t.procs, w.space, w.saved, q.running);
    FrameAddress(DirOfProc(w.sys.t.procs, q.running));
    RunningBound(w.queue);
  }

  lemma RunningBound(q: Queue)
    requires Sound(q)
    ensures q.running < T.MAX_PROCS
  {
  }

  /** A process outside wait may always have its break and directory rewritten. */
  lemma RemapPossible(w: World, disk: T.Disk, p: int, dir: int, brk: int)
    requires WorldInv(w, disk) && w.queue.running in w.queue.ring && p == w.queue.running
    requires L.Shaped(w.sys) && 0 <= p < |w.sys.pc| && w.sys.pc[p] == L.Idle
    ensures L.Acts(w.sys, p) && L.Possible(w.sys, L.Remap(p, dir, brk), disk)
  {
    hide Inv, Image, L.SysInv, NoLoose, Statuses, Sound;
    RunsNow(w, disk);
  }

  /** Only the break of process p is different. */
  predicate OnlyBreak(a: L.Sys, b: L.Sys, p: nat)
  {
    && p < |a.t.procs| == |b.t.procs|
    && var procs := a.t.procs[p := WithBreak(a.t.procs[p], b.t.procs[p].brk)];
      b == L.Sys(T.Table(procs, a.t.nextPid, a.t.files), a.pc, a.log)
  }

  lemma RemapIs(s: L.Sys, p: nat, brk: int, disk: T.Disk)
    requires L.Shaped(s) && p < |s.t.procs| && L.Possible(s, L.Remap(p, s.t.procs[p].dir, brk), disk)
    ensures OnlyBreak(s, L.Next(s, L.Remap(p, s.t.procs[p].dir, brk), disk), p)
    ensures L.Next(s, L.Remap(p, s.t.procs[p].dir, brk), disk).t.procs[p].brk == brk
  {
  }

  lemma WaitPossible(w: World, disk: T.Disk)
    requires WorldInv(w, disk) && w.queue.running in w.queue.ring && w.queue.running < |w.sys.pc|
    requires w.sys.pc[w.queue.running] == L.Idle
    ensures L.Shaped(w.sys) && L.Acts(w.sys, w.queue.running) && L.Possible(w.sys, L.Wait(w.queue.running), disk)
  {
    hide Inv, Image, L.SysInv, NoLoose, Statuses, Sound;
    SysParts(w.sys, disk);
    RunsNow(w, disk);
  }

  lemma TakeReady(w: World, disk: T.Disk)
    requires WorldInv(w, disk) && w.queue.running in w.queue.ring && w.queue.running < |w.sys.pc| && L.Shaped(w.sys)
    requires w.sys.pc[w.queue.running].Taking?
    ensures w.queue.running < |w.status| && T.Slot(w.sys.pc[w.queue.running].j)
    ensures w.status[w.queue.running] == 0 || HasWord(Image(w.space.mem, w.cr3), w.status[w.queue.running])
    ensures L.Acts(w.sys, w.queue.running) && L.Possible(w.sys, L.Take(w.queue.running), disk)
    ensures w.sys.t.procs[w.sys.pc[w.queue.running].j].status == T.Zombie
  {
    hide Inv, Image, L.SysInv, Sound, Placed, Tasks, NoLoose, HasWord;
    RunsNow(w, disk);
    P.TakeFacts(w.sys, w.queue.running, disk);
  }

  lemma NodeNames(fs: I.Disk, files: seq<I.Entry>)
    requires fs.Holds(files)
    ensures fs.count == |files| <= fs.nodes.Length == I.MAX_FILES
    ensures forall k :: 0 <= k < |files| ==>
      fs.nodes[k].name == files[k].name && fs.nodes[k].length == |I.Content(files[k])|
  {
    forall k | 0 <= k < |files|
      ensures fs.nodes[k].name == files[k].name && fs.nodes[k].length == |I.Content(files[k])|
    {
      assert I.Stands(fs.archive, fs.nodes[k], fs.data[k], files[k], k);
    }
  }

  lemma ReachPart(img: Img, buf: int, len: int, n: int)
    requires InReach(img, buf, len) && 0 <= n <= len
    ensures forall va {:trigger va in img} :: buf <= va < buf + n ==> va in img
  {
  }

  lemma ReadReady(w: World, disk: T.Disk, files: seq<I.Entry>, fd: int, buf: int, len: int)
    requires WorldInv(w, disk) && w.queue.running in w.queue.ring && w.queue.running < |w.sys.pc| && L.Shaped(w.sys)
    requires w.sys.pc[w.queue.running] == L.Idle && disk == Contents(files) && 0 <= fd < T.MAX_FDS && 0 <= len < WORD
    requires |w.sys.t.procs[w.queue.running].fds| == T.MAX_FDS && w.sys.t.procs[w.queue.running].fds[fd] != T.NONE
    requires FilesFit(files) && 0 <= buf && InReach(Image(w.space.mem, w.cr3), buf, len)
    ensures L.Acts(w.sys, w.queue.running) && L.Possible(w.sys, L.Read(w.queue.running, fd, len), disk)
    ensures len <= USER_LIMIT
    ensures var f := w.sys.t.procs[w.queue.running].fds[fd];
      && 0 <= f < T.MAX_OPEN_FILES
      && var e := w.sys.t.files[f];
        && 0 <= e.node < |files| && 0 <= e.offset < WORD && disk[e.node] == I.Content(files[e.node])
        && I.InBounds(|I.Content(files[e.node])|, e.offset, len)
        && |Chunk(I.Content(files[e.node]), e.offset, len)| <= len
  {
    hide Inv, Image, InReach, L.PcsOk, L.AllRecorded, L.FilesRecorded, T.Family, Sound, Placed, Tasks, NoLoose,
         Statuses;
    var p := w.queue.running;
    RunsNow(w, disk);
    ReadSmall(w.space, w.cr3, buf, len);
    var f := w.sys.t.procs[p].fds[fd];
    DescriptorOpen(w.sys.t, disk, p, fd);
    var e := w.sys.t.files[f];
    assert T.FileOk(e, disk);
    InitrdBounds(|I.Content(files[e.node])|, e.offset, len);
  }

  lemma DescriptorOpen(t: T.Table, disk: T.Disk, p: int, fd: int)
    requires T.Descriptors(t, disk) && T.Slot(p) && 0 <= fd < |t.procs[p].fds| && t.procs[p].fds[fd] != T.NONE
    ensures 0 <= t.procs[p].fds[fd] < T.MAX_OPEN_FILES && t.files[t.procs[p].fds[fd]].refcount > 0
  {
    assert T.FdsOk(t.procs[p]);
    var f := t.procs[p].fds[fd];
    P.PointedAt(t.procs, p, fd, f) by {
      assert T.Points(t.procs, p, fd, f);
    }
  }

  lemma InitrdBounds(length: int, offset: int, len: int)
    requires 0 <= offset <= length && 0 <= len && offset + len < WORD
    ensures I.InBounds(length, offset, len)
  {
    Small(offset + len);
  }

  lemma Small(x: int)
    requires 0 <= x < WORD
    ensures x % WORD == x
  {
  }

  /** An operation that failed has left the address spaces as they were, but for the one-time scratch table: the same
      owners, hence the same free frames, the same user pages with the same contents. */
  ghost predicate Undone(s: Space, n: Space)
  {
    exists table :: (table == 0 || table !in s.own) && FS.Unchanged(s, n, table)
  }

  lemma ForkReady(w: World, disk: T.Disk, i: int, dir: int)
    requires WorldInv(w, disk) && w.queue.running in w.queue.ring && L.Shaped(w.sys) && w.queue.running < |w.sys.pc|
    requires w.sys.pc[w.queue.running] == L.Idle && 1 <= i < T.MAX_PROCS && w.sys.t.procs[i].status == T.Free
    ensures L.Possible(w.sys, L.Fork(w.queue.running, i, dir), disk)
    ensures Possible(w.queue, Added(i)) && Sound(w.queue) && L.Acts(w.sys, w.queue.running) && 0 < w.sys.t.nextPid
  {
    hide Inv, Image, L.SysInv, NoLoose, Statuses, Placed;
    RunsNow(w, disk);
    P.SysInvFacts(w.sys, disk, 0);
    assert i as nat in w.queue.ring <==> IsRun(w.sys.t.procs, i);
  }

  lemma AddedRunning(q: Queue, i: int)
    requires Sound(q) && q.running in q.ring && 0 <= i
    ensures AfterAdd(q, i).running == q.running && q.running in AfterAdd(q, i).ring
  {
    assert AfterAdd(q, i).ring[0] == q.running;
  }

  lemma ForkedShape(s: Space, n: Space, D: int, C: int)
    requires Inv(s) && FS.Forked(s, n, D, C)
    ensures C !in s.dirs && n.dirs == s.dirs + {C} && n.kdir == s.kdir && Inv(n)
  {
  }

  lemma ForkedPc(s: L.Sys, p: int, i: int, dir: int, disk: T.Disk)
    requires L.Shaped(s) && L.Possible(s, L.Fork(p, i, dir), disk) && L.Acts(s, p)
    ensures var n := L.Next(s, L.Fork(p, i, dir), disk);
      |n.pc| == |s.pc| && |n.t.procs| == |s.t.procs| && 1 <= i < |s.pc| && n.t.procs[i].pid == s.t.nextPid
      && n.pc == s.pc[i := L.Idle]
  {
    hide T.Recount;
  }

  /** The buffer after the file was read into it. */
  function Buffered(buf: seq<Byte>, content: seq<Byte>): (r: seq<Byte>)
    requires |content| <= |buf|
    ensures |r| == |buf| && r[..|content|] == content && r[|content|..] == buf[|content|..]
  {
    content + buf[|content|..]
  }

  lemma WholeFile(content: seq<Byte>)
    requires |content| <= 0x4000_0000
    ensures I.InBounds(|content|, 0, |content|) && Chunk(content, 0, |content|) == content
  {
    Small(|content|);
  }

  lemma UndoneNothing(s: Space)
    requires Inv(s)
    ensures Undone(s, s) && FS.Unchanged(s, s, 0)
  {
    ReachSame(s, {});
    assert FS.Unchanged(s, s, 0);
  }

  lemma ExecutedShape(s: Space, n: Space, D: int, C: int, data: seq<Byte>, prog: nat)
    requires E.Executed(s, n, D, C, data, prog)
    ensures C !in s.dirs && n.dirs == (if D == s.kdir then s.dirs else s.dirs - {D}) + {C}
    ensures Elsewhere(s, n, if D == s.kdir then {C} else {D, C})
  {
    hide Image, Inv, Program, Loadable, Elsewhere;
  }

  lemma ExitPossible(w: World, code: int, disk: T.Disk)
    requires WorldInv(w, disk) && w.queue.running in w.queue.ring && w.queue.running < |w.sys.pc|
    requires w.queue.running != 0
    requires w.sys.pc[w.queue.running] == L.Idle && L.Shaped(w.sys)
    ensures L.Acts(w.sys, w.queue.running)
    ensures L.Possible(w.sys, L.Exit(w.queue.running, code, w.space.kdir * PAGE), disk)
    ensures 0 <= w.queue.running < |w.sys.t.procs|
    ensures L.Next(w.sys, L.Exit(w.queue.running, code, w.space.kdir * PAGE), disk).pc == w.sys.pc
  {
    hide Inv, Image, L.SysInv, NoLoose, Statuses, Sound, T.Recount;
    RunsNow(w, disk);
  }

  /** The running task has left the ring, and the next one runs. */
  ghost predicate Exited(q: Queue, n: Queue)
  {
    Sound(q) && Sound(After(q, Left)) && n == AfterYield(After(q, Left)) && q.running !in n.ring
  }

  lemma LeftRing(q: Queue)
    requires Sound(q) && q.running in q.ring && q.running != 0
    ensures Exited(q, AfterYield(After(q, Left)))
  {
    hide Sound, After, AfterYield;
    AfterSound(q, Left);
    AfterSound(After(q, Left), Switch);
    AfterIs(After(q, Left));
  }

  lemma AfterIs(q: Queue)
    requires Sound(q)
    ensures After(q, Switch) == AfterYield(q)
  {
  }

  /** Whatever sbrk did, it did to the current address space. */
  lemma SbrkElsewhere(s: Space, n: Space, D: int, was: int, inc: int, brk: int)
    requires Inv(s) && B.SbrkDone(s, n, D, was, inc, brk)
    ensures Elsewhere(s, n, {D}) && n.dirs == s.dirs && n.kdir == s.kdir && Inv(n)
  {
    hide Inv, Image, OnlySpace, Elsewhere, Pte;
    if n == s {
      ElsewhereSelf(s, {D});
    } else {
      assert OnlySpace(s, n, D);
      OnlyElsewhere(s, n, D);
      OnlySpaceInv(s, n, D);
    }
  }

  /** The bytes read are the next ones of the file. */
  lemma ChunkIs(s: L.Sys, p: int, fd: int, len: int, disk: T.Disk, bytes: seq<int>)
    requires L.Shaped(s) && L.Possible(s, L.Read(p, fd, len), disk) && ReadAt(s, p, fd, len, disk, bytes)
    ensures Law.ReadsFrom(s.t, s.t.procs[p].fds[fd], len, disk, bytes)
  {
  }

  lemma BootFacts(s: L.Sys)
    requires L.Boot(s)
    ensures |s.pc| == T.MAX_PROCS && s.pc[0] == L.Idle
  {
  }

}
