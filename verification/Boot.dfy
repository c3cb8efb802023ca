/** From the boot loader's memory map to a running kernel: the frame allocator, paging, the kernel heap, the ram disk
    and process 0 (kernel/kernel/kernel.c, kernel/arch/i386/kheap.c). */
module Boot {
  import opened Arith
  import opened Words
  import opened Paging
  import opened Address
  import opened Mapping
  import opened Machine
  import opened Pmm
  import opened Spaces
  import opened UserSpace
  import opened UserMap
  import K = Kernel
  import P = Processes
  import I = Initrd
  import E = Exec
  import F = ElfFormat
  import Pages
  import T = Table
  import L = Lifecycle
  import FS = ForkSteps
  import N = Errno

  const HEAP_BASE := 0xC000_0000
  const HEAP_SIZE := 0x10_0000
  const HEAP_PAGES: nat := 256
  const HEAP_DIR := 768

  /** A frame in hand becomes the kernel's for good. */
  ghost function Adopt(s: Space, f: int): Space
  {
    Space(s.mem, s.kdir, s.dirs, s.own[f := Kernel], s.free)
  }

  lemma AdoptKeepsInv(s: Space, f: int)
    requires Inv(s) && f in s.own && s.own[f] == Loose
    ensures Inv(Adopt(s, f))
  {
  }

  /** The first k pages of the kernel heap: present, out of reach of user mode, each backed by a frame of the kernel
      that backs no other. */
  ghost predicate HeapMapped(s: Space, k: int)
  {
    && (forall t {:trigger Pte(s.mem, s.kdir, HEAP_DIR, t)} :: 0 <= t < k ==>
          HeapEntry(Pte(s.mem, s.kdir, HEAP_DIR, t)) && Owns(s, Pte(s.mem, s.kdir, HEAP_DIR, t).frame, Kernel))
    && (forall t, u {:trigger Pte(s.mem, s.kdir, HEAP_DIR, t), Pte(s.mem, s.kdir, HEAP_DIR, u)} :: 0 <= t < u < k ==>
          Pte(s.mem, s.kdir, HEAP_DIR, t).frame != Pte(s.mem, s.kdir, HEAP_DIR, u).frame)
  }

  predicate HeapEntry(w: Word)
  {
    w.present && w.write && !w.user
  }

  /** Nothing was taken from anybody, and what is new is the kernel's. */
  ghost predicate OnlyKernel(s: Space, n: Space)
  {
    && |n.mem| == |s.mem| && n.kdir == s.kdir && n.dirs == s.dirs
    && (forall f {:trigger f in n.own} :: f in s.own ==> f in n.own && n.own[f] == s.own[f])
    && (forall f {:trigger n.own[f]} :: f in n.own && f !in s.own ==>
      n.own[f] == Kernel || n.own[f] == KernelTable(HEAP_DIR))
    && (forall d {:trigger Pde(n.mem, n.kdir, d)} :: UserDir(d) ==> Pde(n.mem, n.kdir, d) == Pde(s.mem, s.kdir, d))
  }

  lemma HeapStep(s0: Space, s: Space, n: Space, k: int, f: int, table: int)
    requires Inv(s) && OnlyKernel(s0, s) && HeapMapped(s, k) && 0 <= k < HEAP_PAGES && 0 < f < |s.mem| <= 0x10_0000
    requires f !in s.own
    requires MapsKernelPage(Take(s, f), n, HEAP_DIR, k, LeafEntry(f * PAGE, KERNEL_FLAGS), table)
    requires table == 0 || (table !in s.own && table != f)
    ensures Inv(Adopt(n, f)) && OnlyKernel(s0, Adopt(n, f)) && HeapMapped(Adopt(n, f), k + 1)
    ensures Pde(n.mem, n.kdir, HEAP_DIR).present && f in n.own && n.own[f] == Loose
  {
    hide Frames, TablesOwned, LeavesOwned, OwnersTrue, KernelHalf, KernelTables, Pte, Pde;
    FrameOf(f);
    InvBounds(s);
    AdoptKeepsInv(n, f);
  }

  lemma FrameOf(f: int)
    requires 0 <= f < 0x10_0000
    ensures LeafEntry(f * PAGE, KERNEL_FLAGS) == Word(f, 0, false, true, true)
  {
  }

  lemma HeapAddress(k: int)
    requires 0 <= k < HEAP_PAGES
    ensures var a := HEAP_BASE + k * 0x1000; 0 <= a < WORD && DirOf(a) == HEAP_DIR && TableOf(a) == k
  {
    PageAddress(HEAP_DIR, k, 0);
  }

  lemma HeapStarts(s: Space)
    ensures OnlyKernel(s, s) && HeapMapped(s, 0)
  {
  }

  /** kheap_initialize: every page of the heap gets a frame. */
  method KheapInitialize(m: Machine)
    requires m.Valid() && m.dirs == {m.kdir}
    requires |m.pmm.free| >= HEAP_PAGES + 1
    modifies m`mem, m`own, m.pmm, m.pmm.bitmap
    ensures m.Valid() && OnlyKernel(old(m.S()), m.S()) && HeapMapped(m.S(), HEAP_PAGES)
  {
    hide Inv, MapsKernelPage, HeapMapped, OnlyKernel, Pde, Pte, DirOf, TableOf;
    ghost var s0 := m.S();
    HeapStarts(s0);
    for k := 0 to HEAP_PAGES
      invariant m.Valid() && m.dirs == {m.kdir}
      invariant OnlyKernel(s0, m.S()) && HeapMapped(m.S(), k)
      invariant |m.pmm.free| >= HEAP_PAGES - k + (if k == 0 then 1 else 0)
      invariant k > 0 ==> Pde(m.mem, m.cr3, HEAP_DIR).present
    {
      HeapPage(m, k, s0);
    }
  }

  /** `paging_map(a, pmm_alloc_frame(), PAGE_WRITE)` for page k of the heap. */
  method HeapPage(m: Machine, k: int, ghost s0: Space)
    requires m.Valid() && m.dirs == {m.kdir} && 0 <= k < HEAP_PAGES
    requires OnlyKernel(s0, m.S()) && HeapMapped(m.S(), k)
    requires |m.pmm.free| >= (if Pde(m.mem, m.cr3, HEAP_DIR).present then 1 else 2)
    modifies m`mem, m`own, m.pmm, m.pmm.bitmap
    ensures m.Valid() && m.dirs == {m.kdir}
    ensures OnlyKernel(s0, m.S()) && HeapMapped(m.S(), k + 1) && Pde(m.mem, m.cr3, HEAP_DIR).present
    ensures |m.pmm.free| == |old(m.pmm.free)| - (if old(Pde(m.mem, m.cr3, HEAP_DIR)).present then 1 else 2)
  {
    hide Inv, Machine.Valid, MapsKernelPage, HeapMapped, OnlyKernel, Pde, Pte, DirOf, TableOf;
    HeapAddress(k);
    ghost var s := m.S();
    ValidParts(m);
    FreeUnowned(m);
    assert m.pmm.free != {};
    var frame := m.AllocFrame();
    assert |m.pmm.free| == |old(m.pmm.free)| - 1;
    assert Pde(m.mem, m.cr3, HEAP_DIR).present || |m.pmm.free| >= 1;
    ghost var table := m.PagingMap(HEAP_BASE + k * 0x1000, frame, KERNEL_FLAGS);
    InvBounds(s);
    AddressFrame(frame);
    HeapStep(s0, s, m.S(), k, frame / PAGE, table);
    KeepFrame(m, frame / PAGE);
  }

  /** The frame counts as the kernel's own from here on. */
  ghost method KeepFrame(m: Machine, f: int)
    requires m.Valid() && f in m.own && Inv(Adopt(m.S(), f))
    modifies m`own
    ensures m.Valid() && m.S() == Adopt(old(m.S()), f)
  {
    hide Inv;
    m.own := m.own[f := Kernel];
  }

  /** The frames pmm_initialize leaves free. */
  ghost function FreeAtBoot(regions: seq<Region>, kernelStart: nat, kernelEnd: nat, modules: seq<Range>,
                            descriptors: nat): set<nat>
  {
    var frames := Highest(regions) / PAGE;
    set f: nat | f < frames && Offered(regions, f) && Unused(f, frames, kernelStart, kernelEnd, modules, descriptors)
  }

  /** kernel_main's step 3: the frame allocator, paging, the kernel heap. */
  method StartMemory(ram: seq<Page>, regions: seq<Region>, kernelStart: nat, kernelEnd: nat, modules: seq<Range>,
                     descriptors: nat, directory: int, firstTable: int) returns (m: Machine)
    requires forall i :: 0 <= i < |regions| ==> regions[i].base + regions[i].len <= 0xFFFF_F000
    requires InMemory(Ranges(kernelStart, BitmapEnd(kernelEnd, Highest(regions)), modules, descriptors),
      Highest(regions))
    requires |FreeAtBoot(regions, kernelStart, kernelEnd, modules, descriptors)| >= HEAP_PAGES + 1
    // The boot directory and the first table are page-aligned objects of the kernel image.
    requires |ram| == Highest(regions) / PAGE && directory != firstTable
    requires 0 < directory < |ram| && 0 < firstTable < |ram| && kernelStart < kernelEnd
    requires kernelStart / PAGE <= directory <= (kernelEnd - 1) / PAGE
    requires kernelStart / PAGE <= firstTable <= (kernelEnd - 1) / PAGE
    ensures fresh(m) && m.Valid() && m.dirs == {m.kdir} && m.cr3 == m.kdir == directory
    ensures NoLoose(m.S()) && HeapMapped(m.S(), HEAP_PAGES) && Image(m.mem, m.cr3) == map[]
    ensures forall i, f: nat {:trigger Holds(f, modules[i].start, modules[i].end)} ::
      0 <= i < |modules| && Holds(f, modules[i].start, modules[i].end) ==> f !in m.pmm.free
  {
    hide Inv, Offered, Holds, Highest, HeapMapped, OnlyKernel, NoLoose, Image, Pde, InMemory;
    MemoryLimit(regions);
    var allocator := new FrameAllocator(regions, kernelStart, kernelEnd, modules, descriptors);
    KernelHolds(kernelStart, kernelEnd, allocator.totalFrames, directory);
    KernelHolds(kernelStart, kernelEnd, allocator.totalFrames, firstTable);
    assert allocator.free == FreeAtBoot(regions, kernelStart, kernelEnd, modules, descriptors);
    m := new Machine(ram, allocator, directory, firstTable);
    ghost var s := m.S();
    FirstOwners(s, directory, firstTable);
    KheapInitialize(m);
    StillNoLoose(s, m.S());
    StillEmpty(s, m.S());
    StillTaken(s, m.S());
  }

  /** kernel_main's steps 4 to 6: the ram disk, the kernel stack of process 0, and process 0 itself, which runs alone in
      the boot directory. */
  method Start(m: Machine, archive: seq<Byte>, ghost es: seq<I.Entry>) returns (k: K.Kernel)
    requires m.Valid() && m.dirs == {m.kdir} && m.cr3 == m.kdir != 0 && NoLoose(m.S()) && I.Laid(archive, 0, es)
    requires K.FilesFit(I.Found(es))
    ensures fresh(k.Repr() - {m, m.pmm, m.pmm.bitmap}) && k.m == m && k.Outside() && k.ring.running == 0
    ensures k.files == I.Found(es)
    ensures m.S() == old(m.S()) && m.cr3 == old(m.cr3)
    ensures k.heap.next == HEAP_BASE + P.KSTACK_SIZE && k.heap.end == HEAP_BASE + HEAP_SIZE
    ensures L.Boot(k.tbl.S())
  {
    hide Inv, I.Laid, I.Files, I.Found, NoLoose, Machine.Valid, K.Kernel.Valid, K.Kernel.Outside, K.Kernel.Ready,
         I.Disk.Holds, L.Boot, K.FilesFit;
    var fs := new I.Disk(archive);
    fs.Initialize(es);
    var heap := new P.KernelHeap(HEAP_BASE, HEAP_SIZE);
    var stack := heap.KmallocAligned(P.KSTACK_SIZE);
    k := new K.Kernel(m, heap, fs, I.Found(es));
  }

  /** "hello.elf" */
  const INIT_PROGRAM: seq<Byte> := [0x68, 0x65, 0x6C, 0x6C, 0x6F, 0x2E, 0x65, 0x6C, 0x66]

  /** What the last step relies on for the files of that name. */
  ghost predicate InitReady(m: Machine, files: seq<I.Entry>, prog: nat)
    reads m, m.pmm
  {
    forall k {:trigger files[k]} :: 0 <= k < |files| && files[k].name == INIT_PROGRAM ==>
      |I.Content(files[k])| <= HEAP_SIZE - P.KSTACK_SIZE && E.LoadSupply(m, I.Content(files[k]), prog)
  }

  /** Process 0 is the only one, with this break. */
  ghost predicate Alone(s: L.Sys, brk: int)
  {
    && |s.t.procs| == T.MAX_PROCS && s.t.nextPid == 1 && s.t.procs[0].brk == brk
    && forall i :: 1 <= i < T.MAX_PROCS ==> s.t.procs[i].status == T.Free
  }

  lemma StillAlone(a: L.Sys, b: L.Sys)
    requires L.Boot(a) && K.OnlyBreak(a, b, 0)
    ensures Alone(b, b.t.procs[0].brk)
  {
  }

  /** Process 0 runs the program in `data`, loaded when the machine was in state s0. */
  ghost predicate Launched(k: K.Kernel, s0: Space, data: seq<Byte>, prog: nat, entry: int)
    reads k, k.m, k.m.pmm, k.heap, k.tbl, k.tbl.procs, k.tbl.files, k.tbl.pc
  {
    && E.FirstLoaded(s0, k.m.S(), k.m.cr3, data, prog) && F.HeadersFit(data) && entry == F.Entry(data) != 0
    && E.StackPaid(Left(F.ElfPages(data, 0), |s0.free|, TablesOf(s0.mem, k.m.cr3)), |k.m.pmm.free|)
    && k.heap.next == HEAP_BASE + P.KSTACK_SIZE + (|data| + 7) / 8 * 8 && k.heap.end == HEAP_BASE + HEAP_SIZE
    && Alone(k.tbl.S(), Pages.RoundUp(F.Highest(data, F.PhNum(data))))
  }

  /** kernel_main from step 4 on: process 0 runs the init program in the boot directory, or the kernel panics. */
  method Launch(m: Machine, archive: seq<Byte>, ghost es: seq<I.Entry>, ghost prog: nat)
    returns (k: K.Kernel, ok: bool, entry: int, ghost inode: int)
    requires m.Valid() && m.dirs == {m.kdir} && m.cr3 == m.kdir != 0 && NoLoose(m.S()) && I.Laid(archive, 0, es)
    requires K.FilesFit(I.Found(es)) && Image(m.mem, m.cr3) == map[] && InitReady(m, I.Found(es), prog)
    modifies m`mem, m`own, m.pmm, m.pmm.bitmap
    ensures k.m == m && k.files == I.Found(es) && fresh(k.Repr() - {m, m.pmm, m.pmm.bitmap})
    ensures inode == -1 <==> forall i :: 0 <= i < |k.files| ==> k.files[i].name != INIT_PROGRAM
    ensures inode != -1 ==> InitAt(k.files, inode)
    ensures ok ==>
      && inode != -1 && k.Outside() && k.ring.running == 0 && m.cr3 == old(m.cr3)
      && Launched(k, old(m.S()), I.Content(k.files[inode]), prog, entry)
    ensures inode != -1 ==>
      var data := I.Content(k.files[inode]);
      && (F.Accepts(data, |data|) ==> F.HeadersFit(data))
      && (F.Accepts(data, |data|) && F.Entry(data) != 0 && old(E.LoadLeft(m, data)) > E.USER_STACK_PAGES ==> ok)
  {
    hide Inv, I.Laid, I.Files, I.Found, NoLoose, Machine.Valid, Image, E.LoadSupply, E.FirstLoaded, F.HeadersFit,
         F.Entry, F.Accepts, F.Highest, F.PhNum, K.Kernel.Valid, Alone, E.StackPaid, Left, TablesOf, F.ElfPages, L.Boot,
         K.OnlyBreak, Pages.RoundUp;
    k := Start(m, archive, es);
    ghost var s := k.tbl.S();
    ok, entry, inode := k.LoadProgram(INIT_PROGRAM, prog);
    if ok {
      StillAlone(s, k.tbl.S());
    }
  }

  /** The first file of the init program's name. */
  ghost predicate InitAt(files: seq<I.Entry>, i: int)
  {
    0 <= i < |files| && files[i].name == INIT_PROGRAM && forall k :: 0 <= k < i ==> files[k].name != INIT_PROGRAM
  }

  /** The init program is the i-th file, and loading it leaves seven frames. */
  ghost predicate SevenLeft(m: Machine, files: seq<I.Entry>, i: int)
    reads m, m.pmm
  {
    && InitAt(files, i)
    && var data := I.Content(files[i]);
      && |data| <= HEAP_SIZE - 3 * P.KSTACK_SIZE
      && F.Accepts(data, |data|) && F.HeadersFit(data) && F.Entry(data) != 0 && E.LoadLeft(m, data) == 7
  }

  /** A fork that runs out of memory, from boot: the init program is loaded with seven frames to spare, its stack takes
      four or five, and what is left does not hold copies of the four stack pages. The pid is spent. */
  method LaunchAndFork(m: Machine, archive: seq<Byte>, ghost es: seq<I.Entry>, ghost prog: nat, ghost i: int)
    returns (k: K.Kernel, ret: int)
    requires m.Valid() && m.dirs == {m.kdir} && m.cr3 == m.kdir != 0 && NoLoose(m.S()) && I.Laid(archive, 0, es)
    requires K.FilesFit(I.Found(es)) && Image(m.mem, m.cr3) == map[] && InitReady(m, I.Found(es), prog)
    requires SevenLeft(m, I.Found(es), i)
    modifies m, m.pmm, m.pmm.bitmap
    ensures k.Outside() && ret == -N.ENOMEM && k.tbl.nextPid == 2
  {
    hide Inv, I.Laid, I.Files, I.Found, NoLoose, Machine.Valid, Image, E.LoadSupply, E.FirstLoaded, K.Kernel.Outside,
         K.Kernel.ForkSupply, K.Kernel.ForkFits, F.Entry, F.Accepts, F.Highest, F.PhNum, K.Kernel.Valid, FS.UserPages,
         Pde, Alone, Left, TablesOf, F.ElfPages, Pages.RoundUp;
    ghost var s := m.S();
    ValidParts(m);
    var ok, entry; ghost var inode;
    k, ok, entry, inode := Launch(m, archive, es, prog);
    assert inode == i && ok;
    ghost var data := I.Content(k.files[i]);
    StackCounted(s, m.S(), m.cr3, data, prog);
    HeapRoom(|data|, k.heap.next, k.heap.end);
    NoFrames(k);
    SlotFree(k.tbl.S(), Pages.RoundUp(F.Highest(data, F.PhNum(data))));
    ret := k.ForkSpendsPid();
  }

  /** Four pages to copy, and at most three frames. */
  lemma NoFrames(k: K.Kernel)
    requires k.m.dirs == {k.m.kdir} && 2 <= |k.m.pmm.free| <= 3 && |FS.UserPages(k.m.mem, k.m.cr3)| >= 4
    ensures k.ForkSupply() && !k.ForkFits()
  {
    hide FS.UserPages, Pde, FS.UserTables;
  }

  lemma HeapRoom(length: nat, next: int, end: int)
    requires length <= HEAP_SIZE - 3 * P.KSTACK_SIZE && end == HEAP_BASE + HEAP_SIZE
    requires next == HEAP_BASE + P.KSTACK_SIZE + (length + 7) / 8 * 8
    ensures (next + 0xFFF) / 0x1000 * 0x1000 + P.KSTACK_SIZE <= end
  {
  }

  lemma SlotFree(s: L.Sys, brk: int)
    requires Alone(s, brk)
    ensures P.FreeSlotFrom(s.t.procs, 1) != T.NONE && s.t.nextPid == 1
  {
    assert s.t.procs[1].status == T.Free;
  }

  /** A loaded program has at least its four stack pages. */
  lemma StackCounted(s: Space, n: Space, D: int, data: seq<Byte>, prog: nat)
    requires Inv(s) && D in s.dirs && E.FirstLoaded(s, n, D, data, prog)
    ensures |FS.UserPages(n.mem, D)| >= 4 && n.dirs == s.dirs && n.kdir == s.kdir
  {
    hide Inv, Image, F.Program, F.Loadable, Pte;
    var pages := {(704, 0), (704, 1), (704, 2), (704, 3)};
    forall i | 0 <= i < 4
      ensures (704, i) in FS.UserPages(n.mem, D)
    {
      StackPresent(n, D, i);
    }
    FS.SubsetSize(pages, FS.UserPages(n.mem, D));
  }

  lemma StackPresent(n: Space, D: int, i: int)
    requires Inv(n) && D in n.dirs && 0 <= i < 4 && F.USER_HIGH + i * 0x1000 in Image(n.mem, D)
    ensures Pte(n.mem, D, 704, i).present
  {
    hide Inv, Image, Pte;
    PageAddress(704, i, 0);
    ImageAt(n, D, F.USER_HIGH + i * 0x1000);
  }

  lemma MemoryLimit(regions: seq<Region>)
    requires forall i :: 0 <= i < |regions| ==> regions[i].base + regions[i].len <= 0xFFFF_F000
    ensures Highest(regions) / PAGE <= 0x10_0000
  {
    HighestLimit(regions);
  }

  lemma {:induction false} HighestLimit(regions: seq<Region>)
    requires forall i :: 0 <= i < |regions| ==> regions[i].base + regions[i].len <= 0xFFFF_F000
    ensures Highest(regions) <= 0xFFFF_F000
  {
    if regions != [] {
      HighestLimit(regions[..|regions| - 1]);
    }
  }

  lemma KernelHolds(kernelStart: nat, kernelEnd: nat, frames: nat, f: nat)
    requires kernelStart < kernelEnd && kernelStart / PAGE <= f <= (kernelEnd - 1) / PAGE
    ensures Holds(f, kernelStart, kernelEnd + (frames + 7) / 8)
  {
    TouchesIff(Range(kernelStart, kernelEnd), f);
  }

  /** What was not free is not free. */
  lemma StillTaken(s: Space, n: Space)
    requires OnlyKernel(s, n) && Inv(s) && Inv(n)
    ensures n.free <= s.free
  {
    hide TablesOwned, LeavesOwned, OwnersTrue, KernelHalf, KernelTables;
    forall f | f in n.free
      ensures f in s.free
    {
      assert f !in n.own;
    }
  }

  lemma FirstOwners(s: Space, directory: int, firstTable: int)
    requires forall f :: f in s.own ==>
      s.own[f] == if f == directory then Directory else if f == firstTable then KernelTable(0) else Kernel
    ensures NoLoose(s)
  {
  }

  lemma StillNoLoose(s: Space, n: Space)
    requires OnlyKernel(s, n) && NoLoose(s)
    ensures NoLoose(n)
  {
    forall f | f in n.own
      ensures n.own[f] != Loose
    {
      if f in s.own {
        assert n.own[f] == s.own[f];
      }
    }
  }

  lemma StillEmpty(s: Space, n: Space)
    requires OnlyKernel(s, n) && Inv(n)
    requires forall d {:trigger Pde(s.mem, s.kdir, d)} :: UserDir(d) ==> !Pde(s.mem, s.kdir, d).present
    ensures Image(n.mem, n.kdir) == map[]
  {
    hide Inv, Image, Pde;
    forall d | UserDir(d)
      ensures !Pde(n.mem, n.kdir, d).present
    {
      assert Pde(n.mem, n.kdir, d) == Pde(s.mem, s.kdir, d);
    }
    E.NothingMappedYet(n);
  }
}
