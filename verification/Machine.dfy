/** The memory-management half of the machine: physical memory, CR3 and the frame allocator, with
    every kernel access to a directory or table going through a virtual address (kernel/arch/i386/paging.c). */
module Machine {
  import opened Arith
  import opened Words
  import opened Paging
  import opened Address
  import opened Mapping
  import opened Directories
  import opened Steps
  import opened Pmm

  /** The loops of paging_initialize, run before paging is on. */
  method BootMemory(ram: seq<Page>, directory: int, firstTable: int) returns (m: seq<Page>)
    requires 0 <= directory < |ram| <= 0x10_0000 && 0 <= firstTable < |ram| && directory != firstTable
    ensures |m| == |ram|
    ensures forall f :: 0 <= f < |ram| && f != directory && f != firstTable ==> m[f] == ram[f]
    ensures forall d :: Slot(d) ==> m[directory][d] == BootEntry(directory, firstTable, d)
    ensures forall t :: Slot(t) ==> m[firstTable][t] == NewTable(t)
  {
    m := ram;
    for i := 0 to 1024
      invariant |m| == |ram|
      invariant forall f :: 0 <= f < |ram| && f != directory ==> m[f] == ram[f]
      invariant forall j :: 0 <= j < i ==> m[directory][j] == KERNEL_FLAGS
    {
      m := m[directory := m[directory][i := KERNEL_FLAGS]];
    }
    for i := 0 to 1024
      invariant |m| == |ram|
      invariant forall f :: 0 <= f < |ram| && f != directory && f != firstTable ==> m[f] == ram[f]
      invariant forall j :: 0 <= j < 1024 ==> m[directory][j] == KERNEL_FLAGS
      invariant forall j :: 0 <= j < i ==> m[firstTable][j] == NewTable(j)
    {
      m := m[firstTable := m[firstTable][i := NewTable(i)]];
    }
    m := m[directory := m[directory][0 := NewTable(firstTable)]];
    m := m[directory := m[directory][WINDOW := WindowEntry(directory)]];
  }

  /** Address a is mapped onto the physical address a, for the kernel only. */
  predicate OntoItself(mem: seq<Page>, D: int, a: int)
  {
    var w := WalkEntry(mem, D, a);
    w.present && w.write && !w.user && w.frame * 0x1000 + a % 0x1000 == a
  }

  lemma BootIdentity(s: Space, first: int, a: int)
    requires BootSpace(s, first) && 0 <= a < 0x40_0000
    ensures OntoItself(s.mem, s.kdir, a)
  {
    FirstPages(a);
    assert s.mem[s.kdir][0] == BootEntry(s.kdir, first, 0);
    assert s.mem[first][TableOf(a)] == NewTable(TableOf(a));
  }

  lemma FirstPages(a: int)
    requires 0 <= a < 0x40_0000
    ensures DirOf(a) == 0 && Slot(TableOf(a)) && TableOf(a) * 0x1000 + a % 0x1000 == a
  {
  }

  /** The frame pmm_alloc_frame hands out next. */
  ghost predicate IsLowest(f: int, free: set<int>)
  {
    f in free && forall g :: g in free ==> f <= g
  }

  class Machine {
    var mem: seq<Page>
    var cr3: int
    const pmm: FrameAllocator
    const kdir: int
    ghost var dirs: set<int>
    ghost var own: map<int, Owner>

    ghost function S(): Space
      reads this, pmm
    {
      Space(mem, kdir, dirs, own, pmm.free)
    }

    ghost predicate Valid()
      reads this, pmm, pmm.bitmap
    {
      && pmm.Valid()
      && pmm.totalFrames == |mem|
      && FreeMeansUnowned()
      && Inv(S())
      && cr3 in dirs
    }

    /** The allocator's free frames are exactly the frames nobody owns: part of Inv, kept in sight. */
    ghost predicate FreeMeansUnowned()
      reads this, pmm
    {
      forall f {:trigger f in own} {:trigger f in pmm.free} :: 0 <= f < |mem| ==> (f in pmm.free <==> f !in own)
    }

    /** paging_initialize: an absent-but-writable directory, the first 4 MiB mapped onto itself, and the
        directory as its own entry 1023. Everything the allocator may not hand out belongs to the kernel. */
    constructor (ram: seq<Page>, allocator: FrameAllocator, directory: int, firstTable: int)
      requires allocator.Valid() && allocator.totalFrames == |ram| <= 0x10_0000
      requires 0 < directory < |ram| && 0 < firstTable < |ram| && directory != firstTable
      requires directory !in allocator.free && firstTable !in allocator.free
      ensures Valid() && fresh(this)
      ensures pmm == allocator && kdir == directory && cr3 == directory && dirs == {directory}
      ensures |mem| == |ram|
      ensures forall f :: 0 <= f < |ram| && f != directory && f != firstTable ==> mem[f] == ram[f]
      ensures forall f :: f in own ==>
        own[f] == if f == directory then Directory else if f == firstTable then KernelTable(0) else Kernel
      ensures forall d {:trigger Pde(mem, kdir, d)} :: 0 < d < WINDOW ==> !Pde(mem, kdir, d).present
      ensures forall a {:trigger WalkEntry(mem, kdir, a)} :: 0 <= a < 0x40_0000 ==> OntoItself(mem, kdir, a)
    {
      pmm, kdir, cr3, dirs := allocator, directory, directory, {directory};
      mem := ram;
      own := map f | 0 <= f < |ram| && f !in allocator.free ::
        if f == directory then Directory else if f == firstTable then KernelTable(0) else Kernel;
      new;
      hide Inv;
      mem := BootMemory(ram, directory, firstTable);
      BootSpaceInv(S(), firstTable);
      forall a | 0 <= a < 0x40_0000
        ensures OntoItself(mem, kdir, a)
      {
        BootIdentity(S(), firstTable, a);
      }
    }

    // ---- one memory access through the current directory --------------------------------------

    method Load(va: int) returns (w: Word)
      requires Mapped(mem, cr3, va) && Slot(WordOf(va))
      ensures w == mem[FrameAt(mem, cr3, va)][WordOf(va)]
    {
      w := mem[FrameAt(mem, cr3, va)][WordOf(va)];
    }

    method Store(va: int, w: Word)
      requires Mapped(mem, cr3, va) && Slot(WordOf(va))
      modifies `mem
      ensures mem == var f := old(FrameAt(mem, cr3, va)); old(mem)[f := old(mem)[f][WordOf(va) := w]]
    {
      var f := FrameAt(mem, cr3, va);
      mem := mem[f := mem[f][WordOf(va) := w]];
    }

    /** The current directory refers to itself, so the window addresses work. */
    ghost predicate WindowOpen()
      reads this
    {
      && 0 <= cr3 < |mem| <= 0x10_0000
      && Pde(mem, cr3, WINDOW) == WindowEntry(cr3)
    }

    /** `PD_VIRT[d]` */
    method ReadPd(d: int) returns (w: Word)
      requires WindowOpen() && Slot(d)
      ensures w == Pde(mem, cr3, d)
    {
      DirectoryWindow(mem, cr3, d);
      w := Load(PD_VIRT + 4 * d);
    }

    /** `PD_VIRT[d] = w` */
    method WritePd(d: int, w: Word)
      requires WindowOpen() && Slot(d)
      modifies `mem
      ensures mem == old(mem)[cr3 := old(mem)[cr3][d := w]]
    {
      DirectoryWindow(mem, cr3, d);
      Store(PD_VIRT + 4 * d, w);
    }

    /** `PT_VIRT(d)[t]` */
    method ReadPt(d: int, t: int) returns (w: Word)
      requires WindowOpen() && Slot(d) && Slot(t) && Pde(mem, cr3, d).present && Pde(mem, cr3, d).frame < |mem|
      ensures w == Pte(mem, cr3, d, t)
    {
      TableWindow(mem, cr3, d, t);
      w := Load(PT_VIRT + 0x1000 * d + 4 * t);
    }

    /** `PT_VIRT(d)[t] = w` */
    method WritePt(d: int, t: int, w: Word)
      requires WindowOpen() && Slot(d) && Slot(t) && Pde(mem, cr3, d).present && Pde(mem, cr3, d).frame < |mem|
      modifies `mem
      ensures mem == PutLeaf(old(mem), cr3, d, t, w)
    {
      TableWindow(mem, cr3, d, t);
      Store(PT_VIRT + 0x1000 * d + 4 * t, w);
    }

    /** A page that can be overwritten without disturbing the walk that reaches it. */
    ghost predicate Writable(va: int)
      reads this
    {
      && 0 <= va < WORD && va % PAGE == 0
      && 0 <= cr3 < |mem|
      && Mapped(mem, cr3, va)
      && FrameAt(mem, cr3, va) != cr3
      && FrameAt(mem, cr3, va) != Pde(mem, cr3, DirOf(va)).frame
    }

    /** `memset(va, 0, 4096)` */
    method ZeroFill(va: int)
      requires Writable(va) || (DirOf(va) == WINDOW && WindowOpen() && 0 <= va < WORD && va % PAGE == 0
                                && Mapped(mem, cr3, va) && FrameAt(mem, cr3, va) != cr3)
      modifies `mem
      ensures mem == old(mem)[old(FrameAt(mem, cr3, va)) := ZeroPage()]
    {
      ghost var f := FrameAt(mem, cr3, va);
      ghost var e := WalkEntry(mem, cr3, va);
      AddressInRange(va);
      for i := 0 to 1024
        invariant |mem| == |old(mem)|
        invariant forall j :: 0 <= j < i ==> mem[f][j] == ZERO
        invariant mem == old(mem)[f := mem[f]]
        invariant WalkEntry(mem, cr3, va) == e
      {
        WordAddress(va, i);
        Store(va + 4 * i, ZERO);
      }
      assert mem[f] == ZeroPage();
    }

    /** `memcpy(dst, src, 4096)` */
    method CopyPage(dst: int, src: int)
      requires Writable(dst) && 0 <= src < WORD && src % PAGE == 0 && Mapped(mem, cr3, src)
      requires FrameAt(mem, cr3, dst) != FrameAt(mem, cr3, src)
      requires FrameAt(mem, cr3, dst) != Pde(mem, cr3, DirOf(src)).frame
      modifies `mem
      ensures mem == old(mem)[old(FrameAt(mem, cr3, dst)) := old(mem[FrameAt(mem, cr3, src)])]
    {
      ghost var f, g := FrameAt(mem, cr3, dst), FrameAt(mem, cr3, src);
      ghost var e, h := WalkEntry(mem, cr3, dst), WalkEntry(mem, cr3, src);
      for i := 0 to 1024
        invariant |mem| == |old(mem)|
        invariant forall j :: 0 <= j < i ==> mem[f][j] == old(mem)[g][j]
        invariant mem == old(mem)[f := mem[f]]
        invariant WalkEntry(mem, cr3, dst) == e && WalkEntry(mem, cr3, src) == h
      {
        WordAddress(dst, i);
        WordAddress(src, i);
        var w := Load(src + 4 * i);
        Store(dst + 4 * i, w);
      }
      assert mem[f] == old(mem)[g];
    }

    lemma AddressInRange(va: int)
      requires 0 <= va < WORD
      ensures Slot(DirOf(va)) && Slot(TableOf(va)) && Slot(WordOf(va))
    {
      AddressParts(va);
    }

    // ---- frames -------------------------------------------------------------------------------

    method AllocFrame() returns (addr: int)
      requires Valid()
      modifies `own, pmm, pmm.bitmap
      ensures Valid()
      ensures addr == 0 <==> old(pmm.free) == {}
      ensures addr == 0 ==> own == old(own) && pmm.free == old(pmm.free)
      ensures addr != 0 ==>
        && addr % PAGE == 0 && addr / PAGE in old(pmm.free) && 0 < addr / PAGE < |mem| && addr < WORD
        && addr / PAGE !in old(own)
        && S() == Take(old(S()), addr / PAGE)
        && pmm.free == old(pmm.free) - {addr / PAGE}
        && IsLowest(addr / PAGE, old(pmm.free))
    {
      hide Inv;
      ghost var s := S();
      OwnedInRange(s);
      addr := pmm.AllocFrame();
      if addr != 0 {
        TakeKeepsInv(s, addr / PAGE);
        own := own[addr / PAGE := Loose];
        assert S() == Take(s, addr / PAGE);
      }
    }

    method FreeFrame(addr: int)
      requires Valid() && addr / PAGE in own && own[addr / PAGE] == Loose
      modifies `own, pmm, pmm.bitmap
      ensures Valid()
      ensures S() == Drop(old(S()), addr / PAGE) && Reach(old(S()), S(), {})
      ensures pmm.free == old(pmm.free) + {addr / PAGE}
    {
      hide Reach, Inv;
      ghost var s := S();
      OwnedInRange(s);
      DropKeepsInv(s, addr / PAGE);
      ReachDrop(s, addr / PAGE, {});
      pmm.FreeFrame(addr);
      own := own - {addr / PAGE};
      assert S() == Drop(s, addr / PAGE);
    }

    // ---- mapping ------------------------------------------------------------------------------

    /** The first half of paging_map: make sure directory entry d has a table, and mark it for user mode. */
    method EnsureTable(d: int, user: bool) returns (ghost table: int)
      requires Valid() && (UserDir(d) || KernelDir(d)) && user == UserDir(d)
      requires Pde(mem, cr3, d).present || (pmm.free != {} && (UserDir(d) || dirs == {kdir}))
      modifies `mem, `own, pmm, pmm.bitmap
      ensures Valid() && Pde(mem, cr3, d).present
      ensures if old(Pde(mem, cr3, d).present) then table == 0 && pmm.free == old(pmm.free)
              else IsLowest(table, old(pmm.free)) && pmm.free == old(pmm.free) - {table}
      ensures 0 <= table < |mem| && S() == WithTable(old(S()), cr3, d, table)
    {
      hide Inv, AddTable, AddKernelTable;
      table := 0;
      ghost var s0 := S();
      InvOpens(s0, cr3, d);
      var e := ReadPd(d);
      if !e.present {
        var frame := AllocFrame();
        table := frame / PAGE;
        NewTableSteps(s0, cr3, d, table);
        InstallTable(d, frame / PAGE);
        own := own[table := if UserDir(d) then Table(cr3, d) else KernelTable(d)];
        StoresCommute(s0.mem, cr3, d, table, user);
        WithTableParts(s0, cr3, d, table);
        assert own == s0.own[table := if UserDir(d) then Table(cr3, d) else KernelTable(d)];
      }
      MarkEntry(d, user);
      assert S() == WithTable(s0, cr3, d, table);
    }

    /** `PD_VIRT[d] |= (flags & PAGE_USER)` */
    method MarkEntry(d: int, user: bool)
      requires WindowOpen() && Slot(d)
      modifies `mem
      ensures mem == MarkUser(old(mem), cr3, d, user)
    {
      var e := ReadPd(d);
      WritePd(d, Word(e.frame, e.avail, e.user || user, e.write, e.present));
    }

    /** A fresh frame becomes the table behind entry d and is cleared through the window. */
    method InstallTable(d: int, frame: int)
      requires WindowOpen() && Slot(d) && d != WINDOW && 0 < frame < |mem| && frame != cr3
      modifies `mem
      ensures mem == old(mem)[cr3 := old(mem)[cr3][d := NewTable(frame)]][frame := ZeroPage()]
    {
      WritePd(d, NewTable(frame));
      TableWindow(mem, cr3, d, 0);
      PageAddress(WINDOW, d, 0);
      ZeroFill(PT_VIRT + 0x1000 * d);
    }

    method PagingMap(virt: int, phys: int, flags: Word) returns (ghost table: int)
      requires Valid() && 0 <= virt < WORD && 0 <= phys < WORD && phys / PAGE < |mem|
      requires UserDir(DirOf(virt)) || KernelDir(DirOf(virt))
      requires flags.user == UserDir(DirOf(virt)) && (flags.user ==> flags.write)
      requires UserDir(DirOf(virt)) ==>
        !WalkEntry(mem, cr3, virt).present && phys / PAGE in own && own[phys / PAGE] == Loose
      requires Pde(mem, cr3, DirOf(virt)).present || (pmm.free != {} && (UserDir(DirOf(virt)) || dirs == {kdir}))
      modifies `mem, `own, pmm, pmm.bitmap
      ensures Valid()
      ensures if old(Pde(mem, cr3, DirOf(virt))).present then table == 0 && pmm.free == old(pmm.free)
              else IsLowest(table, old(pmm.free)) && pmm.free == old(pmm.free) - {table}
      ensures 0 <= table < |mem|
      ensures UserDir(DirOf(virt)) ==>
        MapsPage(old(S()), S(), cr3, DirOf(virt), TableOf(virt), LeafEntry(phys, flags), table)
      ensures KernelDir(DirOf(virt)) ==>
        MapsKernelPage(old(S()), S(), DirOf(virt), TableOf(virt), LeafEntry(phys, flags), table)
    {
      hide Inv, WithTable, MapsPage, MapsKernelPage, DirOf, TableOf;
      ghost var s0 := S();
      var d, t := DirOf(virt), TableOf(virt);
      AddressParts(virt);
      InvOpens(s0, cr3, d);
      table := EnsureTable(d, flags.user);
      MapSteps(s0, cr3, d, t, LeafEntry(phys, flags), table);
      InvOpens(S(), cr3, d);
      WritePt(d, t, LeafEntry(phys, flags));
      if UserDir(d) {
        own := own[phys / PAGE := Leaf(cr3, d, t)];
      }
    }

    method PagingUnmap(virt: int)
      requires Valid() && 0 <= virt < WORD
      requires UserDir(DirOf(virt)) || KernelDir(DirOf(virt))
      requires UserDir(DirOf(virt)) ==> WalkEntry(mem, cr3, virt).present
      modifies `mem, `own
      ensures Valid()
      ensures !old(Pde(mem, cr3, DirOf(virt))).present ==> S() == old(S())
      ensures UserDir(DirOf(virt)) ==> UnmapsPage(old(S()), S(), cr3, DirOf(virt), TableOf(virt))
      ensures KernelDir(DirOf(virt)) && old(Pde(mem, cr3, DirOf(virt))).present ==>
        MapsKernelPage(old(S()), S(), DirOf(virt), TableOf(virt), ZERO, 0)
    {
      hide Inv, UnmapsPage, MapsKernelPage, DirOf, TableOf;
      ghost var s0 := S();
      var d, t := DirOf(virt), TableOf(virt);
      AddressParts(virt);
      InvOpens(s0, cr3, d);
      var e := ReadPd(d);
      if !e.present {
        return;
      }
      UnmapSteps(s0, cr3, d, t);
      WritePt(d, t, ZERO);
      if UserDir(d) {
        own := own[Pte(s0.mem, cr3, d, t).frame := Loose];
      }
    }

    method PagingVirtToPhys(virt: int) returns (phys: int)
      requires Valid() && 0 <= virt < WORD
      ensures phys == if WalkEntry(mem, cr3, virt).present then WalkEntry(mem, cr3, virt).frame * PAGE + virt % PAGE
                      else NO_PHYS
    {
      hide DirOf, TableOf;
      var d, t := DirOf(virt), TableOf(virt);
      AddressParts(virt);
      EntriesInRange(S(), cr3, d);
      hide Inv;
      var pde := ReadPd(d);
      if !pde.present {
        return NO_PHYS;
      }
      var pte := ReadPt(d, t);
      if !pte.present {
        return NO_PHYS;
      }
      return pte.frame * PAGE + virt % PAGE;
    }

    method PagingIsUser(virt: int) returns (ok: bool)
      requires Valid() && 0 <= virt < WORD
      ensures ok <==> UserReaches(mem, cr3, virt)
    {
      hide DirOf, TableOf;
      var d, t := DirOf(virt), TableOf(virt);
      AddressParts(virt);
      EntriesInRange(S(), cr3, d);
      hide Inv;
      var pde := ReadPd(d);
      if !(pde.present && pde.user) {
        return false;
      }
      var pte := ReadPt(d, t);
      return pte.present && pte.user;
    }

    // ---- scratch mappings ---------------------------------------------------------------------

    /** The scratch table exists, or can still be made because there is only the boot directory. */
    ghost predicate ScratchReady()
      reads this, pmm
    {
      Pde(mem, cr3, TMP_DIR).present || (dirs == {kdir} && pmm.free != {})
    }

    method TmpMap(slot: int, phys: int) returns (ghost table: int)
      requires Valid() && (slot == TMP_SLOT || slot == TMP2_SLOT) && 0 <= phys < WORD && phys / PAGE < |mem|
      requires ScratchReady()
      modifies `mem, `own, pmm, pmm.bitmap
      ensures Valid()
      ensures if old(Pde(mem, cr3, TMP_DIR)).present then table == 0 && pmm.free == old(pmm.free)
              else table in old(pmm.free) && pmm.free == old(pmm.free) - {table}
      ensures 0 <= table < |mem|
      ensures MapsKernelPage(old(S()), S(), TMP_DIR, slot, LeafEntry(phys, KERNEL_FLAGS), table)
    {
      ScratchAddresses();
      if slot == TMP_SLOT {
        table := PagingMap(TMP_VIRT, phys, KERNEL_FLAGS);
      } else {
        table := PagingMap(TMP2_VIRT, phys, KERNEL_FLAGS);
      }
    }

    /** `((uint32_t*) TMP_VIRT)[i]` */
    method ReadScratch(slot: int, i: int) returns (w: Word)
      requires (slot == TMP_SLOT || slot == TMP2_SLOT) && Slot(i)
      requires Pte(mem, cr3, TMP_DIR, slot).present && Pte(mem, cr3, TMP_DIR, slot).frame < |mem|
      ensures w == mem[Pte(mem, cr3, TMP_DIR, slot).frame][i]
    {
      PageAddress(TMP_DIR, slot, 4 * i);
      w := Load((if slot == TMP_SLOT then TMP_VIRT else TMP2_VIRT) + 4 * i);
    }

    method WriteScratch(i: int, w: Word)
      requires Slot(i)
      requires Pte(mem, cr3, TMP_DIR, TMP_SLOT).present && Pte(mem, cr3, TMP_DIR, TMP_SLOT).frame < |mem|
      modifies `mem
      ensures mem == var f := old(Pte(mem, cr3, TMP_DIR, TMP_SLOT).frame); old(mem)[f := old(mem)[f][i := w]]
    {
      PageAddress(TMP_DIR, TMP_SLOT, 4 * i);
      Store(TMP_VIRT + 4 * i, w);
    }

    // ---- directories --------------------------------------------------------------------------

    /** The stores of paging_new_directory through the scratch window, into the frame mapped there. */
    method FillDirectory(frame: int)
      requires Valid() && 0 <= frame < |mem| && frame in own && Plain(own[frame])
      requires Pde(mem, cr3, TMP_DIR).present
      requires WalkEntry(mem, cr3, TMP_VIRT).present && WalkEntry(mem, cr3, TMP_VIRT).frame == frame
      modifies `mem
      ensures |mem| == |old(mem)| && mem == old(mem)[frame := mem[frame]]
      ensures FreshDirectory(old(S()), frame, mem[frame])
    {
      hide Inv, FreshDirectory;
      ghost var s := S();
      ScratchAddresses();
      FillLeavesWalk(s, cr3, frame, mem);
      ZeroFill(TMP_VIRT);
      FillLeavesWalk(s, cr3, frame, mem);
      var e := ReadPd(0);
      WriteScratch(0, e);
      FillLeavesWalk(s, cr3, frame, mem);
      for i := KERNEL_DIR_START to WINDOW
        invariant |mem| == |s.mem| && mem == s.mem[frame := mem[frame]]
        invariant forall e :: UserDir(e) ==> mem[frame][e] == ZERO
        invariant mem[frame][0] == Pde(s.mem, s.kdir, 0)
        invariant forall e :: KERNEL_DIR_START <= e < i ==> mem[frame][e] == Pde(s.mem, s.kdir, e)
      {
        FillLeavesWalk(s, cr3, frame, mem);
        e := ReadPd(i);
        WriteScratch(i, e);
      }
      FillLeavesWalk(s, cr3, frame, mem);
      WriteScratch(WINDOW, NewTable(frame));
      assert FreshDirectory(s, frame, mem[frame]) by {
        FreshParts(s, frame, mem[frame]);
      }
    }

    method NewDirectory() returns (frame: int, ghost table: int)
      requires Valid()
      requires Pde(mem, cr3, TMP_DIR).present || (dirs == {kdir} && |pmm.free| >= 2)
      modifies `mem, `own, `dirs, pmm, pmm.bitmap
      ensures Valid()
      ensures frame == 0 <==> old(pmm.free) == {}
      ensures frame == 0 ==> NewDirectoryFailed(old(S()), S()) && pmm.free == old(pmm.free)
      ensures frame != 0 ==>
        && frame % PAGE == 0 && 0 < frame / PAGE < |mem| && frame < WORD && frame / PAGE in old(pmm.free)
        && NewDirectoryMade(old(S()), S(), frame / PAGE, table)
        && pmm.free == old(pmm.free) - {frame / PAGE} - (if table == 0 then {} else {table})
        && (table != 0 ==> table in old(pmm.free) && table != frame / PAGE)
        && (table == 0 <==> old(Pde(mem, cr3, TMP_DIR).present))
    {
      hide Inv, NewDirectoryMade, NewDirectoryFailed, MapsKernelPage, Reach, FreshDirectory, Pde, Pte, DirOf, TableOf;
      ghost var s := S();
      frame := AllocFrame();
      ghost var s1 := S();
      InvOpens(s1, cr3, TMP_DIR);
      assert ScratchReady() by {
        if frame != 0 && !Pde(mem, cr3, TMP_DIR).present {
          assert |pmm.free| >= 1;
        }
      }
      table := TmpMap(TMP_SLOT, frame);
      ghost var s2 := S();
      ScratchMapped(s1, s2, cr3, frame, table);
      FillDirectory(frame / PAGE);
      if frame != 0 {
        NewDirectorySteps(s, s2, frame / PAGE, table, mem);
        OpenDirectory(frame / PAGE, s, table);
      } else {
        NewDirectoryFailedSteps(s, s2, mem);
        NewDirectoryFailedFacts(s, S());
      }
    }

    /** The frame just filled counts as a live directory from here on. */
    ghost method OpenDirectory(f: int, s: Space, table: int)
      requires pmm.Valid() && pmm.totalFrames == |mem| && FreeMeansUnowned() && cr3 in dirs && kdir == s.kdir
      requires dirs == s.dirs
      requires NewDirectoryMade(s, Space(mem, s.kdir, s.dirs + {f}, own[f := Directory], pmm.free), f, table)
      requires f in own
      modifies `own, `dirs
      ensures Valid() && NewDirectoryMade(s, S(), f, table)
    {
      hide Inv, NewDirectoryMade;
      dirs := dirs + {f};
      own := own[f := Directory];
      NewDirectoryFacts(s, S(), f, table);
    }

    method SwitchDirectory(phys: int)
      requires Valid() && phys / PAGE in dirs
      modifies `cr3
      ensures Valid() && cr3 == phys / PAGE
    {
      cr3 := phys / PAGE;
    }

    /** The inner loop of paging_free_directory: every present page of one table goes back. */
    method FreeTablePages(frame: int, ghost s: Space, ghost D: int, ghost d: int)
      requires Valid() && TearDown(s, S(), D, d, 0) && UserDir(d)
      requires Pde(s.mem, D, d).present && Pde(s.mem, D, d).frame == frame
      requires Pde(mem, cr3, TMP_DIR).present && dirs != {}
      modifies `mem, `own, pmm, pmm.bitmap
      ensures Valid() && TearDown(s, S(), D, d, 1024)
      ensures forall u {:trigger Pte(mem, cr3, TMP_DIR, u)} :: u != TMP2_SLOT ==>
        Pte(mem, cr3, TMP_DIR, u) == old(Pte(mem, cr3, TMP_DIR, u))
      ensures Pde(mem, cr3, TMP_DIR).present
      ensures pmm.free >= old(pmm.free)
    {
      hide Inv, TearDown, MapsKernelPage, Reach, Reaped, Pde, Pte;
      TearDownReads(s, S(), D, d, 0, 0);
      ghost var m := S();
      ghost var table := TmpMap(TMP2_SLOT, frame * PAGE);
      TearDownMap(s, m, S(), D, d, TMP2_SLOT, LeafEntry(frame * PAGE, KERNEL_FLAGS), cr3);
      ScratchKept(m, S(), cr3, TMP2_SLOT, frame * PAGE, table);
      ghost var mem0 := mem;
      for t := 0 to 1024
        invariant Valid() && TearDown(s, S(), D, d, t)
        invariant mem == mem0
        invariant pmm.free >= old(pmm.free)
      {
        TearDownReads(s, S(), D, d, t, t);
        ReapLeafIn(s, S(), D, d, t);
        var p := ReadScratch(TMP2_SLOT, t);
        m := S();
        ReachSame(m, {});
        if p.present {
          FreeFrame(p.frame * PAGE);
        }
        TearDownStep(s, m, S(), D, d, t, d, t + 1);
      }
    }

    /** The outer loop of paging_free_directory, over the user entries of the directory in the scratch slot. */
    method FreeTables(ghost s: Space, ghost D: int)
      requires Valid() && TearDown(s, S(), D, 1, 0)
      requires Pte(mem, cr3, TMP_DIR, TMP_SLOT).present && Pte(mem, cr3, TMP_DIR, TMP_SLOT).frame == D < |mem|
      requires Pde(mem, cr3, TMP_DIR).present
      modifies `mem, `own, pmm, pmm.bitmap
      ensures Valid() && TearDown(s, S(), D, KERNEL_DIR_START, 0) && |mem| == |old(mem)|
      ensures Pde(mem, cr3, TMP_DIR).present
    {
      hide Inv, TearDown, MapsKernelPage, Reach, Reaped, Pde, Pte;
      ghost var leaf := Pte(mem, cr3, TMP_DIR, TMP_SLOT);
      for d := 1 to KERNEL_DIR_START
        invariant Valid() && TearDown(s, S(), D, d, 0)
        invariant Pte(mem, cr3, TMP_DIR, TMP_SLOT) == leaf && Pde(mem, cr3, TMP_DIR).present
      {
        TearDownReads(s, S(), D, d, 0, 0);
        ReapTableIn(s, S(), D, d);
        var e := ReadScratch(TMP_SLOT, d);
        if e.present {
          FreeTablePages(e.frame, s, D, d);
          TearDownReads(s, S(), D, d, 1024, 0);
          ghost var m := S();
          FreeFrame(e.frame * PAGE);
          TearDownStep(s, m, S(), D, d, 1024, d + 1, 0);
        } else {
          ReachSame(S(), {});
          TearDownStep(s, S(), S(), D, d, 0, d + 1, 0);
        }
      }
    }

    method FreeDirectory(phys: int)
      requires Valid() && phys % PAGE == 0 && phys / PAGE in dirs && phys / PAGE != kdir && phys / PAGE != cr3
      modifies `mem, `own, `dirs, pmm, pmm.bitmap
      ensures Valid()
      ensures DirectoryFreed(old(S()), S(), phys / PAGE)
      ensures pmm.free == old(pmm.free) + HeldFrames(old(own), phys / PAGE)
    {
      hide Inv, TearDown, MapsKernelPage, Reach, Reaped, Pde, Pte, DirectoryFreed, DirOf, TableOf;
      ghost var s0 := S();
      ghost var D := phys / PAGE;
      LiveDirectory(s0, D, cr3);
      ghost var table := TmpMap(TMP_SLOT, phys);
      ghost var s := S();
      ScratchKept(s0, s, cr3, TMP_SLOT, phys, table);
      TearDownStarts(s, D);
      dirs := dirs - {D};
      own := Retire(s, D).own;
      assert S() == Retire(s, D);
      FreeTables(s, D);
      ghost var m := S();
      TearDownLast(s, m, D);
      FreeFrame(phys);
      TearDownEnds(s0, s, m, S(), D);
      UnmapScratch(s0, D);
      OwnedInRange(s0);
      FreedByDirectory(|mem|, old(pmm.free), s0.own, pmm.free, own, D);
    }

    /** The last two calls of paging_free_directory. */
    method UnmapScratch(ghost s0: Space, ghost D: int)
      requires Valid() && DirectoryFreed(s0, S(), D) && Pde(mem, cr3, TMP_DIR).present
      modifies `mem, `own
      ensures Valid() && DirectoryFreed(s0, S(), D) && own == Without(s0.own, D) && |mem| == |old(mem)|
    {
      hide Inv, MapsKernelPage, Pde, Pte, DirectoryFreed, DirOf, TableOf;
      ScratchAddresses();
      ghost var m := S();
      PagingUnmap(TMP_VIRT);
      DirectoryFreedMap(s0, m, S(), D, TMP_SLOT, cr3);
      m := S();
      PagingUnmap(TMP2_VIRT);
      DirectoryFreedMap(s0, m, S(), D, TMP2_SLOT, cr3);
    }
  }

  lemma ValidParts(m: Machine)
    requires m.Valid()
    ensures Inv(m.S()) && m.cr3 in m.dirs && m.kdir in m.dirs
  {
  }

  lemma FreeUnowned(m: Machine)
    requires m.Valid()
    ensures forall f {:trigger f in m.pmm.free} :: f in m.pmm.free ==> f !in m.own
  {
    hide Inv;
  }

  /** Validity after the contents of frames have changed, and nothing else. */
  twostate lemma ValidStays(m: Machine)
    requires old(m.Valid()) && unchanged(m.pmm, m.pmm.bitmap) && unchanged(m`own, m`dirs, m`cr3)
    requires |m.mem| == |old(m.mem)| && Inv(m.S())
    ensures m.Valid()
  {
    hide Inv;
  }
}
