/** Making and tearing down a page directory, as relations between states (kernel/arch/i386/paging.c). */
module Directories {
  import opened Arith
  import opened Words
  import opened Paging
  import opened Address
  import opened Mapping
  import opened Steps

  /** The user half of every directory live in both states reads the same entries. */
  ghost predicate SameUserEntries(s: Space, n: Space)
  {
    && (forall E, e {:trigger Pde(n.mem, E, e)} :: E in s.dirs && E in n.dirs && UserDir(e) ==>
          Pde(n.mem, E, e) == Pde(s.mem, E, e))
    && (forall E, e, u {:trigger Pte(n.mem, E, e, u)} :: E in s.dirs && E in n.dirs && UserDir(e) ==>
          Pte(n.mem, E, e, u) == Pte(s.mem, E, e, u))
  }

  /** Only frame 0, which is nobody's, may change among user pages, kernel pages and frames in hand. */
  ghost predicate SamePagesButZero(s: Space, n: Space)
    requires |n.mem| == |s.mem|
  {
    forall f {:trigger n.mem[f]} :: f in s.own && 0 < f < |s.mem| && Plain(s.own[f]) ==> n.mem[f] == s.mem[f]
  }

  /** Ownership with a scratch table added, when one had to be made. */
  ghost function WithScratch(own: map<int, Owner>, table: int): map<int, Owner>
  {
    if table == 0 then own else own[table := KernelTable(TMP_DIR)]
  }

  /** paging_new_directory succeeded: one more directory with an empty user half. */
  ghost predicate NewDirectoryMade(s: Space, n: Space, f: int, table: int)
  {
    && |n.mem| == |s.mem| && n.kdir == s.kdir && n.dirs == s.dirs + {f} && f !in s.own
    && Inv(n)
    && n.own == WithScratch(s.own, table)[f := Directory]
    && SameUserEntries(s, n)
    && SamePagesButZero(s, n)
    && (forall e {:trigger Pde(n.mem, f, e)} :: UserDir(e) ==> Pde(n.mem, f, e) == ZERO)
    && (forall e, u {:trigger Pte(n.mem, f, e, u)} :: UserDir(e) ==> Pte(n.mem, f, e, u) == ZERO)
    && Pde(n.mem, n.kdir, TMP_DIR).present
    && FreeSame(s, n)
    && Reach(s, n, {})
  }

  /** It ran out of frames: the only trace is in frame 0 and the scratch slot. */
  ghost predicate NewDirectoryFailed(s: Space, n: Space)
  {
    && SameShape(s, n)
    && Inv(n)
    && n.own == s.own
    && SameUserEntries(s, n)
    && SamePagesButZero(s, n)
    && Reach(s, n, {})
  }

  /** Filling a plain frame leaves the walk through directory D as it was. */
  lemma FillLeavesWalk(s: Space, D: int, f: int, m: seq<Page>)
    requires Inv(s) && D in s.dirs && f in s.own && 0 <= f < |s.mem| && Plain(s.own[f])
    requires |m| == |s.mem| && m == s.mem[f := m[f]]
    ensures 0 <= D < |m| <= 0x10_0000 && f != D
    ensures Pde(m, D, WINDOW) == WindowEntry(D)
    ensures forall e :: Slot(e) ==> Pde(m, D, e) == Pde(s.mem, D, e)
    ensures forall e, u {:trigger Pte(m, D, e, u)} :: UserDir(e) || KernelDir(e) ==>
      Pte(m, D, e, u) == Pte(s.mem, D, e, u)
    ensures forall e :: KernelDir(e) ==> Pde(s.mem, D, e) == Pde(s.mem, s.kdir, e)
    ensures Pde(s.mem, D, TMP_DIR).present ==> Pde(s.mem, D, TMP_DIR).frame != f
  {
    FillEffect(s, f, m[f]);
    assert Pde(s.mem, D, TMP_DIR) == Pde(s.mem, s.kdir, TMP_DIR);
  }

  lemma FreshParts(s: Space, f: int, p: Page)
    requires forall i :: UserDir(i) ==> p[i] == ZERO
    requires p[0] == Pde(s.mem, s.kdir, 0)
    requires forall i :: KERNEL_DIR_START <= i < WINDOW ==> p[i] == Pde(s.mem, s.kdir, i)
    requires p[WINDOW] == WindowEntry(f)
    ensures FreshDirectory(s, f, p)
  {
  }

  /** After the scratch mapping, the scratch page is the frame that was just taken (or frame 0). */
  lemma ScratchMapped(s: Space, n: Space, D: int, phys: int, table: int)
    requires MapsKernelPage(s, n, TMP_DIR, TMP_SLOT, LeafEntry(phys, KERNEL_FLAGS), table)
    requires D in s.dirs && Inv(s)
    requires 0 <= phys < WORD && phys / PAGE in s.own && (s.own[phys / PAGE] == Loose || s.own[phys / PAGE] == Kernel)
    requires table !in s.own || table == 0
    ensures Pde(n.mem, D, TMP_DIR).present
    ensures WalkEntry(n.mem, D, TMP_VIRT) == LeafEntry(phys, KERNEL_FLAGS)
    ensures phys / PAGE in n.own && n.own[phys / PAGE] == s.own[phys / PAGE]
    ensures D in n.dirs && |n.mem| == |s.mem| && 0 <= phys / PAGE < |n.mem|
  {
    ScratchAddresses();
    assert Pde(n.mem, D, TMP_DIR) == Pde(n.mem, n.kdir, TMP_DIR);
  }

  lemma NewDirectoryFacts(s: Space, n: Space, f: int, table: int)
    requires NewDirectoryMade(s, n, f, table)
    ensures Inv(n) && n.dirs == s.dirs + {f} && |n.mem| == |s.mem|
    ensures n.own == WithScratch(s.own, table)[f := Directory]
  {
  }

  lemma NewDirectoryFailedFacts(s: Space, n: Space)
    requires NewDirectoryFailed(s, n)
    ensures Inv(n) && n.dirs == s.dirs && |n.mem| == |s.mem| && n.own == s.own
  {
  }

  lemma NewDirectoryFree(s: Space, s2: Space, f: int, table: int, m: seq<Page>)
    requires Inv(s) && 0 < f < |s.mem| && f !in s.own
    requires MapsKernelPage(Take(s, f), s2, TMP_DIR, TMP_SLOT, LeafEntry(f * PAGE, KERNEL_FLAGS), table)
    requires table != 0 ==> 0 < table < |s.mem| && table !in s.own && table != f
    requires |m| == |s.mem| && m == s2.mem[f := m[f]]
    ensures FreeSame(s, Space(m, s.kdir, s.dirs + {f}, s2.own[f := Directory], s2.free))
  {
    hide TablesOwned, LeavesOwned, OwnersTrue, KernelHalf, KernelTables, Pde, Pte, Reach;
    forall g | g in s2.free
      ensures g in s.free && g !in s2.own && g !in s.own && g != table && g != f
    {
      assert g !in s2.own;
    }
  }

  /** The steps of paging_new_directory: take a frame, map it, fill it, and (unless it is frame 0) let it live. */
  lemma NewDirectorySteps(s: Space, s2: Space, f: int, table: int, m: seq<Page>)
    requires Inv(s) && 0 < f < |s.mem| && f !in s.own
    requires MapsKernelPage(Take(s, f), s2, TMP_DIR, TMP_SLOT, LeafEntry(f * PAGE, KERNEL_FLAGS), table)
    requires table != 0 ==> 0 < table < |s.mem| && table !in s.own && table != f && s.dirs == {s.kdir}
    requires |m| == |s.mem| && m == s2.mem[f := m[f]] && FreshDirectory(s2, f, m[f])
    ensures NewDirectoryMade(s, Space(m, s.kdir, s.dirs + {f}, s2.own[f := Directory], s2.free), f, table)
  {
    hide Reach, FreeSame;
    var n := Space(m, s.kdir, s.dirs + {f}, s2.own[f := Directory], s2.free);
    NewDirectoryFree(s, s2, f, table, m);
    TakeKeepsInv(s, f);
    ReachTake(s, f, {});
    ReachOn(s, Take(s, f), s2, {}, {});
    ReachOnce(s2, OpenDirectory(f, m[f]), {});
    ReachOn(s, s2, AddDirectory(s2, f, m[f]), {}, {});
    AddDirectoryKeepsInv(s2, f, m[f]);
    AddDirectoryEffect(s2, f, m[f]);
    assert n == AddDirectory(s2, f, m[f]);
    hide AddDirectory, FreshDirectory, Pde, Pte;
    assert n.own == WithScratch(s.own, table)[f := Directory];
    assert SameUserEntries(s, n);
    assert SamePagesButZero(s, n);
  }

  lemma NewDirectoryFailedSteps(s: Space, s2: Space, m: seq<Page>)
    requires Inv(s) && 0 <= 0 < |s.mem|
    requires MapsKernelPage(s, s2, TMP_DIR, TMP_SLOT, LeafEntry(0, KERNEL_FLAGS), 0)
    requires |m| == |s.mem| && m == s2.mem[0 := m[0]]
    ensures NewDirectoryFailed(s, Space(m, s.kdir, s.dirs, s2.own, s2.free))
  {
    hide Reach;
    FillKeepsInv(s2, 0, m[0]);
    FillEffect(s2, 0, m[0]);
    ReachFill(s2, 0, m[0], {});
    ReachOn(s, s2, Fill(s2, 0, m[0]), {}, {});
    assert Space(m, s.kdir, s.dirs, s2.own, s2.free) == Fill(s2, 0, m[0]);
  }

  // ---- tearing a directory down ------------------------------------------------------------------

  /** Owners whose frame has been given back once the scan of directory D stands at entry d, slot t. */
  predicate Gone(o: Owner, D: int, d: int, t: int)
  {
    match o
    case Leaf(E, e, u) => E == D && (e < d || (e == d && u < t))
    case Table(E, e) => E == D && e < d
    case _ => false
  }

  ghost function Reaped(s: Space, D: int, d: int, t: int): map<int, Owner>
  {
    map f | f in s.own && !Gone(s.own[f], D, d, t) :: if HeldBy(s.own[f], f, D) then Loose else s.own[f]
  }

  /** One table slot of the scan: a present leaf's frame is the only one with that owner. */
  lemma ReapLeaf(s: Space, D: int, d: int, t: int)
    requires Inv(s) && D in s.dirs && UserDir(d) && Slot(t)
    ensures var e := Pte(s.mem, D, d, t);
      if e.present then
        e.frame in Reaped(s, D, d, t) && Reaped(s, D, d, t)[e.frame] == Loose
        && Reaped(s, D, d, t) - {e.frame} == Reaped(s, D, d, t + 1)
      else Reaped(s, D, d, t) == Reaped(s, D, d, t + 1)
  {
    var e := Pte(s.mem, D, d, t);
    forall f | f in s.own && s.own[f] == Leaf(D, d, t)
      ensures e.present && e.frame == f
    {
      assert OwnerTrue(s, f, s.own[f]);
    }
  }

  /** One directory entry of the scan, after its slots: a present entry's table is the only one with that owner. */
  lemma ReapTable(s: Space, D: int, d: int)
    requires Inv(s) && D in s.dirs && UserDir(d)
    ensures var e := Pde(s.mem, D, d);
      if e.present then
        e.frame in Reaped(s, D, d, 1024) && Reaped(s, D, d, 1024)[e.frame] == Loose
        && Reaped(s, D, d, 1024) - {e.frame} == Reaped(s, D, d + 1, 0)
      else Reaped(s, D, d, 0) == Reaped(s, D, d + 1, 0)
  {
    var e := Pde(s.mem, D, d);
    forall f | f in s.own && (s.own[f] == Table(D, d) || (s.own[f].Leaf? && s.own[f].dir == D && s.own[f].d == d))
      ensures e.present && (s.own[f].Table? ==> e.frame == f) && (s.own[f].Leaf? ==> s.own[f].t < 1024)
    {
      assert OwnerTrue(s, f, s.own[f]);
    }
    forall f | f in s.own && s.own[f].Leaf?
      ensures s.own[f].d >= 1 && s.own[f].t >= 0
    {
      assert OwnerTrue(s, f, s.own[f]);
    }
  }

  /** The scan starts with nothing given back, and ends with only the directory's own frame left in hand. */
  lemma ReapEnds(s: Space, D: int)
    requires Inv(s) && D in s.dirs
    ensures Reaped(s, D, 1, 0) == Retire(s, D).own
    ensures D in Reaped(s, D, KERNEL_DIR_START, 0) && Reaped(s, D, KERNEL_DIR_START, 0)[D] == Loose
    ensures Reaped(s, D, KERNEL_DIR_START, 0) - {D} == Without(s.own, D)
  {
    forall f | f in s.own
      ensures !Gone(s.own[f], D, 1, 0)
      ensures HeldBy(s.own[f], f, D) ==> f == D || Gone(s.own[f], D, KERNEL_DIR_START, 0)
      ensures Gone(s.own[f], D, KERNEL_DIR_START, 0) ==> HeldBy(s.own[f], f, D)
    {
      assert OwnerTrue(s, f, s.own[f]);
    }
  }

  /** Ownership without anything directory D held. */
  ghost function Without(own: map<int, Owner>, D: int): map<int, Owner>
  {
    map f | f in own && !HeldBy(own[f], f, D) :: own[f]
  }

  /** paging_free_directory: exactly what D held is free, and no other address space changed. */
  ghost predicate DirectoryFreed(s: Space, n: Space, D: int)
  {
    && |n.mem| == |s.mem| && n.kdir == s.kdir && n.dirs == s.dirs - {D}
    && Inv(n)
    && n.own == Without(s.own, D)
    && SameUserEntries(s, n)
    && SameKeptPages(s, n)
    && SameContents(s, n)
    && Reach(s, n, {D})
  }

  /** Nothing was cleared: only the boot directory and the kernel's tables have changed words. */
  ghost predicate SameContents(s: Space, n: Space)
    requires |n.mem| == |s.mem|
  {
    forall f {:trigger n.mem[f]} :: 0 < f < |s.mem| && f != s.kdir && !(f in s.own && s.own[f].KernelTable?) ==>
      n.mem[f] == s.mem[f]
  }

  /** No page that is still owned has changed, kernel tables apart. */
  ghost predicate SameKeptPages(s: Space, n: Space)
    requires |n.mem| == |s.mem|
  {
    forall f {:trigger n.mem[f]} :: f in n.own && 0 <= f < |s.mem| && f != s.kdir && !n.own[f].KernelTable? ==>
      n.mem[f] == s.mem[f]
  }

  /** The state of the scan of directory D: s is where it started, n where it stands at entry d, slot t. */
  ghost predicate TearDown(s: Space, n: Space, D: int, d: int, t: int)
  {
    && Inv(s) && D in s.dirs && D != s.kdir
    && |n.mem| == |s.mem| && n.kdir == s.kdir && n.dirs == s.dirs - {D}
    && Inv(n)
    && n.own == Reaped(s, D, d, t)
    && SameUserEntries(s, n)
    && SameKeptPages(s, n)
    && SameContents(s, n)
    && Reach(s, n, {D})
  }

  /** Mapping a table into a scratch slot does not disturb the scan. */
  lemma TearDownMap(s: Space, m: Space, n: Space, D: int, d: int, slot: int, w: Word, E: int)
    requires TearDown(s, m, D, d, 0) && MapsKernelPage(m, n, TMP_DIR, slot, w, 0) && E in m.dirs
    ensures TearDown(s, n, D, d, 0)
    ensures Pte(n.mem, E, TMP_DIR, slot) == w
    ensures forall u {:trigger Pte(n.mem, E, TMP_DIR, u)} :: u != slot ==>
      Pte(n.mem, E, TMP_DIR, u) == Pte(m.mem, E, TMP_DIR, u)
  {
    hide Inv, Reaped, Pde, Pte, Reach;
    ReapedTables(s, D, d, 0);
    assert SameUserEntries(s, n);
    assert SameKeptPages(s, n);
    forall f | 0 < f < |s.mem| && f != s.kdir && !(f in s.own && s.own[f].KernelTable?)
      ensures n.mem[f] == s.mem[f]
    {
      assert f in m.own ==> m.own[f] != KernelTable(TMP_DIR);
      assert n.mem[f] == m.mem[f];
    }
    ReachOn(s, m, n, {D}, {});
  }

  lemma ReapedTables(s: Space, D: int, d: int, t: int)
    ensures forall f {:trigger f in Reaped(s, D, d, t)} ::
      f in Reaped(s, D, d, t) && Reaped(s, D, d, t)[f].KernelTable? ==> f in s.own && s.own[f].KernelTable?
  {
  }

  lemma WithoutTables(own: map<int, Owner>, D: int)
    ensures forall f {:trigger f in Without(own, D)} ::
      f in Without(own, D) && Without(own, D)[f].KernelTable? ==> f in own && own[f].KernelTable?
  {
  }

  /** What the scan reads at entry d and slot t is what the directory held when it started. */
  lemma TearDownReads(s: Space, n: Space, D: int, d: int, t: int, u: int)
    requires TearDown(s, n, D, d, t) && UserDir(d) && 0 <= t <= 1024 && Slot(u)
    ensures 0 <= D < |n.mem| && n.mem[D][d] == Pde(s.mem, D, d) && n.own == Reaped(s, D, d, t)
    ensures var e := Pde(s.mem, D, d);
      e.present ==>
        && 0 < e.frame < |n.mem| && n.mem[e.frame][u] == Pte(s.mem, D, d, u)
        && e.frame in n.own && n.own[e.frame] == Loose
        && (Pte(s.mem, D, d, u).present ==> 0 < Pte(s.mem, D, d, u).frame < |s.mem|)
  {
    var e := Pde(s.mem, D, d);
    assert !Gone(Directory, D, d, t);
    if e.present {
      assert s.own[e.frame] == Table(D, d);
    }
  }

  /** Dropping the frame of the slot (or entry) just read is one step of the scan. */
  lemma TearDownStep(s: Space, m: Space, n: Space, D: int, d: int, t: int, d': int, t': int)
    requires TearDown(s, m, D, d, t)
    requires n.mem == m.mem && n.kdir == m.kdir && n.dirs == m.dirs && Inv(n)
    requires n.own == Reaped(s, D, d', t') && n.own.Keys <= m.own.Keys
    requires forall f :: f in n.own ==> n.own[f] == m.own[f]
    requires Reach(m, n, {})
    ensures TearDown(s, n, D, d', t')
  {
    hide Reach;
    ReachOn(s, m, n, {D}, {});
  }

  lemma TearDownStarts(s: Space, D: int)
    requires Inv(s) && D in s.dirs && D != s.kdir
    ensures TearDown(s, Retire(s, D), D, 1, 0) && Inv(Retire(s, D))
  {
    hide Reach;
    RetireKeepsInv(s, D);
    ReapEnds(s, D);
    ReachOnce(s, CloseDirectory(D), {D});
  }

  lemma TearDownEnds(s0: Space, s: Space, m: Space, n: Space, D: int)
    requires Inv(s0) && MapsKernelPage(s0, s, TMP_DIR, TMP_SLOT, LeafEntry(D * PAGE, KERNEL_FLAGS), 0)
    requires TearDown(s, m, D, KERNEL_DIR_START, 0)
    requires n.mem == m.mem && n.kdir == m.kdir && n.dirs == m.dirs && Inv(n) && n.own == m.own - {D}
    requires Reach(m, n, {})
    ensures DirectoryFreed(s0, n, D)
  {
    hide Reach;
    ReapEnds(s, D);
    ReachOn(s, m, n, {D}, {});
    ReachWider(s0, s, {}, {D});
    ReachOn(s0, s, n, {D}, {D});
    hide Inv, Reaped, Pde, Pte;
    assert SameUserEntries(s0, n);
    assert SameKeptPages(s0, n);
    assert SameContents(s0, n);
  }

  /** A scratch slot just mapped can be read, and the other keeps what it had. */
  lemma ScratchKept(m: Space, n: Space, E: int, slot: int, phys: int, table: int)
    requires MapsKernelPage(m, n, TMP_DIR, slot, LeafEntry(phys, KERNEL_FLAGS), table) && E in m.dirs && Slot(slot)
    requires 0 <= phys < WORD && phys / PAGE < |m.mem|
    ensures Pde(n.mem, E, TMP_DIR).present && |n.mem| == |m.mem| && n.dirs == m.dirs
    ensures Pte(n.mem, E, TMP_DIR, slot) == LeafEntry(phys, KERNEL_FLAGS)
    ensures forall u {:trigger Pte(n.mem, E, TMP_DIR, u)} :: u != slot ==>
      Pte(n.mem, E, TMP_DIR, u) == Pte(m.mem, E, TMP_DIR, u)
  {
    assert Pde(n.mem, E, TMP_DIR) == Pde(n.mem, n.kdir, TMP_DIR);
  }

  lemma LiveDirectory(s: Space, D: int, E: int)
    requires Inv(s) && D in s.dirs && E in s.dirs && D != s.kdir
    ensures 0 < D < |s.mem| <= 0x10_0000 && s.dirs != {s.kdir} && s.kdir in s.dirs
    ensures Pde(s.mem, E, TMP_DIR).present && Pde(s.mem, s.kdir, TMP_DIR).present
  {
    assert Pde(s.mem, E, TMP_DIR) == Pde(s.mem, s.kdir, TMP_DIR);
  }

  lemma ReapLeafIn(s: Space, n: Space, D: int, d: int, t: int)
    requires TearDown(s, n, D, d, t) && UserDir(d) && Slot(t)
    ensures var e := Pte(s.mem, D, d, t);
      if e.present then e.frame in n.own && n.own[e.frame] == Loose && n.own - {e.frame} == Reaped(s, D, d, t + 1)
      else n.own == Reaped(s, D, d, t + 1)
  {
    ReapLeaf(s, D, d, t);
  }

  lemma ReapTableIn(s: Space, n: Space, D: int, d: int)
    requires TearDown(s, n, D, d, 0) && UserDir(d)
    ensures var e := Pde(s.mem, D, d);
      if e.present then Reaped(s, D, d, 1024) - {e.frame} == Reaped(s, D, d + 1, 0)
      else n.own == Reaped(s, D, d + 1, 0)
  {
    ReapTable(s, D, d);
  }

  lemma TearDownLast(s: Space, n: Space, D: int)
    requires TearDown(s, n, D, KERNEL_DIR_START, 0)
    ensures D in n.own && n.own[D] == Loose && n.own - {D} == Without(s.own, D)
  {
    ReapEnds(s, D);
  }

  /** Clearing a scratch slot afterwards frees nothing and changes no user space. */
  lemma DirectoryFreedMap(s: Space, m: Space, n: Space, D: int, slot: int, E: int)
    requires DirectoryFreed(s, m, D) && MapsKernelPage(m, n, TMP_DIR, slot, ZERO, 0) && E in m.dirs
    ensures DirectoryFreed(s, n, D) && n.own == Without(s.own, D)
    ensures Pde(n.mem, E, TMP_DIR).present
  {
    hide Reach;
    ReachOn(s, m, n, {D}, {});
    assert Pde(n.mem, E, TMP_DIR) == Pde(n.mem, n.kdir, TMP_DIR);
    WithoutTables(s.own, D);
    hide Inv, Pde, Pte, Without;
    assert SameUserEntries(s, n);
    assert SameKeptPages(s, n);
    assert SameContents(s, n);
  }

  /** The frames directory D holds: its pages, its tables and itself. */
  ghost function HeldFrames(own: map<int, Owner>, D: int): set<int>
  {
    set f | f in own && HeldBy(own[f], f, D)
  }

  /** When free means unowned on both sides, the frames that became free are those D held. */
  lemma FreedByDirectory(n: int, free0: set<int>, own0: map<int, Owner>, free1: set<int>, own1: map<int, Owner>, D: int)
    requires forall f :: f in free0 || f in own0 || f in free1 ==> 0 <= f < n
    requires forall f :: 0 <= f < n ==> (f in free0 <==> f !in own0)
    requires forall f :: 0 <= f < n ==> (f in free1 <==> f !in own1)
    requires own1 == Without(own0, D)
    ensures free1 == free0 + HeldFrames(own0, D)
  {
    forall f
      ensures f in free1 <==> f in free0 || (f in own0 && HeldBy(own0[f], f, D))
    {
      if 0 <= f < n {
        assert f in own1 <==> f in own0 && !HeldBy(own0[f], f, D);
      }
    }
  }
}
