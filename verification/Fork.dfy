/** The address-space half of process_fork: copy every user page of the current directory, then install the
    copies in a new directory, or give everything back (kernel/arch/i386/process.c). */
module Fork {
  import opened Arith
  import opened Words
  import opened Paging
  import opened Address
  import opened Mapping
  import opened Directories
  import opened Steps
  import opened ForkSteps
  import opened Machine

  /** The fresh frame becomes a copy of the page at (d, t) of the current directory. */
  method CopyOnePage(m: Machine, d: int, t: int, frame: int, ghost list: seq<CopyEntry>, ghost s: Space, ghost n: Space,
                     ghost idx: map<(int, int), int>)
    requires m.Valid() && UserDir(d) && Slot(t) && Pte(s.mem, m.cr3, d, t).present
    requires CopyState(s, n, m.cr3, list, idx, d, t)
    requires 0 < frame < WORD && frame % PAGE == 0 && 0 < frame / PAGE < |m.mem| && frame / PAGE !in n.own
    requires m.S() == Take(n, frame / PAGE) && Pde(m.mem, m.cr3, TMP_DIR).present
    modifies m`mem, m`own, m.pmm, m.pmm.bitmap
    ensures m.Valid() && m.pmm.free == old(m.pmm.free)
    ensures CopyState(s, m.S(), m.cr3, list + [CopyEntry(d, t, frame / PAGE, Flags(Pte(s.mem, m.cr3, d, t)))],
                      idx[(d, t) := |list|], d, t + 1)
    ensures Pde(m.mem, m.cr3, TMP_DIR).present && Pde(m.mem, m.cr3, d).present
  {
    hide Inv, Machine.Valid, CopyState, MapsKernelPage, Pte, Pde, DirOf, TableOf, WordOf;
    ValidParts(m);
    ScanSource(s, n, m.cr3, list, idx, d, t);
    CopyStateFacts(s, n, m.cr3, list, idx, d, t);
    ghost var table := m.TmpMap(TMP_SLOT, frame);
    ghost var n2 := m.S();
    CopyReady(n, n2, m.cr3, d, t, frame / PAGE, Pte(s.mem, m.cr3, d, t).frame);
    ScratchKept(Take(n, frame / PAGE), n2, m.cr3, TMP_SLOT, frame, table);
    PageAddress(d, t, 0);
    ScratchAddresses();
    label mapped:
    m.CopyPage(TMP_VIRT, d * 0x40_0000 + t * 0x1000);
    FillLeavesWalk(n2, m.cr3, frame / PAGE, m.mem);
    CopyStep(s, n, n2, m.S(), m.cr3, list, idx, d, t, frame / PAGE);
    CopyStateFacts(s, m.S(), m.cr3, list + [CopyEntry(d, t, frame / PAGE, Flags(Pte(s.mem, m.cr3, d, t)))],
                   idx[(d, t) := |list|], d, t + 1);
    ValidStays@mapped(m);
  }

  /** The inner loop of phase 1: one page table. */
  method CopyTable(m: Machine, d: int, list0: seq<CopyEntry>, ghost s: Space, ghost idx0: map<(int, int), int>)
    returns (ok: bool, list: seq<CopyEntry>, ghost idx: map<(int, int), int>, ghost t: int)
    requires m.Valid() && 0 <= d < KERNEL_DIR_START
    requires CopyState(s, m.S(), m.cr3, list0, idx0, d, 0)
    requires Pde(m.mem, m.cr3, d).present && Pde(m.mem, m.cr3, TMP_DIR).present
    requires |list0| <= MAX_COPY_PAGES
    modifies m`mem, m`own, m.pmm, m.pmm.bitmap
    ensures m.Valid() && Pde(m.mem, m.cr3, TMP_DIR).present
    ensures 0 <= t <= 1024 && CopyState(s, m.S(), m.cr3, list, idx, d, t)
    ensures ok ==> t == 1024
    ensures |list| <= MAX_COPY_PAGES && |list| - |list0| == |old(m.pmm.free)| - |m.pmm.free|
    ensures m.pmm.free <= old(m.pmm.free)
    ensures !ok ==> |list| < |UserPages(s.mem, m.cr3)| && (|list| == MAX_COPY_PAGES || m.pmm.free == {})
  {
    hide Inv, CopyState, MapsKernelPage, Pte, Pde, Take, DirOf, TableOf;
    list, idx, t := list0, idx0, 0;
    var i := 0;
    while i < 1024
      invariant 0 <= i <= 1024 && t == i
      invariant m.Valid() && Pde(m.mem, m.cr3, d).present && Pde(m.mem, m.cr3, TMP_DIR).present
      invariant CopyState(s, m.S(), m.cr3, list, idx, d, t)
      invariant |list| <= MAX_COPY_PAGES && |list| - |list0| == |old(m.pmm.free)| - |m.pmm.free|
      invariant m.pmm.free <= old(m.pmm.free)
    {
      ScanReads(s, m.S(), m.cr3, list, idx, d, i);
      var pte := m.ReadPt(d, i);
      if !pte.present || !pte.user {
        CopySkips(s, m.S(), m.cr3, list, idx, d, i);
      } else {
        PagesLeft(s, m.S(), m.cr3, list, idx, d, i);
        if |list| >= MAX_COPY_PAGES {
          return false, list, idx, t;
        }
        ghost var n := m.S();
        var frame := m.AllocFrame();
        if frame == 0 {
          return false, list, idx, t;
        }
        CopyOnePage(m, d, i, frame, list, s, n, idx);
        list, idx := list + [CopyEntry(d, i, frame / PAGE, Flags(pte))], idx[(d, i) := |list|];
      }
      i, t := i + 1, t + 1;
    }
    ok := true;
  }

  /** Phase 1: walk the user half of the current directory and copy every user page into a fresh frame. */
  method CopyUserPages(m: Machine, ghost s: Space)
    returns (ok: bool, list: seq<CopyEntry>, ghost idx: map<(int, int), int>, ghost d: int, ghost t: int)
    requires m.Valid() && s == m.S() && Pde(m.mem, m.cr3, TMP_DIR).present
    modifies m`mem, m`own, m.pmm, m.pmm.bitmap
    ensures m.Valid() && Pde(m.mem, m.cr3, TMP_DIR).present
    ensures CopyState(s, m.S(), m.cr3, list, idx, d, t)
    ensures ok ==> d == KERNEL_DIR_START && t == 0
    ensures |list| == |old(m.pmm.free)| - |m.pmm.free| && m.pmm.free <= old(m.pmm.free)
    ensures ok <==> |UserPages(s.mem, m.cr3)| <= MAX_COPY_PAGES && |UserPages(s.mem, m.cr3)| <= |old(m.pmm.free)|
    ensures ok ==> |list| == |UserPages(s.mem, m.cr3)|
  {
    hide Inv, CopyState, MapsKernelPage, Pte, Pde, UserPages;
    list, idx, d, t := [], map[], 0, 0;
    CopyStarts(s, m.cr3);
    var e := 0;
    while e < KERNEL_DIR_START
      invariant 0 <= e <= KERNEL_DIR_START && d == e && t == 0
      invariant m.Valid() && Pde(m.mem, m.cr3, TMP_DIR).present
      invariant CopyState(s, m.S(), m.cr3, list, idx, d, 0)
      invariant |list| <= MAX_COPY_PAGES && |list| == |old(m.pmm.free)| - |m.pmm.free|
      invariant m.pmm.free <= old(m.pmm.free)
    {
      ScanReads(s, m.S(), m.cr3, list, idx, e, 0);
      var pde := m.ReadPd(e);
      if pde.present {
        ok, list, idx, t := CopyTable(m, e, list, s, idx);
        if !ok {
          return;
        }
        CopySkipsTable(s, m.S(), m.cr3, list, idx, e, 1024);
      } else {
        BootEntryPresent(s, m.S(), m.cr3, list, idx, e);
        CopySkipsTable(s, m.S(), m.cr3, list, idx, e, 0);
      }
      e, d, t := e + 1, d + 1, 0;
    }
    PagesLeft(s, m.S(), m.cr3, list, idx, d, 0);
    ok := true;
  }

  /** One turn of the loop of phase 2. */
  method InstallOne(m: Machine, c: CopyEntry, ghost s: Space, ghost p: Space, ghost P: int, ghost list: seq<CopyEntry>,
                    ghost idx: map<(int, int), int>, ghost k: int, ghost supply: nat)
    requires m.Valid() && CopyState(s, p, P, list, idx, KERNEL_DIR_START, 0) && m.cr3 in s.dirs
    requires InstallState(s, p, m.S(), m.cr3, list, idx, k) && StillPlain(p, m.S()) && 0 <= k < |list| && c == list[k]
    requires |m.pmm.free| + |DirsOf(list, k)| == supply >= |DirsOf(list, |list|)|
    modifies m`mem, m`own, m.pmm, m.pmm.bitmap
    ensures m.Valid() && m.pmm.free <= old(m.pmm.free)
    ensures InstallState(s, p, m.S(), m.cr3, list, idx, k + 1) && StillPlain(p, m.S())
    ensures |m.pmm.free| + |DirsOf(list, k + 1)| == supply
  {
    hide Inv, CopyState, InstallState, StillPlain, MapsPage, Pte, Pde, DirsOf, DirOf, TableOf, Listed;
    ListFacts(s, p, P, list, idx);
    ElementFacts(s, p, P, list, idx, k);
    ghost var n := m.S();
    InstallFacts(s, p, n, m.cr3, list, idx, k, |m.pmm.free|, supply);
    PageAddress(c.d, c.t, 0);
    ghost var table := m.PagingMap(c.d * 0x40_0000 + c.t * 0x1000, c.frame * PAGE, c.flags);
    InstallStep(s, p, n, m.S(), m.cr3, list, idx, k, table);
    DirsGrow(list, k);
  }

  /** Phase 2: switch to the child, install every copy, switch back. */
  method InstallCopies(m: Machine, child: int, list: seq<CopyEntry>, ghost s: Space, ghost idx: map<(int, int), int>)
    requires m.Valid() && child % PAGE == 0 && child / PAGE in s.dirs && s.dirs == m.dirs
    requires CopyState(s, m.S(), m.cr3, list, idx, KERNEL_DIR_START, 0)
    requires forall e {:trigger Pde(s.mem, child / PAGE, e)} :: UserDir(e) ==> Pde(s.mem, child / PAGE, e) == ZERO
    requires |m.pmm.free| >= |DirsOf(list, |list|)|
    modifies m`mem, m`own, m`cr3, m.pmm, m.pmm.bitmap
    ensures m.Valid() && m.cr3 == old(m.cr3)
    ensures InstallState(s, old(m.S()), m.S(), child / PAGE, list, idx, |list|) && StillPlain(old(m.S()), m.S())
    ensures m.pmm.free <= old(m.pmm.free)
  {
    hide Inv, CopyState, InstallState, StillPlain, Pte, Pde, DirsOf;
    ghost var c := m.S();
    ghost var C := child / PAGE;
    ghost var P := m.cr3;
    var saved := m.cr3;
    InstallStarts(s, c, P, C, list, idx);
    m.SwitchDirectory(child);
    ghost var supply := |m.pmm.free|;
    for k := 0 to |list|
      invariant m.Valid() && m.cr3 == C
      invariant InstallState(s, c, m.S(), C, list, idx, k) && StillPlain(c, m.S())
      invariant |m.pmm.free| + |DirsOf(list, k)| == supply
      invariant m.pmm.free <= old(m.pmm.free)
    {
      InstallOne(m, list[k], s, c, P, list, idx, k, supply);
    }
    m.SwitchDirectory(saved * PAGE);
  }

  /** The out_of_slots path: the copies go back, then the directory. */
  method AbandonFork(m: Machine, child: int, list: seq<CopyEntry>, ghost s0: Space, ghost s: Space, ghost table: int,
                     ghost idx: map<(int, int), int>, ghost d: int, ghost t: int)
    requires m.Valid() && Inv(s0) && m.cr3 in s0.dirs
    requires child % PAGE == 0 && NewDirectoryMade(s0, s, child / PAGE, table)
    requires table != child / PAGE && (table == 0 || table !in s0.own)
    requires CopyState(s, m.S(), m.cr3, list, idx, d, t)
    modifies m`mem, m`own, m`dirs, m.pmm, m.pmm.bitmap
    ensures m.Valid() && Unchanged(s0, m.S(), table)
  {
    hide Inv, CopyState, NewDirectoryMade, Unchanged, DirectoryFreed, Pte, Pde, FramesOf, WithLoose, Reach;
    ghost var c := m.S();
    ReachSame(c, {});
    AbandonFacts(s0, s, c, m.cr3, child / PAGE, table, list, idx, d, t);
    assert list[0..] == list;
    for k := 0 to |list|
      invariant m.Valid()
      invariant m.mem == c.mem && m.dirs == c.dirs
      invariant m.own == WithLoose(s.own, FramesOf(list[k..]))
      invariant Reach(c, m.S(), {})
    {
      ghost var y := m.S();
      DropCopy(s.own, list, k);
      FrameAddress(list[k].frame);
      m.FreeFrame(list[k].frame * PAGE);
      ReachOn(c, y, m.S(), {}, {});
    }
    WithLooseNothing(s.own, list);
    ghost var x := m.S();
    m.FreeDirectory(child);
    ForkUndone(s0, s, c, x, m.S(), m.cr3, child / PAGE, table, list, idx, d, t);
  }

  /** How many frames are left for pages and tables once fork has its directory (and scratch table). */
  ghost function FramesLeft(free: int, scratch: bool): int
  {
    free - 1 - (if scratch then 0 else 1)
  }

  /** The address-space half of process_fork: the child's directory, or 0. */
  method ForkSpace(m: Machine) returns (child: int, ghost table: int)
    requires m.Valid()
    requires Pde(m.mem, m.cr3, TMP_DIR).present || (m.dirs == {m.kdir} && |m.pmm.free| >= 2)
    // The page tables of phase 2 are allocated without a check.
    requires var left := FramesLeft(|m.pmm.free|, Pde(m.mem, m.cr3, TMP_DIR).present);
      var pages := |UserPages(m.mem, m.cr3)|;
      pages <= MAX_COPY_PAGES && pages <= left ==> left - pages >= |UserTables(m.mem, m.cr3)|
    modifies m`mem, m`own, m`dirs, m`cr3, m.pmm, m.pmm.bitmap
    ensures m.Valid() && m.cr3 == old(m.cr3)
    ensures child != 0 <==>
      var pages := |UserPages(old(m.mem), m.cr3)|;
      pages <= MAX_COPY_PAGES && pages <= FramesLeft(|old(m.pmm.free)|, Pde(old(m.mem), m.cr3, TMP_DIR).present)
    ensures child != 0 ==> child % PAGE == 0 && 0 < child < WORD && Forked(old(m.S()), m.S(), m.cr3, child / PAGE)
    ensures child == 0 ==> Unchanged(old(m.S()), m.S(), table)
    ensures table == 0 || table !in old(m.own)
  {
    hide Inv, CopyState, InstallState, StillPlain, NewDirectoryMade, NewDirectoryFailed, Unchanged, Forked, Pte, Pde,
         UserPages, UserTables, DirsOf;
    ghost var s0 := m.S();
    child, table := m.NewDirectory();
    if child == 0 {
      FailedIsUnchanged(s0, m.S());
      table := 0;
      return;
    }
    ghost var s := m.S();
    ghost var P := m.cr3;
    FreshFacts(s0, s, P, child / PAGE, table);
    FrameArithmetic(old(m.pmm.free), m.pmm.free, child / PAGE, table);
    var ok, list; ghost var idx, d, t;
    ok, list, idx, d, t := CopyUserPages(m, s);
    if !ok {
      AbandonFork(m, child, list, s0, s, table, idx, d, t);
      child := 0;
      return;
    }
    ghost var c := m.S();
    TablesNeeded(s, c, P, list, idx);
    InstallCopies(m, child, list, s, idx);
    ForkDone(s0, s, c, m.S(), P, child / PAGE, table, list, idx);
  }
}
