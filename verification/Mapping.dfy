/** What paging_map and paging_unmap do to an address space, as relations between states
    (kernel/arch/i386/paging.c). */
module Mapping {
  import opened Arith
  import opened Words
  import opened Paging
  import opened Address
  import opened Steps

  const USER_FLAGS := Word(0, 0, true, true, false)    // PAGE_USER | PAGE_WRITE
  const KERNEL_FLAGS := Word(0, 0, false, true, false) // PAGE_WRITE

  /** `(phys & ~0xFFF) | flags | PAGE_PRESENT` */
  function LeafEntry(phys: int, flags: Word): Word
  {
    if 0 <= phys < WORD then Word(phys / PAGE, flags.avail, flags.user, flags.write, true) else ZERO
  }

  /** What paging_map leaves behind: a table if entry d had none, and then the leaf. */
  ghost function WithTable(s: Space, D: int, d: int, table: int): Space
    requires 0 <= D < |s.mem| && 0 <= s.kdir < |s.mem| && 0 <= table < |s.mem| && Slot(d)
  {
    if Pde(s.mem, D, d).present then s
    else if UserDir(d) then AddTable(Take(s, table), D, d, table)
    else AddKernelTable(Take(s, table), d, table)
  }

  function BootEntry(directory: int, firstTable: int, d: int): Word
  {
    if d == 0 then NewTable(firstTable) else if d == WINDOW then WindowEntry(directory) else KERNEL_FLAGS
  }

  /** The address space paging_initialize sets up: directory entry 0, the window, and nothing else. */
  ghost predicate BootSpace(s: Space, first: int)
  {
    && 0 < s.kdir < |s.mem| <= 0x10_0000 && 0 < first < |s.mem| && first != s.kdir
    && s.dirs == {s.kdir} && FreeFrames(s)
    && (forall f {:trigger s.own[f]} {:trigger f in s.own} :: f in s.own ==>
          && 0 <= f < |s.mem|
          && s.own[f] == (if f == s.kdir then Directory else if f == first then KernelTable(0) else Kernel))
    && 0 in s.own && s.kdir in s.own && first in s.own
    && (forall d :: Slot(d) ==> s.mem[s.kdir][d] == BootEntry(s.kdir, first, d))
    && (forall t :: Slot(t) ==> s.mem[first][t] == NewTable(t))
  }

  lemma BootSpaceInv(s: Space, first: int)
    requires BootSpace(s, first)
    ensures Inv(s)
    ensures forall d {:trigger Pde(s.mem, s.kdir, d)} :: 0 < d < WINDOW ==> !Pde(s.mem, s.kdir, d).present
  {
  }

  /** The order of paging_map's stores does not matter to the memory they leave. */
  lemma StoresCommute(m: seq<Page>, D: int, d: int, f: int, user: bool)
    requires 0 <= D < |m| <= 0x10_0000 && 0 < f < |m| && f != D && Slot(d)
    ensures MarkUser(m[D := m[D][d := NewTable(f)]][f := ZeroPage()], D, d, user)
      == m[f := ZeroPage()][D := m[D][d := Word(f, 0, user, true, true)]]
  {
    var w := Word(f, 0, user, true, true);
    var m1 := m[D := m[D][d := NewTable(f)]][f := ZeroPage()];
    assert m1[D][d := w] == m[D][d := w];
  }

  /** A directory entry whose table frame is fresh: the stores of paging_map reach the state WithTable names. */
  lemma NewTableSteps(s: Space, D: int, d: int, table: int)
    requires Inv(s) && D in s.dirs && (UserDir(d) || KernelDir(d)) && !Pde(s.mem, D, d).present
    requires 0 < table < |s.mem| && table !in s.own
    requires KernelDir(d) ==> s.dirs == {s.kdir}
    ensures Inv(WithTable(s, D, d, table))
    ensures table != D
    ensures forall e :: Pde(WithTable(s, D, d, table).mem, D, e).present ==> e == d || Pde(s.mem, D, e).present
  {
    TakeKeepsInv(s, table);
    if UserDir(d) {
      AddTableKeepsInv(Take(s, table), D, d, table);
      AddTableEffect(Take(s, table), D, d, table);
    } else {
      AddKernelTableKeepsInv(Take(s, table), d, table);
      AddKernelTableEffect(Take(s, table), d, table);
    }
  }

  function MarkUser(m: seq<Page>, D: int, d: int, user: bool): seq<Page>
    requires 0 <= D < |m| && Slot(d)
  {
    m[D := m[D][d := Word(m[D][d].frame, m[D][d].avail, m[D][d].user || user, m[D][d].write, m[D][d].present)]]
  }

  /** What paging_map relies on about the current directory; marking a present entry again changes nothing. */
  lemma InvOpens(s: Space, D: int, d: int)
    requires Inv(s) && D in s.dirs && (UserDir(d) || KernelDir(d))
    ensures 0 <= D < |s.mem| <= 0x10_0000 && Pde(s.mem, D, WINDOW) == WindowEntry(D) && 0 in s.own && s.own[0] == Kernel
    ensures 0 <= s.kdir < |s.mem|
    ensures Pde(s.mem, D, d).present ==> MarkUser(s.mem, D, d, UserDir(d)) == s.mem
  {
    if Pde(s.mem, D, d).present {
      assert KernelDir(d) ==> Pde(s.mem, D, d) == Pde(s.mem, s.kdir, d);
      assert s.mem[D][d := s.mem[D][d]] == s.mem[D];
    }
  }

  lemma WithTableParts(s: Space, D: int, d: int, table: int)
    requires Inv(s) && D in s.dirs && (UserDir(d) || KernelDir(d)) && !Pde(s.mem, D, d).present
    requires 0 < table < |s.mem| && table != D && 0 <= D < |s.mem| && 0 <= s.kdir < |s.mem|
    requires KernelDir(d) ==> s.dirs == {s.kdir}
    ensures var n := WithTable(s, D, d, table);
      && n.mem == s.mem[table := ZeroPage()][D := s.mem[D][d := Word(table, 0, UserDir(d), true, true)]]
      && n.own == s.own[table := if UserDir(d) then Table(D, d) else KernelTable(d)]
      && n.dirs == s.dirs && n.kdir == s.kdir && n.free == s.free - {table}
  {
    assert s.own[table := Loose][table := Table(D, d)] == s.own[table := Table(D, d)];
    assert s.own[table := Loose][table := KernelTable(d)] == s.own[table := KernelTable(d)];
  }

  /** Mapping a user page: one leaf is added to one directory, with perhaps a table to hold it. */
  ghost predicate MapsPage(s: Space, n: Space, D: int, d: int, t: int, w: Word, table: int)
  {
    && SameShape(s, n)
    && Inv(n)
    && n.own == (if table == 0 then s.own else s.own[table := Table(D, d)])[w.frame := Leaf(D, d, t)]
    && (forall E, e {:trigger Pde(n.mem, E, e)} :: E in s.dirs && (E != D || e != d) ==>
          Pde(n.mem, E, e) == Pde(s.mem, E, e))
    && (forall E, e, u {:trigger Pte(n.mem, E, e, u)} :: E in s.dirs && (UserDir(e) || KernelDir(e)) ==>
          Pte(n.mem, E, e, u) == if E == D && e == d && u == t then w else Pte(s.mem, E, e, u))
    && Pde(n.mem, D, d).present
    && SamePlainPages(s, n)
    && (forall f {:trigger n.mem[f]} :: 0 <= f < |s.mem| && f !in s.own && f != table ==> n.mem[f] == s.mem[f])
    && Reach(s, n, {D})
  }

  /** Mapping a page into the shared kernel half: every live directory sees it, and no user page moves. */
  ghost predicate MapsKernelPage(s: Space, n: Space, i: int, t: int, w: Word, table: int)
  {
    && SameShape(s, n)
    && Inv(n)
    && n.own == (if table == 0 then s.own else s.own[table := KernelTable(i)])
    && (forall E, e {:trigger Pde(n.mem, E, e)} :: E in s.dirs && e != i ==> Pde(n.mem, E, e) == Pde(s.mem, E, e))
    && (forall E, e, u {:trigger Pte(n.mem, E, e, u)} :: E in s.dirs && (UserDir(e) || KernelDir(e)) ==>
          Pte(n.mem, E, e, u) == if e == i && u == t then w else Pte(s.mem, E, e, u))
    && Pde(n.mem, n.kdir, i).present
    && (forall f {:trigger n.mem[f]} :: f in s.own && 0 <= f < |s.mem| && s.own[f] != KernelTable(i) && f != s.kdir ==>
          n.mem[f] == s.mem[f])
    && (forall f {:trigger n.mem[f]} :: 0 <= f < |s.mem| && f !in s.own && f != table ==> n.mem[f] == s.mem[f])
    && (i == TMP_DIR ==> Reach(s, n, {}))
  }

  /** Frames that are still free hold what they held. */
  ghost predicate FreeSame(s: Space, n: Space)
  {
    |n.mem| == |s.mem| && n.free <= s.free && forall f {:trigger n.mem[f]} :: f in n.free && 0 <= f < |s.mem| ==>
      n.mem[f] == s.mem[f]
  }

  ghost predicate SameShape(s: Space, n: Space)
  {
    |n.mem| == |s.mem| && n.kdir == s.kdir && n.dirs == s.dirs
  }

  /** No user page, kernel page or frame in hand changes a word. */
  ghost predicate SamePlainPages(s: Space, n: Space)
    requires |n.mem| == |s.mem|
  {
    forall f {:trigger n.mem[f]} :: f in s.own && 0 <= f < |s.mem| && Plain(s.own[f]) ==> n.mem[f] == s.mem[f]
  }

  /** Directory entry d of D has a table now; no translation changed. */
  ghost predicate TableInstalled(s: Space, n: Space, D: int, d: int, table: int)
  {
    && SameShape(s, n) && Inv(n)
    && Pde(n.mem, D, d).present
    && n.own == (if table == 0 then s.own else s.own[table := if UserDir(d) then Table(D, d) else KernelTable(d)])
    && (forall E, e {:trigger Pde(n.mem, E, e)} :: E in s.dirs && (E != D || e != d) ==>
          Pde(n.mem, E, e) == Pde(s.mem, E, e))
    && (forall E, e, u {:trigger Pte(n.mem, E, e, u)} :: E in s.dirs && (UserDir(e) || KernelDir(e)) ==>
          Pte(n.mem, E, e, u) == Pte(s.mem, E, e, u))
    && (forall f {:trigger n.mem[f]} :: 0 <= f < |s.mem| && f != D && f != table ==> n.mem[f] == s.mem[f])
    && (table == 0 ==> n == s)
    && (UserDir(d) || d == TMP_DIR ==> Reach(s, n, if UserDir(d) then {D} else {}))
  }

  lemma WithTableEffect(s: Space, D: int, d: int, table: int)
    requires Inv(s) && D in s.dirs && (UserDir(d) || KernelDir(d)) && 0 <= D < |s.mem| && 0 <= s.kdir < |s.mem|
    requires 0 <= table < |s.mem|
    requires !Pde(s.mem, D, d).present ==> 0 < table && table !in s.own && (KernelDir(d) ==> s.dirs == {s.kdir})
    requires Pde(s.mem, D, d).present ==> table == 0
    requires Pde(WithTable(s, D, d, table).mem, D, d).present
    ensures TableInstalled(s, WithTable(s, D, d, table), D, d, table)
  {
    hide Reach;
    ReachSame(s, if UserDir(d) then {D} else {});
    if !Pde(s.mem, D, d).present {
      TakeKeepsInv(s, table);
      if UserDir(d) {
        ReachTable(s, D, d, table);
        AddTableKeepsInv(Take(s, table), D, d, table);
        AddTableEffect(Take(s, table), D, d, table);
      } else {
        AddKernelTableKeepsInv(Take(s, table), d, table);
        AddKernelTableEffect(Take(s, table), d, table);
        if d == TMP_DIR {
          ReachScratchTable(s, table);
        }
      }
      WithTableParts(s, D, d, table);
      hide AddTable, AddKernelTable, Inv;
    }
  }

  /** One leaf over an absent entry. */
  lemma NewLeaf(s: Space, D: int, d: int, t: int, w: Word)
    requires Inv(s) && D in s.dirs && UserDir(d) && Slot(t) && Pde(s.mem, D, d).present
    requires w.present && w.user && w.write && !Pte(s.mem, D, d, t).present && Owns(s, w.frame, Loose)
    ensures 0 <= D < |s.mem| && Pde(s.mem, D, d).frame < |s.mem|
    ensures var n := AddLeaf(s, D, d, t, w);
      && Inv(n) && Reach(s, n, {D}) && |n.mem| == |s.mem|
      && (forall E, e {:trigger Pde(n.mem, E, e)} :: E in s.dirs ==> Pde(n.mem, E, e) == Pde(s.mem, E, e))
      && (forall E, e, u {:trigger Pte(n.mem, E, e, u)} :: E in s.dirs && (UserDir(e) || KernelDir(e)) ==>
            Pte(n.mem, E, e, u) == if E == D && e == d && u == t then w else Pte(s.mem, E, e, u))
      && SamePlainPages(s, n)
      && (forall f {:trigger n.mem[f]} :: 0 <= f < |s.mem| && f !in s.own ==> n.mem[f] == s.mem[f])
  {
    hide Reach;
    AddLeafKeepsInv(s, D, d, t, w);
    PutLeafEffect(s, D, d, t, w);
    ReachOnce(s, MapLeaf(D, d, t, w), {D});
  }

  lemma MapUserSteps(s: Space, n: Space, D: int, d: int, t: int, w: Word, table: int)
    requires Inv(s) && D in s.dirs && UserDir(d) && Slot(t) && 0 <= table < |s.mem|
    requires TableInstalled(s, n, D, d, table)
    requires w.present && w.user && w.write && !Pte(s.mem, D, d, t).present && w.frame in s.own
    requires s.own[w.frame] == Loose
    requires table !in s.own || table == 0
    ensures 0 <= D < |s.mem| && Pde(n.mem, D, d).frame < |s.mem| && w.frame in n.own
    ensures var r := Space(PutLeaf(n.mem, D, d, t, w), n.kdir, n.dirs, n.own[w.frame := Leaf(D, d, t)], n.free);
      MapsPage(s, r, D, d, t, w, table) && Inv(r)
  {
    hide Inv, Pde, Pte, PutLeaf, Reach;
    assert Pte(n.mem, D, d, t) == Pte(s.mem, D, d, t);
    NewLeaf(n, D, d, t, w);
    ReachOn(s, n, AddLeaf(n, D, d, t, w), {D}, {D});
    PlainNotDirectory(s, D);
  }

  lemma PlainNotDirectory(s: Space, D: int)
    requires Inv(s) && D in s.dirs
    ensures 0 <= D < |s.mem| && D in s.own && s.own[D] == Directory
  {
  }

  lemma MapKernelSteps(s: Space, n: Space, D: int, i: int, t: int, w: Word, table: int)
    requires Inv(s) && D in s.dirs && KernelDir(i) && Slot(t) && !w.user && 0 <= table < |s.mem|
    requires TableInstalled(s, n, D, i, table) && (table != 0 ==> s.dirs == {s.kdir} && table !in s.own)
    ensures 0 <= D < |s.mem| && Pde(n.mem, D, i).frame < |s.mem|
    ensures var r := Space(PutLeaf(n.mem, D, i, t, w), n.kdir, n.dirs, n.own, n.free);
      MapsKernelPage(s, r, i, t, w, table) && Inv(r)
  {
    hide Reach;
    assert Pde(n.mem, D, i) == Pde(n.mem, n.kdir, i);
    assert Owns(n, Pde(n.mem, n.kdir, i).frame, KernelTable(i));
    assert Pde(n.mem, n.kdir, i).present;
    PutKernelLeafKeepsInv(n, i, t, w);
    PutKernelLeafEffect(n, i, t, w);
    assert PutLeaf(n.mem, D, i, t, w) == PutKernelLeaf(n, i, t, w).mem;
    if i == TMP_DIR {
      ReachOnce(n, MapScratch(t, w), {});
      ReachOn(s, n, PutKernelLeaf(n, i, t, w), {}, {});
    }
  }

  /** The two halves of paging_map together: a table where it was missing, then the leaf. */
  lemma MapSteps(s: Space, D: int, d: int, t: int, w: Word, table: int)
    requires Inv(s) && D in s.dirs && (UserDir(d) || KernelDir(d)) && 0 <= D < |s.mem| && 0 <= s.kdir < |s.mem|
    requires Slot(t) && 0 <= table < |s.mem|
    requires !Pde(s.mem, D, d).present ==> 0 < table && table !in s.own && (KernelDir(d) ==> s.dirs == {s.kdir})
    requires Pde(s.mem, D, d).present ==> table == 0
    requires Pde(WithTable(s, D, d, table).mem, D, d).present
    requires UserDir(d) ==>
      w.present && w.user && w.write && !Pte(s.mem, D, d, t).present && w.frame in s.own && s.own[w.frame] == Loose
    requires KernelDir(d) ==> !w.user
    ensures Pde(WithTable(s, D, d, table).mem, D, d).frame < |s.mem|
    ensures var n := WithTable(s, D, d, table);
      var m := PutLeaf(n.mem, D, d, t, w);
      && (UserDir(d) ==>
            MapsPage(s, Space(m, n.kdir, n.dirs, n.own[w.frame := Leaf(D, d, t)], n.free), D, d, t, w, table))
      && (KernelDir(d) ==> MapsKernelPage(s, Space(m, n.kdir, n.dirs, n.own, n.free), d, t, w, table))
      && (UserDir(d) ==> w.frame in n.own && Inv(Space(m, n.kdir, n.dirs, n.own[w.frame := Leaf(D, d, t)], n.free)))
      && (KernelDir(d) ==> Inv(Space(m, n.kdir, n.dirs, n.own, n.free)))
  {
    hide Inv, Pde, Pte, PutLeaf, MapsPage, MapsKernelPage, Reach;
    var n := WithTable(s, D, d, table);
    WithTableEffect(s, D, d, table);
    assert TableInstalled(s, n, D, d, table);
    hide TableInstalled, WithTable;
    if UserDir(d) {
      MapUserSteps(s, n, D, d, t, w, table);
    } else {
      MapKernelSteps(s, n, D, d, t, w, table);
    }
  }

  /** Unmapping a user page: one leaf disappears and its frame is back in hand. */
  ghost predicate UnmapsPage(s: Space, n: Space, D: int, d: int, t: int)
  {
    && SameShape(s, n)
    && Inv(n)
    && n.own == s.own[Pte(s.mem, D, d, t).frame := Loose]
    && (forall E, e {:trigger Pde(n.mem, E, e)} :: E in s.dirs ==> Pde(n.mem, E, e) == Pde(s.mem, E, e))
    && (forall E, e, u {:trigger Pte(n.mem, E, e, u)} :: E in s.dirs && (UserDir(e) || KernelDir(e)) ==>
          Pte(n.mem, E, e, u) == if E == D && e == d && u == t then ZERO else Pte(s.mem, E, e, u))
    && SamePlainPages(s, n)
    && Reach(s, n, {D})
  }

  lemma OldLeaf(s: Space, D: int, d: int, t: int)
    requires Inv(s) && D in s.dirs && UserDir(d) && 0 <= D < |s.mem| && Slot(t)
    requires Pde(s.mem, D, d).present && Pte(s.mem, D, d, t).present
    ensures Pde(s.mem, D, d).frame < |s.mem| && UnmapsPage(s, RemoveLeaf(s, D, d, t), D, d, t)
    ensures Inv(RemoveLeaf(s, D, d, t)) && Pte(s.mem, D, d, t).frame in s.own
  {
    hide Reach;
    RemoveLeafKeepsInv(s, D, d, t);
    PutLeafEffect(s, D, d, t, ZERO);
    ReachOnce(s, UnmapLeaf(D, d, t), {D});
  }

  lemma UnmapSteps(s: Space, D: int, d: int, t: int)
    requires Inv(s) && D in s.dirs && (UserDir(d) || KernelDir(d)) && 0 <= D < |s.mem| && Slot(t)
    requires Pde(s.mem, D, d).present
    requires UserDir(d) ==> Pte(s.mem, D, d, t).present
    ensures Pde(s.mem, D, d).frame < |s.mem|
    ensures var m := PutLeaf(s.mem, D, d, t, ZERO);
      var n := Space(m, s.kdir, s.dirs, s.own[Pte(s.mem, D, d, t).frame := Loose], s.free);
      && (UserDir(d) ==> UnmapsPage(s, n, D, d, t) && Inv(n) && Pte(s.mem, D, d, t).frame in s.own)
      && (KernelDir(d) ==> MapsKernelPage(s, Space(m, s.kdir, s.dirs, s.own, s.free), d, t, ZERO, 0))
      && (KernelDir(d) ==> Inv(Space(m, s.kdir, s.dirs, s.own, s.free)))
  {
    hide Reach;
    if UserDir(d) {
      hide Inv, Pde, Pte, PutLeaf;
      OldLeaf(s, D, d, t);
    } else {
      PutKernelLeafKeepsInv(s, d, t, ZERO);
      PutKernelLeafEffect(s, d, t, ZERO);
      if d == TMP_DIR {
        ReachOnce(s, MapScratch(t, ZERO), {});
      }
    }
  }

  lemma EntriesInRange(s: Space, D: int, d: int)
    requires Inv(s) && D in s.dirs && Slot(d)
    ensures 0 <= D < |s.mem| <= 0x10_0000 && Pde(s.mem, D, WINDOW) == WindowEntry(D)
    ensures Pde(s.mem, D, d).present ==> Pde(s.mem, D, d).frame < |s.mem|
  {
    if KernelDir(d) {
      assert Pde(s.mem, D, d) == Pde(s.mem, s.kdir, d);
    }
  }

  /** User mode may access va: both levels are present and user-accessible. */
  predicate UserReaches(mem: seq<Page>, cr3: int, va: int)
  {
    && Pde(mem, cr3, DirOf(va)).present && Pde(mem, cr3, DirOf(va)).user
    && WalkEntry(mem, cr3, va).present && WalkEntry(mem, cr3, va).user
  }

  /** User mode may also store there: both levels are writable. */
  predicate UserWrites(mem: seq<Page>, cr3: int, va: int)
  {
    UserReaches(mem, cr3, va) && Pde(mem, cr3, DirOf(va)).write && WalkEntry(mem, cr3, va).write
  }
}
