/** Operations that change one address space only: mapping a zeroed page, unmapping one, storing bytes. */
module UserMap {
  import opened Arith
  import opened Words
  import opened Paging
  import opened Address
  import opened Mapping
  import opened UserSpace
  import opened Steps
  import opened Machine

  /** The frame is a page or a page table of directory D. */
  predicate HeldInside(o: Owner, D: int)
  {
    (o.Leaf? && o.dir == D) || (o.Table? && o.dir == D)
  }

  /** From s to n only the user half of directory D may have changed: no other directory's entries or pages,
      and no frame that D does not hold. */
  ghost predicate OnlySpace(s: Space, n: Space, D: int)
  {
    && SameShape(s, n) && Inv(n)
    && (forall E, e {:trigger Pde(n.mem, E, e)} :: E in s.dirs && E != D && UserDir(e) ==>
      Pde(n.mem, E, e) == Pde(s.mem, E, e))
    && (forall E, e, u {:trigger Pte(n.mem, E, e, u)} :: E in s.dirs && E != D && UserDir(e) ==>
          Pte(n.mem, E, e, u) == Pte(s.mem, E, e, u))
    && (forall f {:trigger f in n.own} :: f in s.own && !HeldInside(s.own[f], D) ==> f in n.own && n.own[f] == s.own[f])
    && (forall f {:trigger f in s.own} {:trigger n.own[f]} :: f in n.own && !HeldInside(n.own[f], D) ==>
          f in s.own && s.own[f] == n.own[f])
    && (forall f {:trigger n.mem[f]} :: f in s.own && 0 <= f < |s.mem| ==>
          (Plain(s.own[f]) && !HeldInside(s.own[f], D) ==> n.mem[f] == s.mem[f]))
    && Reach(s, n, {D})
  }

  lemma OnlySpaceRefl(s: Space, D: int)
    requires Inv(s)
    ensures OnlySpace(s, s, D)
  {
    ReachSame(s, {D});
  }

  lemma OnlySpaceTrans(a: Space, b: Space, c: Space, D: int)
    requires OnlySpace(a, b, D) && OnlySpace(b, c, D)
    ensures OnlySpace(a, c, D)
  {
    hide Inv, Pte, Pde, Reach;
    ReachOn(a, b, c, {D}, {D});
    forall f | f in a.own && !HeldInside(a.own[f], D)
      ensures f in c.own && c.own[f] == a.own[f]
      ensures 0 <= f < |a.mem| && Plain(a.own[f]) ==> c.mem[f] == a.mem[f]
    {
      assert f in b.own && b.own[f] == a.own[f];
    }
    forall f | f in c.own && !HeldInside(c.own[f], D)
      ensures f in a.own && a.own[f] == c.own[f]
    {
      assert f in b.own && b.own[f] == c.own[f];
    }
  }

  /** Only the user half of D may have changed, and what it took from the free frames has not been given back: those
      still free hold what they held. */
  ghost predicate Draws(s: Space, n: Space, D: int)
  {
    OnlySpace(s, n, D) && FreeSame(s, n)
  }

  lemma DrawsRefl(s: Space, D: int)
    requires Inv(s)
    ensures Draws(s, s, D)
  {
    hide Inv, OnlySpace;
    OnlySpaceRefl(s, D);
  }

  lemma DrawsTrans(a: Space, b: Space, c: Space, D: int)
    requires Draws(a, b, D) && Draws(b, c, D)
    ensures Draws(a, c, D)
  {
    hide OnlySpace, FreeSame;
    OnlySpaceTrans(a, b, c, D);
    FreeSameTrans(a, b, c);
  }

  lemma FreeSameTrans(a: Space, b: Space, c: Space)
    requires FreeSame(a, b) && FreeSame(b, c)
    ensures FreeSame(a, c)
  {
    forall f | f in c.free && 0 <= f < |a.mem|
      ensures c.mem[f] == a.mem[f]
    {
      assert b.mem[f] == a.mem[f];
    }
  }

  /** Every other address space shows the same bytes. */
  lemma OnlySpaceImages(s: Space, n: Space, D: int, E: int)
    requires Inv(s) && OnlySpace(s, n, D) && E in s.dirs && E != D
    ensures Image(n.mem, E) == Image(s.mem, E)
  {
    ImageRange(s.mem, E);
    ImageRange(n.mem, E);
    forall va | 0 <= va < WORD
      ensures va in Image(n.mem, E) <==> va in Image(s.mem, E)
      ensures va in Image(s.mem, E) ==> Image(n.mem, E)[va] == Image(s.mem, E)[va]
    {
      OnlySpaceAt(s, n, D, E, va);
    }
    SameKeys(Image(n.mem, E), Image(s.mem, E));
  }

  lemma OnlySpaceAt(s: Space, n: Space, D: int, E: int, va: int)
    requires Inv(s) && OnlySpace(s, n, D) && E in s.dirs && E != D && 0 <= va < WORD
    ensures va in Image(n.mem, E) <==> va in Image(s.mem, E)
    ensures va in Image(s.mem, E) ==> Image(n.mem, E)[va] == Image(s.mem, E)[va]
  {
    hide Inv, Image, DirOf, TableOf, WordOf, Pte, Pde, GetByte;
    ImageAt(s, E, va);
    OnlySpaceInv(s, n, D);
    ImageAt(n, E, va);
    if UserDir(DirOf(va)) {
      assert Pte(n.mem, E, DirOf(va), TableOf(va)) == Pte(s.mem, E, DirOf(va), TableOf(va));
    }
  }

  lemma OnlySpaceInv(s: Space, n: Space, D: int)
    requires OnlySpace(s, n, D)
    ensures Inv(n) && n.dirs == s.dirs && |n.mem| == |s.mem| && n.kdir == s.kdir
  {
  }

  /** The directory entries of D that already have a page table. */
  ghost function TablesOf(mem: seq<Page>, D: int): set<int>
  {
    set d | 1 <= d < KERNEL_DIR_START && Pde(mem, D, d).present
  }

  lemma HasTable(mem: seq<Page>, D: int, d: int)
    requires UserDir(d)
    ensures d in TablesOf(mem, D) <==> Pde(mem, D, d).present
  {
  }

  /** Mapping these absent pages in turn never runs out of frames at the one allocation that is not checked, the
      page table's: `free` frames are left and `have` lists the directory entries that have a table. */
  ghost predicate TablesHold(pages: seq<int>, free: int, have: set<int>)
  {
    if pages == [] || free <= 0 then true
    else if DirOf(pages[0]) in have then TablesHold(pages[1..], free - 1, have)
    else free >= 2 && TablesHold(pages[1..], free - 2, have + {DirOf(pages[0])})
  }

  /** The frames left once all these absent pages are mapped; negative if there are not enough. */
  ghost function Left(pages: seq<int>, free: int, have: set<int>): int
  {
    if pages == [] then free
    else if DirOf(pages[0]) in have then Left(pages[1..], free - 1, have)
    else Left(pages[1..], free - 2, have + {DirOf(pages[0])})
  }

  lemma SupplyStep(a: int, rest: seq<int>, free: int, have: set<int>)
    ensures Left([a] + rest, free, have) ==
      if DirOf(a) in have then Left(rest, free - 1, have) else Left(rest, free - 2, have + {DirOf(a)})
    ensures TablesHold([a] + rest, free, have) && free > 0 ==>
      if DirOf(a) in have then TablesHold(rest, free - 1, have)
      else free >= 2 && TablesHold(rest, free - 2, have + {DirOf(a)})
  {
    assert ([a] + rest)[1..] == rest;
  }

  /** A zeroed page is mapped at (d, t) of D: in s it was absent. */
  ghost predicate ZeroPageMapped(s: Space, n: Space, D: int, d: int, t: int)
  {
    && OnlySpace(s, n, D) && FreeSame(s, n)
    && (forall e, u {:trigger Pte(n.mem, D, e, u)} :: UserDir(e) && (e != d || u != t) ==>
      Pte(n.mem, D, e, u) == Pte(s.mem, D, e, u))
    && Pte(n.mem, D, d, t).present && Flags(Pte(n.mem, D, d, t)) == Word(0, 0, true, true, true)
    && Image(n.mem, D) == Image(s.mem, D) + PageBytes(ZeroPage(), d, t)
    && TablesOf(n.mem, D) == TablesOf(s.mem, D) + {d}
  }

  /** The steps of mapping and clearing a page, after its frame f was taken. */
  lemma ZeroPageSteps(s: Space, n2: Space, n: Space, D: int, d: int, t: int, f: int, table: int)
    requires Inv(s) && D in s.dirs && UserDir(d) && Slot(t) && !Pte(s.mem, D, d, t).present
    requires 0 < f < |s.mem| && f !in s.own && (table == 0 || (table !in s.own && table != f))
    requires table == 0 <==> Pde(s.mem, D, d).present
    requires MapsPage(Take(s, f), n2, D, d, t, LeafEntry(f * PAGE, USER_FLAGS), table)
    requires n == Fill(n2, f, ZeroPage())
    ensures ZeroPageMapped(s, n, D, d, t)
  {
    hide Inv, Image, PageBytes, MapsPage, OnlySpace, Fill, Pte, Pde, TablesOf, FreeSame;
    var w := LeafEntry(f * PAGE, USER_FLAGS);
    InvBounds(s);
    AddressFrame(f * PAGE);
    assert w == Word(f, 0, true, true, true);
    TakeKeepsInv(s, f);
    MappedEntry(Take(s, f), n2, D, d, t, w, table);
    ImageMapped(Take(s, f), n2, D, d, t, w, table, D);
    ImageFilled(n2, D, d, t, ZeroPage(), D);
    PageBytesCover(s.mem[f], d, t);
    assert Image(s.mem, D) + PageBytes(s.mem[f], d, t) + PageBytes(ZeroPage(), d, t) ==
      Image(s.mem, D) + PageBytes(ZeroPage(), d, t);
    ZeroPageOnly(s, n2, n, D, d, t, f, table);
    MappedFree(s, n2, D, d, t, f, table);
    FilledFree(s, n2, f, ZeroPage());
    ZeroPageEntries(s, n2, n, D, d, t, f, table);
  }

  lemma PageBytesCover(p: Page, d: int, t: int)
    ensures PageBytes(p, d, t).Keys == PageBytes(ZeroPage(), d, t).Keys
  {
  }

  lemma MappedEntry(s: Space, n: Space, D: int, d: int, t: int, w: Word, table: int)
    requires MapsPage(s, n, D, d, t, w, table) && D in s.dirs && UserDir(d) && Slot(t)
    requires Inv(s) && w.frame in s.own && s.own[w.frame] == Loose
    ensures Inv(n) && D in n.dirs && n.dirs == s.dirs && Pte(n.mem, D, d, t) == w && Owns(n, w.frame, Leaf(D, d, t))
    ensures 0 <= w.frame < |n.mem| && |n.mem| == |s.mem| && n.mem[w.frame] == s.mem[w.frame]
  {
  }

  lemma ZeroPageOnly(s: Space, n2: Space, n: Space, D: int, d: int, t: int, f: int, table: int)
    requires Inv(s) && D in s.dirs && UserDir(d) && Slot(t) && 0 < f < |s.mem| && f !in s.own
    requires table == 0 || (table !in s.own && table != f)
    requires MapsPage(Take(s, f), n2, D, d, t, LeafEntry(f * PAGE, USER_FLAGS), table)
    requires n == Fill(n2, f, ZeroPage())
    ensures OnlySpace(s, n, D)
  {
    hide Inv, OnlySpace, MapsPage, Fill;
    TakeKeepsInv(s, f);
    MappedOnly(s, n2, D, d, t, f, table);
    AddressFrame(f * PAGE);
    InvBounds(s);
    MappedEntry(Take(s, f), n2, D, d, t, LeafEntry(f * PAGE, USER_FLAGS), table);
    FillOnly(n2, f, ZeroPage(), D, d, t);
    OnlySpaceTrans(s, n2, n, D);
  }

  /** Overwriting one of D's own pages touches no other space. */
  lemma FillOnly(s: Space, f: int, p: Page, D: int, d: int, t: int)
    requires Inv(s) && D in s.dirs && Owns(s, f, Leaf(D, d, t)) && 0 <= f < |s.mem|
    ensures OnlySpace(s, Fill(s, f, p), D)
  {
    hide Inv, Reach, Pte, Pde;
    FillKeepsInv(s, f, p);
    FillEffect(s, f, p);
    ReachFill(s, f, p, {D});
  }

  lemma ZeroPageEntries(s: Space, n2: Space, n: Space, D: int, d: int, t: int, f: int, table: int)
    requires Inv(s) && D in s.dirs && UserDir(d) && Slot(t) && 0 < f < |s.mem| && f !in s.own
    requires MapsPage(Take(s, f), n2, D, d, t, LeafEntry(f * PAGE, USER_FLAGS), table)
    requires n == Fill(n2, f, ZeroPage())
    ensures forall e, u {:trigger Pte(n.mem, D, e, u)} :: UserDir(e) && (e != d || u != t) ==>
      Pte(n.mem, D, e, u) == Pte(s.mem, D, e, u)
    ensures Pte(n.mem, D, d, t) == LeafEntry(f * PAGE, USER_FLAGS)
    ensures TablesOf(n.mem, D) == TablesOf(s.mem, D) + {d}
    ensures d in TablesOf(s.mem, D) <==> Pde(s.mem, D, d).present
  {
    FillEffect(n2, f, ZeroPage());
    forall e | UserDir(e)
      ensures Pde(n.mem, D, e).present <==> e == d || Pde(s.mem, D, e).present
    {
    }
  }

  /** `frame = pmm_alloc_frame(); paging_map(a, frame, PAGE_USER | PAGE_WRITE); memset(a, 0, 0x1000);`
      Only the first of the two allocations is checked. */
  method MapZeroPage(m: Machine, a: int) returns (ok: bool)
    requires m.Valid() && 0 <= a < WORD && a % PAGE == 0 && UserDir(DirOf(a))
    requires !WalkEntry(m.mem, m.cr3, a).present
    requires m.pmm.free == {} || Pde(m.mem, m.cr3, DirOf(a)).present || |m.pmm.free| >= 2
    modifies m`mem, m`own, m.pmm, m.pmm.bitmap
    ensures m.Valid()
    ensures ok <==> old(m.pmm.free) != {}
    ensures !ok ==> m.S() == old(m.S()) && m.pmm.free == old(m.pmm.free)
    ensures ok ==> ZeroPageMapped(old(m.S()), m.S(), m.cr3, DirOf(a), TableOf(a))
    ensures ok ==> |m.pmm.free| == |old(m.pmm.free)| - 1 - (if DirOf(a) in TablesOf(old(m.mem), m.cr3) then 0 else 1)
  {
    hide Inv, Machine.Valid, MapsPage, ZeroPageMapped, Pte, Pde, DirOf, TableOf, TablesOf;
    ghost var s := m.S();
    ValidParts(m);
    FreeUnowned(m);
    AddressParts(a);
    var frame := m.AllocFrame();
    if frame == 0 {
      return false;
    }
    ghost var s1 := m.S();
    assert Pde(m.mem, m.cr3, DirOf(a)).present || |m.pmm.free| >= 1;
    ghost var table := m.PagingMap(a, frame, USER_FLAGS);
    ghost var n2 := m.S();
    MappedReady(s, s1, n2, m.cr3, DirOf(a), TableOf(a), frame, table);
    label mapped:
    m.ZeroFill(a);
    ValidStays@mapped(m);
    AddressFrame(frame);
    ZeroPageSteps(s, n2, m.S(), m.cr3, DirOf(a), TableOf(a), frame / PAGE, table);
    ok := true;
  }

  lemma MappedReady(s: Space, s1: Space, n2: Space, D: int, d: int, t: int, frame: int, table: int)
    requires Inv(s) && D in s.dirs && UserDir(d) && Slot(t) && 0 < frame / PAGE < |s.mem| && 0 <= frame < WORD
    requires frame / PAGE !in s.own && s1 == Take(s, frame / PAGE)
    requires MapsPage(s1, n2, D, d, t, LeafEntry(frame, USER_FLAGS), table)
    ensures Pte(n2.mem, D, d, t) == LeafEntry(frame, USER_FLAGS) && 0 <= D < |n2.mem| == |s.mem|
    ensures frame / PAGE != D && frame / PAGE != Pde(n2.mem, D, d).frame
    ensures Inv(Fill(n2, frame / PAGE, ZeroPage()))
    ensures d in TablesOf(s.mem, D) <==> Pde(s.mem, D, d).present
  {
    assert Owns(n2, frame / PAGE, Leaf(D, d, t));
    assert Owns(n2, Pde(n2.mem, D, d).frame, Table(D, d));
    assert Owns(n2, D, Directory);
    FillKeepsInv(n2, frame / PAGE, ZeroPage());
  }

  /** The page at (d, t) of D is gone and its frame is free again. */
  ghost predicate PageUnmapped(s: Space, n: Space, D: int, d: int, t: int)
  {
    && OnlySpace(s, n, D)
    && (forall e, u {:trigger Pte(n.mem, D, e, u)} :: UserDir(e) && (e != d || u != t) ==>
      Pte(n.mem, D, e, u) == Pte(s.mem, D, e, u))
    && !Pte(n.mem, D, d, t).present
    && Image(n.mem, D) == Image(s.mem, D) - (set va | 0 <= va < WORD && InPage(va, d, t))
  }

  lemma PageUnmapSteps(s: Space, n2: Space, n: Space, D: int, d: int, t: int, f: int)
    requires Inv(s) && D in s.dirs && UserDir(d) && Slot(t) && Pte(s.mem, D, d, t).present
    requires Pte(s.mem, D, d, t).frame == f
    requires UnmapsPage(s, n2, D, d, t) && n == Drop(n2, f)
    ensures f in n2.own && n2.own[f] == Loose && 0 < f < |s.mem|
    ensures PageUnmapped(s, n, D, d, t)
  {
    hide Image, Reach;
    assert Owns(s, f, Leaf(D, d, t));
    ImageUnmapped(s, n2, D, d, t, D);
    DropKeepsInv(n2, f);
    ReachDrop(n2, f, {D});
    ReachOn(s, n2, n, {D}, {D});
  }

  /** `paging_unmap(a); pmm_free_frame(phys);` */
  method UnmapPage(m: Machine, a: int, phys: int)
    requires m.Valid() && 0 <= a < WORD && UserDir(DirOf(a)) && WalkEntry(m.mem, m.cr3, a).present
    requires phys / PAGE == WalkEntry(m.mem, m.cr3, a).frame
    modifies m`mem, m`own, m.pmm, m.pmm.bitmap
    ensures m.Valid() && PageUnmapped(old(m.S()), m.S(), m.cr3, DirOf(a), TableOf(a))
    ensures m.pmm.free == old(m.pmm.free) + {phys / PAGE} && phys / PAGE !in old(m.pmm.free)
  {
    hide Inv, UnmapsPage, PageUnmapped, Pte, Pde, DirOf, TableOf;
    ghost var s := m.S();
    AddressParts(a);
    m.PagingUnmap(a);
    PageUnmapSteps(s, m.S(), Drop(m.S(), phys / PAGE), m.cr3, DirOf(a), TableOf(a), phys / PAGE);
    m.FreeFrame(phys);
  }

  // ---- user memory, byte by byte ---------------------------------------------------------------------

  lemma StoreSteps(s: Space, n: Space, D: int, va: int, b: Byte)
    requires Inv(s) && D in s.dirs && va in Image(s.mem, D) && 0 <= va < WORD && Slot(WordOf(va))
    requires 0 <= WalkEntry(s.mem, D, va).frame < |s.mem|
    requires n == Fill(s, WalkEntry(s.mem, D, va).frame, PageWithByte(s.mem[WalkEntry(s.mem, D, va).frame], va, b))
    ensures Draws(s, n, D) && SameEntries(s, n.mem)
    ensures Image(n.mem, D) == Image(s.mem, D)[va := b]
  {
    hide Image, GetByte, SetByte, DirOf, TableOf, WordOf, PageWithByte, Reach, FreeSame;
    ImageStored(s, D, va, b, D);
    StoredFree(s, n, D, va);
    ImageAt(s, D, va);
    ReachFill(s, WalkEntry(s.mem, D, va).frame, PageWithByte(s.mem[WalkEntry(s.mem, D, va).frame], va, b), {D});
  }

  lemma StoredFree(s: Space, n: Space, D: int, va: int)
    requires Inv(s) && D in s.dirs && va in Image(s.mem, D) && 0 <= WalkEntry(s.mem, D, va).frame < |s.mem|
    requires |n.mem| == |s.mem| && n.free == s.free
    requires n.mem == s.mem[WalkEntry(s.mem, D, va).frame := n.mem[WalkEntry(s.mem, D, va).frame]]
    ensures FreeSame(s, n)
  {
    hide Image, DirOf, TableOf, Pte, Pde, TablesOwned, KernelHalf, KernelTables, OwnersTrue;
    ImageRange(s.mem, D);
    ImageAt(s, D, va);
    assert Owns(s, WalkEntry(s.mem, D, va).frame, Leaf(D, DirOf(va), TableOf(va)));
  }

  /** Where a user byte lives. */
  lemma ByteLives(s: Space, D: int, va: int)
    requires Inv(s) && D in s.dirs && va in Image(s.mem, D)
    ensures 0 <= va < WORD && Slot(WordOf(va)) && Mapped(s.mem, D, va)
    ensures Image(s.mem, D)[va] == GetByte(s.mem[FrameAt(s.mem, D, va)][WordOf(va)], va % 4)
  {
    hide GetByte;
    ImageRange(s.mem, D);
    ImageAt(s, D, va);
  }

  method LoadByte(m: Machine, va: int) returns (b: Byte)
    requires m.Valid() && va in Image(m.mem, m.cr3)
    ensures b == Image(m.mem, m.cr3)[va]
  {
    hide Inv, Image, GetByte;
    ByteLives(m.S(), m.cr3, va);
    var w := m.Load(va);
    b := GetByte(w, va % 4);
  }

  method StoreByte(m: Machine, va: int, b: Byte)
    requires m.Valid() && va in Image(m.mem, m.cr3)
    modifies m`mem
    ensures m.Valid() && Draws(old(m.S()), m.S(), m.cr3) && SameEntries(old(m.S()), m.mem)
    ensures Image(m.mem, m.cr3) == Image(old(m.mem), m.cr3)[va := b]
  {
    hide Inv, Image, GetByte, SetByte, OnlySpace, SameEntries;
    ghost var s := m.S();
    ByteLives(s, m.cr3, va);
    var w := m.Load(va);
    m.Store(va, SetByte(w, va % 4, b));
    StoreSteps(s, m.S(), m.cr3, va, b);
    OnlySpaceInv(s, m.S(), m.cr3);
  }

  lemma {:induction false} LeftBound(pages: seq<int>, free: int, have: set<int>)
    ensures Left(pages, free, have) <= free - |pages|
    decreases |pages|
  {
    if pages != [] {
      LeftBound(pages[1..], free - 1, have);
      LeftBound(pages[1..], free - 2, have + {DirOf(pages[0])});
    }
  }

  /** Mapping a page without clearing it: the page shows whatever its frame held. */
  lemma MappedOnly(s: Space, n2: Space, D: int, d: int, t: int, f: int, table: int)
    requires Inv(s) && D in s.dirs && UserDir(d) && Slot(t) && 0 < f < |s.mem| && f !in s.own
    requires table == 0 || (table !in s.own && table != f)
    requires MapsPage(Take(s, f), n2, D, d, t, LeafEntry(f * PAGE, USER_FLAGS), table)
    ensures OnlySpace(s, n2, D)
  {
    hide Reach, TablesOwned, LeavesOwned, OwnersTrue, KernelHalf, KernelTables, FreeFrames, Pte, Pde;
    ReachTake(s, f, {D});
    ReachOn(s, Take(s, f), n2, {D}, {D});
  }

  /** `paging_map(a, pmm_alloc_frame(), PAGE_USER | PAGE_WRITE)`, neither allocation checked. The page is not cleared:
      it shows the words its frame held. */
  method MapStackPage(m: Machine, a: int) returns (ghost frame: int, ghost table: int)
    requires m.Valid() && 0 <= a < WORD && a % PAGE == 0 && UserDir(DirOf(a))
    requires !WalkEntry(m.mem, m.cr3, a).present
    requires |m.pmm.free| >= 1 && (Pde(m.mem, m.cr3, DirOf(a)).present || |m.pmm.free| >= 2)
    modifies m`mem, m`own, m.pmm, m.pmm.bitmap
    ensures m.Valid() && OnlySpace(old(m.S()), m.S(), m.cr3)
    ensures IsLowest(frame, old(m.pmm.free)) && 0 <= frame < |old(m.mem)|
    ensures if DirOf(a) in TablesOf(old(m.mem), m.cr3) then table == 0
            else table != 0 && IsLowest(table, old(m.pmm.free) - {frame})
    ensures m.pmm.free == old(m.pmm.free) - {frame} - (if DirOf(a) in TablesOf(old(m.mem), m.cr3) then {} else {table})
    ensures |m.pmm.free| == |old(m.pmm.free)| - 1 - (if DirOf(a) in TablesOf(old(m.mem), m.cr3) then 0 else 1)
    ensures Image(m.mem, m.cr3) == Image(old(m.mem), m.cr3) + PageBytes(old(m.mem)[frame], DirOf(a), TableOf(a))
    ensures FreeSame(old(m.S()), m.S())
    ensures TablesOf(m.mem, m.cr3) == TablesOf(old(m.mem), m.cr3) + {DirOf(a)}
  {
    hide Inv, Machine.Valid, MapsPage, Image, OnlySpace, Pte, Pde, DirOf, TableOf, TablesOf, FreeSame;
    ghost var s := m.S();
    ValidParts(m);
    FreeUnowned(m);
    AddressParts(a);
    HasTable(m.mem, m.cr3, DirOf(a));
    var addr := m.AllocFrame();
    frame := addr / PAGE;
    assert Pde(m.mem, m.cr3, DirOf(a)).present || |m.pmm.free| >= 1;
    table := m.PagingMap(a, addr, USER_FLAGS);
    MappedPage(s, m.S(), m.cr3, DirOf(a), TableOf(a), addr, table);
  }

  /** `frame = pmm_alloc_frame(); if (!frame) panic(...); paging_map(a, frame, PAGE_USER | PAGE_WRITE)`. The page is not
      cleared. */
  method MapFrame(m: Machine, a: int) returns (ok: bool, ghost page: Page)
    requires m.Valid() && 0 <= a < WORD && a % PAGE == 0 && UserDir(DirOf(a))
    requires !WalkEntry(m.mem, m.cr3, a).present
    requires m.pmm.free == {} || Pde(m.mem, m.cr3, DirOf(a)).present || |m.pmm.free| >= 2
    modifies m`mem, m`own, m.pmm, m.pmm.bitmap
    ensures m.Valid() && OnlySpace(old(m.S()), m.S(), m.cr3) && (ok <==> old(m.pmm.free) != {})
    ensures ok ==> |m.pmm.free| == |old(m.pmm.free)| - 1 - (if DirOf(a) in TablesOf(old(m.mem), m.cr3) then 0 else 1)
    ensures ok ==> Image(m.mem, m.cr3) == Image(old(m.mem), m.cr3) + PageBytes(page, DirOf(a), TableOf(a))
    ensures ok ==> TablesOf(m.mem, m.cr3) == TablesOf(old(m.mem), m.cr3) + {DirOf(a)}
  {
    hide Inv, Machine.Valid, MapsPage, Image, OnlySpace, Pte, Pde, DirOf, TableOf, TablesOf, FreeSame;
    ghost var s := m.S();
    AddressParts(a);
    ValidParts(m);
    FreeUnowned(m);
    HasTable(m.mem, m.cr3, DirOf(a));
    var addr := m.AllocFrame();
    page := ZeroPage();
    if addr == 0 {
      OnlySpaceRefl(s, m.cr3);
      return false, page;
    }
    page := s.mem[addr / PAGE];
    assert Pde(m.mem, m.cr3, DirOf(a)).present || |m.pmm.free| >= 1;
    ghost var table := m.PagingMap(a, addr, USER_FLAGS);
    MappedPage(s, m.S(), m.cr3, DirOf(a), TableOf(a), addr, table);
    ok := true;
  }

  lemma FilledFree(s: Space, n: Space, f: int, p: Page)
    requires Inv(n) && FreeSame(s, n) && f in n.own && 0 <= f < |n.mem|
    ensures FreeSame(s, Fill(n, f, p))
  {
    hide TablesOwned, LeavesOwned, OwnersTrue, KernelHalf, KernelTables;
  }

  lemma MappedFree(s: Space, n: Space, D: int, d: int, t: int, f: int, table: int)
    requires Inv(s) && D in s.dirs && UserDir(d) && Slot(t) && 0 < f < |s.mem| && f !in s.own
    requires table == 0 || (table !in s.own && table != f)
    requires MapsPage(Take(s, f), n, D, d, t, LeafEntry(f * PAGE, USER_FLAGS), table)
    ensures FreeSame(s, n)
  {
    hide TablesOwned, LeavesOwned, OwnersTrue, KernelHalf, KernelTables, Pde, Pte, Reach;
    forall g | g in n.free
      ensures g in s.free && g !in n.own && g !in s.own && g != table
    {
      assert g !in n.own;
    }
    assert n.free <= s.free;
  }

  lemma MappedPage(s: Space, n: Space, D: int, d: int, t: int, frame: int, table: int)
    requires Inv(s) && D in s.dirs && UserDir(d) && Slot(t) && !Pte(s.mem, D, d, t).present
    requires frame % PAGE == 0 && 0 < frame / PAGE < |s.mem| && 0 <= frame < WORD && frame / PAGE !in s.own
    requires table == 0 || (table !in s.own && table != frame / PAGE)
    requires MapsPage(Take(s, frame / PAGE), n, D, d, t, LeafEntry(frame, USER_FLAGS), table)
    ensures OnlySpace(s, n, D)
    ensures Image(n.mem, D) == Image(s.mem, D) + PageBytes(s.mem[frame / PAGE], d, t)
    ensures TablesOf(n.mem, D) == TablesOf(s.mem, D) + {d}
    ensures FreeSame(s, n)
  {
    hide Image, PageBytes;
    var f := frame / PAGE;
    TakeKeepsInv(s, f);
    MappedOnly(s, n, D, d, t, f, table);
    MappedFree(s, n, D, d, t, f, table);
    ImageMapped(Take(s, f), n, D, d, t, LeafEntry(frame, USER_FLAGS), table, D);
    forall e | UserDir(e)
      ensures Pde(n.mem, D, e).present <==> e == d || Pde(s.mem, D, e).present
    {
    }
  }
}
