/** Page directories, page tables and the ownership of physical frames, on values
    (kernel/arch/i386/paging.c). */
module Paging {
  import opened Words

  const KERNEL_DIR_START := 768
  const TMP_DIR := 1022
  const WINDOW := 1023

  type Page = p: seq<Word> | |p| == 1024 witness seq(1024, _ => ZERO)

  function ZeroPage(): (p: Page)
    ensures forall i :: 0 <= i < 1024 ==> p[i] == ZERO
  {
    seq(1024, _ => ZERO)
  }

  /** Who holds a frame the allocator has handed out (or never hands out). */
  datatype Owner =
    | Kernel                          // reserved at boot, or backing the kernel heap
    | KernelTable(i: int)             // the page table behind shared directory entry i
    | Directory                       // a live page directory
    | Table(dir: int, d: int)         // the page table behind entry d of one directory
    | Leaf(dir: int, d: int, t: int)  // the page behind entry t of that table
    | Loose                           // in the hands of an operation that is still running

  /** Memory, the boot directory, the live directories, who owns which frame, and the frames the allocator may hand
      out. */
  datatype Space = Space(mem: seq<Page>, kdir: int, dirs: set<int>, own: map<int, Owner>, free: set<int>)

  predicate UserDir(d: int)
  {
    1 <= d < KERNEL_DIR_START
  }

  predicate KernelDir(i: int)
  {
    i == 0 || KERNEL_DIR_START <= i < WINDOW
  }

  predicate Slot(t: int)
  {
    0 <= t < 1024
  }

  /** Directory entry d of the directory in frame dir. */
  function Pde(mem: seq<Page>, dir: int, d: int): Word
  {
    if 0 <= dir < |mem| && Slot(d) then mem[dir][d] else ZERO
  }

  /** Table entry t behind directory entry d, or a non-present word. */
  function Pte(mem: seq<Page>, dir: int, d: int, t: int): Word
  {
    if Pde(mem, dir, d).present && Pde(mem, dir, d).frame < |mem| && Slot(t) then mem[Pde(mem, dir, d).frame][t]
    else ZERO
  }

  // ---- the ownership invariant ------------------------------------------------------------

  ghost predicate Inv(s: Space)
  {
    && Frames(s)
    && FreeFrames(s)
    && TablesOwned(s)
    && LeavesOwned(s)
    && OwnersTrue(s)
    && KernelHalf(s)
    && KernelTables(s)
  }

  lemma InvBounds(s: Space)
    requires Inv(s)
    ensures s.kdir in s.dirs && |s.mem| <= 0x10_0000
  {
  }

  ghost predicate Owns(s: Space, f: int, o: Owner)
  {
    f in s.own && s.own[f] == o
  }

  /** Every owned frame exists, frame 0 is reserved, and live directories own themselves. */
  ghost predicate Frames(s: Space)
  {
    && |s.mem| <= 0x10_0000
    && (forall f {:trigger f in s.own} :: f in s.own ==> 0 <= f < |s.mem|)
    && 0 in s.own && s.own[0] == Kernel
    && s.kdir in s.dirs
    && (forall D {:trigger D in s.dirs} :: D in s.dirs ==> D in s.own && s.own[D] == Directory)
  }

  /** The frames that are free are exactly those nobody owns. */
  ghost predicate FreeFrames(s: Space)
  {
    && (forall f {:trigger f in s.free} :: f in s.free ==> 0 <= f < |s.mem|)
    && (forall f {:trigger f in s.own} {:trigger f in s.free} :: 0 <= f < |s.mem| ==> (f in s.free <==> f !in s.own))
  }

  /** A present user directory entry leads to a table owned by that entry, and lets user mode read and write. */
  ghost predicate TablesOwned(s: Space)
  {
    forall D, d {:trigger Pde(s.mem, D, d)} ::
      D in s.dirs && UserDir(d) && Pde(s.mem, D, d).present ==>
        Owns(s, Pde(s.mem, D, d).frame, Table(D, d)) && Pde(s.mem, D, d).user && Pde(s.mem, D, d).write
  }

  /** A present user table entry leads to a page owned by that entry, and lets user mode read and write. */
  ghost predicate LeavesOwned(s: Space)
  {
    forall D, d, t {:trigger Pte(s.mem, D, d, t)} ::
      D in s.dirs && UserDir(d) && Pte(s.mem, D, d, t).present ==>
        Owns(s, Pte(s.mem, D, d, t).frame, Leaf(D, d, t)) && Pte(s.mem, D, d, t).user && Pte(s.mem, D, d, t).write
  }

  /** Conversely, a frame's owner really refers to it. */
  ghost predicate OwnersTrue(s: Space)
  {
    forall f {:trigger s.own[f]} :: f in s.own ==> OwnerTrue(s, f, s.own[f])
  }

  ghost predicate OwnerTrue(s: Space, f: int, o: Owner)
  {
    match o
    case Kernel => true
    case Loose => true
    case Directory => f in s.dirs
    case KernelTable(i) => KernelDir(i) && Pde(s.mem, s.kdir, i).present && Pde(s.mem, s.kdir, i).frame == f
    case Table(D, d) => D in s.dirs && UserDir(d) && Pde(s.mem, D, d).present && Pde(s.mem, D, d).frame == f
    case Leaf(D, d, t) =>
      D in s.dirs && UserDir(d) && Slot(t) && Pte(s.mem, D, d, t).present && Pte(s.mem, D, d, t).frame == f
  }

  /** All live directories share entries 0 and 768..1022, and entry 1023 of each refers to itself. */
  ghost predicate KernelHalf(s: Space)
  {
    && (forall D, i {:trigger Pde(s.mem, D, i)} ::
          D in s.dirs && KernelDir(i) ==> Pde(s.mem, D, i) == Pde(s.mem, s.kdir, i))
    && (forall D {:trigger Pde(s.mem, D, WINDOW)} :: D in s.dirs ==> Pde(s.mem, D, WINDOW) == WindowEntry(D))
    && (s.dirs != {s.kdir} ==> Pde(s.mem, s.kdir, TMP_DIR).present)
  }

  function WindowEntry(dir: int): Word
  {
    if 0 <= dir < 0x10_0000 then Word(dir, 0, false, true, true) else ZERO
  }

  /** The shared tables belong to the kernel and offer nothing to user mode. */
  ghost predicate KernelTables(s: Space)
  {
    && Pde(s.mem, s.kdir, 0).present
    && (forall i {:trigger Pde(s.mem, s.kdir, i)} :: KernelDir(i) && Pde(s.mem, s.kdir, i).present ==>
          Owns(s, Pde(s.mem, s.kdir, i).frame, KernelTable(i)) && !Pde(s.mem, s.kdir, i).user)
    && (forall i, t {:trigger Pte(s.mem, s.kdir, i, t)} :: KernelDir(i) ==> !Pte(s.mem, s.kdir, i, t).user)
  }

  // ---- elementary steps ---------------------------------------------------------------------

  function Take(s: Space, f: int): Space
  {
    Space(s.mem, s.kdir, s.dirs, s.own[f := Loose], s.free - {f})
  }

  function Drop(s: Space, f: int): Space
  {
    Space(s.mem, s.kdir, s.dirs, s.own - {f}, s.free + {f})
  }

  function Fill(s: Space, f: int, p: Page): Space
    requires 0 <= f < |s.mem|
  {
    Space(s.mem[f := p], s.kdir, s.dirs, s.own, s.free)
  }

  function NewTable(f: int): Word
  {
    if 0 <= f < 0x10_0000 then Word(f, 0, false, true, true) else ZERO
  }

  function AddTable(s: Space, D: int, d: int, f: int): Space
    requires 0 <= f < |s.mem| && 0 <= D < |s.mem| && Slot(d)
  {
    Space(s.mem[f := ZeroPage()][D := s.mem[D][d := UserEntry(f)]], s.kdir, s.dirs, s.own[f := Table(D, d)],
          s.free)
  }

  function UserEntry(f: int): Word
  {
    if 0 <= f < 0x10_0000 then Word(f, 0, true, true, true) else ZERO
  }

  function PutLeaf(mem: seq<Page>, D: int, d: int, t: int, w: Word): seq<Page>
    requires 0 <= D < |mem| && Slot(d) && Slot(t) && Pde(mem, D, d).frame < |mem|
  {
    mem[Pde(mem, D, d).frame := mem[Pde(mem, D, d).frame][t := w]]
  }

  function AddLeaf(s: Space, D: int, d: int, t: int, w: Word): Space
    requires 0 <= D < |s.mem| && Slot(d) && Slot(t) && Pde(s.mem, D, d).frame < |s.mem|
  {
    Space(PutLeaf(s.mem, D, d, t, w), s.kdir, s.dirs, s.own[w.frame := Leaf(D, d, t)], s.free)
  }

  function RemoveLeaf(s: Space, D: int, d: int, t: int): Space
    requires 0 <= D < |s.mem| && Slot(d) && Slot(t) && Pde(s.mem, D, d).frame < |s.mem|
  {
    Space(PutLeaf(s.mem, D, d, t, ZERO), s.kdir, s.dirs, s.own[Pte(s.mem, D, d, t).frame := Loose],
          s.free)
  }

  /** A write into the shared table behind directory entry i, such as a scratch mapping. */
  function PutKernelLeaf(s: Space, i: int, t: int, w: Word): Space
    requires 0 <= s.kdir < |s.mem| && Slot(i) && Slot(t) && Pde(s.mem, s.kdir, i).frame < |s.mem|
  {
    Space(PutLeaf(s.mem, s.kdir, i, t, w), s.kdir, s.dirs, s.own, s.free)
  }

  function AddKernelTable(s: Space, i: int, f: int): Space
    requires 0 <= f < |s.mem| && 0 <= s.kdir < |s.mem| && Slot(i)
  {
    Space(s.mem[f := ZeroPage()][s.kdir := s.mem[s.kdir][i := NewTable(f)]], s.kdir, s.dirs,
          s.own[f := KernelTable(i)], s.free)
  }

  function AddDirectory(s: Space, f: int, p: Page): Space
    requires 0 <= f < |s.mem|
  {
    Space(s.mem[f := p], s.kdir, s.dirs + {f}, s.own[f := Directory], s.free)
  }

  /** The contents paging_new_directory gives a directory in frame f. */
  ghost predicate FreshDirectory(s: Space, f: int, p: Page)
  {
    && (forall i :: UserDir(i) ==> p[i] == ZERO)
    && (forall i :: KernelDir(i) ==> p[i] == Pde(s.mem, s.kdir, i))
    && p[WINDOW] == WindowEntry(f)
  }

  predicate HeldBy(o: Owner, f: int, D: int)
  {
    match o
    case Directory => f == D
    case Table(E, _) => E == D
    case Leaf(E, _, _) => E == D
    case _ => false
  }

  /** Directory D stops being live; everything it held is in the hands of the kernel. */
  ghost function Retire(s: Space, D: int): Space
  {
    Space(s.mem, s.kdir, s.dirs - {D}, map f | f in s.own :: if HeldBy(s.own[f], f, D) then Loose else s.own[f],
          s.free)
  }

  // ---- each elementary step: what it changes in every live directory, and that it keeps the invariant ----

  /** Directory and table entries of every live directory agree between two memories. */
  ghost predicate SameEntries(s: Space, m: seq<Page>)
  {
    && (forall E, e {:trigger Pde(m, E, e)} :: E in s.dirs ==> Pde(m, E, e) == Pde(s.mem, E, e))
    && (forall E, e, t {:trigger Pte(m, E, e, t)} :: E in s.dirs && (UserDir(e) || KernelDir(e)) ==>
          Pte(m, E, e, t) == Pte(s.mem, E, e, t))
  }

  predicate Plain(o: Owner)
  {
    o == Kernel || o == Loose || o.Leaf?
  }

  lemma TakeKeepsInv(s: Space, f: int)
    requires Inv(s) && 0 <= f < |s.mem| && f !in s.own
    ensures Inv(Take(s, f)) && f in s.free
  {
  }

  lemma DropKeepsInv(s: Space, f: int)
    requires Inv(s) && f in s.own && s.own[f] == Loose
    ensures Inv(Drop(s, f))
  {
    hide Pde, Pte;
    var n := Drop(s, f);
    assert Frames(n) && FreeFrames(n);
    assert TablesOwned(n);
    assert LeavesOwned(n);
    assert OwnersTrue(n);
  }

  /** A new table changes one directory entry, and makes that entry's table empty. */
  lemma AddTableEffect(s: Space, D: int, d: int, f: int)
    requires Inv(s) && D in s.dirs && UserDir(d) && !Pde(s.mem, D, d).present
    requires f in s.own && s.own[f] == Loose
    ensures var m := AddTable(s, D, d, f).mem;
      && |m| == |s.mem|
      && (forall E, e {:trigger Pde(m, E, e)} :: E in s.dirs ==>
            Pde(m, E, e) == if E == D && e == d then UserEntry(f) else Pde(s.mem, E, e))
      && (forall E, e, t {:trigger Pte(m, E, e, t)} :: E in s.dirs && (UserDir(e) || KernelDir(e)) ==>
            Pte(m, E, e, t) == if E == D && e == d then ZERO else Pte(s.mem, E, e, t))
  {
    var m := AddTable(s, D, d, f).mem;
    assert f != D;
    forall E, e | E in s.dirs
      ensures Pde(m, E, e) == if E == D && e == d then UserEntry(f) else Pde(s.mem, E, e)
    {
    }
    forall E, e, t | E in s.dirs && (UserDir(e) || KernelDir(e))
      ensures Pte(m, E, e, t) == if E == D && e == d then ZERO else Pte(s.mem, E, e, t)
    {
      if E == D && e == d {
      } else {
        assert Pde(m, E, e) == Pde(s.mem, E, e);
        if KernelDir(e) {
          assert Pde(s.mem, E, e) == Pde(s.mem, s.kdir, e);
        }
      }
    }
  }

  lemma AddTableKeepsInv(s: Space, D: int, d: int, f: int)
    requires Inv(s) && D in s.dirs && UserDir(d) && !Pde(s.mem, D, d).present
    requires f in s.own && s.own[f] == Loose
    ensures Inv(AddTable(s, D, d, f))
  {
    var n := AddTable(s, D, d, f);
    AddTableEffect(s, D, d, f);
    assert n.own == s.own[f := Table(D, d)];
    assert n.dirs == s.dirs && n.kdir == s.kdir && |n.mem| == |s.mem|;
    hide AddTable, Pde, Pte;
    assert Frames(n) && FreeFrames(n);
    assert TablesOwned(n);
    assert LeavesOwned(n);
    assert KernelHalf(n);
    assert KernelTables(n);
    assert OwnersTrue(n);
  }

  lemma FillEffect(s: Space, f: int, p: Page)
    requires Inv(s) && f in s.own && Plain(s.own[f])
    ensures SameEntries(s, Fill(s, f, p).mem)
  {
    var m := Fill(s, f, p).mem;
    forall E, e | E in s.dirs
      ensures Pde(m, E, e) == Pde(s.mem, E, e)
    {
    }
    forall E, e, t | E in s.dirs && (UserDir(e) || KernelDir(e))
      ensures Pte(m, E, e, t) == Pte(s.mem, E, e, t)
    {
      assert Pde(m, E, e) == Pde(s.mem, E, e);
      if KernelDir(e) {
        assert Pde(s.mem, E, e) == Pde(s.mem, s.kdir, e);
      }
    }
  }

  lemma FillKeepsInv(s: Space, f: int, p: Page)
    requires Inv(s) && f in s.own && Plain(s.own[f])
    ensures Inv(Fill(s, f, p))
  {
    var n := Fill(s, f, p);
    FillEffect(s, f, p);
    assert n.own == s.own && n.dirs == s.dirs && n.kdir == s.kdir && |n.mem| == |s.mem|;
    hide Fill, Pde, Pte;
    assert Frames(n) && FreeFrames(n);
    assert TablesOwned(n);
    assert LeavesOwned(n);
    assert KernelHalf(n);
    assert KernelTables(n);
    assert OwnersTrue(n);
  }

  /** A store into the table behind entry d of directory D changes that one entry. */
  lemma PutLeafEffect(s: Space, D: int, d: int, t: int, w: Word)
    requires Inv(s) && D in s.dirs && UserDir(d) && Slot(t) && Pde(s.mem, D, d).present
    ensures var m := PutLeaf(s.mem, D, d, t, w);
      && |m| == |s.mem|
      && (forall E, e {:trigger Pde(m, E, e)} :: E in s.dirs ==> Pde(m, E, e) == Pde(s.mem, E, e))
      && (forall E, e, u {:trigger Pte(m, E, e, u)} :: E in s.dirs && (UserDir(e) || KernelDir(e)) ==>
            Pte(m, E, e, u) == if E == D && e == d && u == t then w else Pte(s.mem, E, e, u))
  {
    var m := PutLeaf(s.mem, D, d, t, w);
    forall E, e | E in s.dirs
      ensures Pde(m, E, e) == Pde(s.mem, E, e)
    {
    }
    forall E, e, u | E in s.dirs && (UserDir(e) || KernelDir(e))
      ensures Pte(m, E, e, u) == if E == D && e == d && u == t then w else Pte(s.mem, E, e, u)
    {
      assert Pde(m, E, e) == Pde(s.mem, E, e);
      if KernelDir(e) {
        assert Pde(s.mem, E, e) == Pde(s.mem, s.kdir, e);
      }
    }
  }

  lemma AddLeafKeepsInv(s: Space, D: int, d: int, t: int, w: Word)
    requires Inv(s) && D in s.dirs && UserDir(d) && Slot(t) && Pde(s.mem, D, d).present
    requires !Pte(s.mem, D, d, t).present && w.present && w.user && w.write
    requires w.frame in s.own && s.own[w.frame] == Loose
    ensures Inv(AddLeaf(s, D, d, t, w))
  {
    var n := AddLeaf(s, D, d, t, w);
    PutLeafEffect(s, D, d, t, w);
    assert n.own == s.own[w.frame := Leaf(D, d, t)];
    assert n.dirs == s.dirs && n.kdir == s.kdir && |n.mem| == |s.mem|;
    hide AddLeaf, PutLeaf, Pde, Pte;
    assert Frames(n) && FreeFrames(n);
    assert TablesOwned(n);
    assert LeavesOwned(n);
    assert KernelHalf(n);
    assert KernelTables(n);
    assert OwnersTrue(n);
  }

  lemma RemoveLeafKeepsInv(s: Space, D: int, d: int, t: int)
    requires Inv(s) && D in s.dirs && UserDir(d) && Slot(t) && Pte(s.mem, D, d, t).present
    ensures Inv(RemoveLeaf(s, D, d, t))
  {
    var n := RemoveLeaf(s, D, d, t);
    PutLeafEffect(s, D, d, t, ZERO);
    var f := Pte(s.mem, D, d, t).frame;
    assert n.own == s.own[f := Loose];
    assert n.dirs == s.dirs && n.kdir == s.kdir && |n.mem| == |s.mem|;
    hide RemoveLeaf, PutLeaf, Pde, Pte;
    assert Frames(n) && FreeFrames(n);
    assert TablesOwned(n);
    assert LeavesOwned(n);
    assert KernelHalf(n);
    assert KernelTables(n);
    assert OwnersTrue(n);
  }

  lemma PutKernelLeafEffect(s: Space, i: int, t: int, w: Word)
    requires Inv(s) && KernelDir(i) && Slot(t) && Pde(s.mem, s.kdir, i).present
    ensures var m := PutKernelLeaf(s, i, t, w).mem;
      && |m| == |s.mem|
      && (forall E, e {:trigger Pde(m, E, e)} :: E in s.dirs ==> Pde(m, E, e) == Pde(s.mem, E, e))
      && (forall E, e, u {:trigger Pte(m, E, e, u)} :: E in s.dirs && (UserDir(e) || KernelDir(e)) ==>
            Pte(m, E, e, u) == if e == i && u == t then w else Pte(s.mem, E, e, u))
  {
    var m := PutKernelLeaf(s, i, t, w).mem;
    forall E, e | E in s.dirs
      ensures Pde(m, E, e) == Pde(s.mem, E, e)
    {
    }
    forall E, e, u | E in s.dirs && (UserDir(e) || KernelDir(e))
      ensures Pte(m, E, e, u) == if e == i && u == t then w else Pte(s.mem, E, e, u)
    {
      assert Pde(m, E, e) == Pde(s.mem, E, e);
      if KernelDir(e) {
        assert Pde(s.mem, E, e) == Pde(s.mem, s.kdir, e);
      }
    }
  }

  lemma PutKernelLeafKeepsInv(s: Space, i: int, t: int, w: Word)
    requires Inv(s) && KernelDir(i) && Slot(t) && Pde(s.mem, s.kdir, i).present && !w.user
    ensures Inv(PutKernelLeaf(s, i, t, w))
  {
    var n := PutKernelLeaf(s, i, t, w);
    PutKernelLeafEffect(s, i, t, w);
    assert n.own == s.own && n.dirs == s.dirs && n.kdir == s.kdir && |n.mem| == |s.mem|;
    hide PutKernelLeaf, Pde, Pte;
    assert Frames(n) && FreeFrames(n);
    assert TablesOwned(n);
    assert LeavesOwned(n);
    assert KernelHalf(n);
    assert KernelTables(n);
    assert OwnersTrue(n);
  }

  lemma AddKernelTableEffect(s: Space, i: int, f: int)
    requires Inv(s) && KernelDir(i) && !Pde(s.mem, s.kdir, i).present
    requires f in s.own && s.own[f] == Loose && s.dirs == {s.kdir}
    ensures var m := AddKernelTable(s, i, f).mem;
      && |m| == |s.mem|
      && (forall E, e {:trigger Pde(m, E, e)} :: E in s.dirs ==>
            Pde(m, E, e) == if e == i then NewTable(f) else Pde(s.mem, E, e))
      && (forall E, e, u {:trigger Pte(m, E, e, u)} :: E in s.dirs && (UserDir(e) || KernelDir(e)) ==>
            Pte(m, E, e, u) == Pte(s.mem, E, e, u))
  {
    var m := AddKernelTable(s, i, f).mem;
    assert f != s.kdir;
    forall E, e | E in s.dirs
      ensures Pde(m, E, e) == if e == i then NewTable(f) else Pde(s.mem, E, e)
    {
    }
    forall E, e, u | E in s.dirs && (UserDir(e) || KernelDir(e))
      ensures Pte(m, E, e, u) == Pte(s.mem, E, e, u)
    {
      if e != i {
        assert Pde(m, E, e) == Pde(s.mem, E, e);
      }
    }
  }

  lemma AddKernelTableKeepsInv(s: Space, i: int, f: int)
    requires Inv(s) && KernelDir(i) && !Pde(s.mem, s.kdir, i).present
    requires f in s.own && s.own[f] == Loose && s.dirs == {s.kdir}
    ensures Inv(AddKernelTable(s, i, f))
  {
    var n := AddKernelTable(s, i, f);
    AddKernelTableEffect(s, i, f);
    assert n.own == s.own[f := KernelTable(i)];
    assert n.dirs == s.dirs && n.kdir == s.kdir && |n.mem| == |s.mem|;
    hide AddKernelTable, Pde, Pte;
    assert Frames(n) && FreeFrames(n);
    assert TablesOwned(n);
    assert LeavesOwned(n);
    assert KernelHalf(n);
    assert KernelTables(n);
    assert OwnersTrue(n);
  }

  lemma AddDirectoryEffect(s: Space, f: int, p: Page)
    requires Inv(s) && f in s.own && s.own[f] == Loose && FreshDirectory(s, f, p)
    ensures var m := AddDirectory(s, f, p).mem;
      && |m| == |s.mem|
      && SameEntries(s, m)
      && (forall e {:trigger Pde(m, f, e)} :: UserDir(e) ==> Pde(m, f, e) == ZERO)
      && (forall e {:trigger Pde(m, f, e)} :: KernelDir(e) ==> Pde(m, f, e) == Pde(s.mem, s.kdir, e))
      && Pde(m, f, WINDOW) == WindowEntry(f)
      && (forall e, t {:trigger Pte(m, f, e, t)} :: UserDir(e) ==> Pte(m, f, e, t) == ZERO)
  {
    assert AddDirectory(s, f, p).mem == Fill(s, f, p).mem;
    FillEffect(s, f, p);
  }

  lemma AddDirectoryKeepsInv(s: Space, f: int, p: Page)
    requires Inv(s) && f in s.own && s.own[f] == Loose && FreshDirectory(s, f, p)
    requires Pde(s.mem, s.kdir, TMP_DIR).present
    ensures Inv(AddDirectory(s, f, p))
  {
    var n := AddDirectory(s, f, p);
    AddDirectoryEffect(s, f, p);
    assert n.own == s.own[f := Directory];
    assert n.dirs == s.dirs + {f} && n.kdir == s.kdir && |n.mem| == |s.mem|;
    hide AddDirectory, FreshDirectory, Pde, Pte;
    assert Frames(n) && FreeFrames(n);
    assert TablesOwned(n);
    assert LeavesOwned(n);
    assert KernelHalf(n);
    assert KernelTables(n);
    assert OwnersTrue(n);
  }

  lemma RetireKeepsInv(s: Space, D: int)
    requires Inv(s) && D in s.dirs && D != s.kdir
    ensures Inv(Retire(s, D))
  {
    var n := Retire(s, D);
    hide Pde, Pte;
    assert Frames(n) && FreeFrames(n);
    assert TablesOwned(n);
    assert LeavesOwned(n);
    assert KernelHalf(n);
    assert KernelTables(n);
    assert OwnersTrue(n);
  }

  lemma OwnedInRange(s: Space)
    requires Inv(s)
    ensures forall f :: f in s.own ==> 0 <= f < |s.mem|
    ensures |s.mem| <= 0x10_0000 && Owns(s, 0, Kernel)
  {
  }
}
