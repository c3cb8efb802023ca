/** Memory management as a transition system: the elementary steps every system call is made of, each with a guard that
    looks only at the words and frames it touches, and what any sequence of them keeps
    (kernel/arch/i386/paging.c, kernel/arch/i386/pmm.c). */
module Steps {
  import opened Words
  import opened Paging

  datatype PageStep =
    | Allocate(f: int)                                   // pmm_alloc_frame
    | Release(f: int)                                    // pmm_free_frame
    | WritePage(f: int, p: Page)                         // stores into a page
    | NewUserTable(dir: int, d: int, f: int)             // the table paging_map makes for a user address
    | MapLeaf(dir: int, d: int, t: int, w: Word)         // the entry paging_map writes there
    | UnmapLeaf(dir: int, d: int, t: int)                // paging_unmap
    | NewScratchTable(f: int)                            // the table of the two scratch slots, made once
    | MapScratch(t: int, w: Word)                        // a scratch slot mapped or cleared
    | OpenDirectory(f: int, p: Page)                     // a filled page becomes a live directory
    | CloseDirectory(dir: int)                           // a directory is about to be torn down

  /** Where the step may be taken: the frame it uses is in hand, the entry it writes is absent, and so on. Nothing is
      said about the rest of the space. */
  ghost predicate Enabled(s: Space, st: PageStep)
  {
    0 <= s.kdir < |s.mem| &&
    match st
    case Allocate(f) => f in s.free
    case Release(f) => Owns(s, f, Loose)
    case WritePage(f, p) => 0 <= f < |s.mem| && f in s.own && Plain(s.own[f])
    case NewUserTable(D, d, f) =>
      && 0 <= f < |s.mem| && 0 <= D < |s.mem| && D in s.dirs && UserDir(d)
      && !Pde(s.mem, D, d).present && Owns(s, f, Loose)
    case MapLeaf(D, d, t, w) =>
      && 0 <= D < |s.mem| && D in s.dirs && UserDir(d) && Slot(t)
      && Pde(s.mem, D, d).present && Pde(s.mem, D, d).frame < |s.mem|
      && !Pte(s.mem, D, d, t).present && w.present && w.user && w.write && Owns(s, w.frame, Loose)
    case UnmapLeaf(D, d, t) =>
      && 0 <= D < |s.mem| && D in s.dirs && UserDir(d) && Slot(t)
      && Pde(s.mem, D, d).frame < |s.mem| && Pte(s.mem, D, d, t).present
    case NewScratchTable(f) =>
      0 <= f < |s.mem| && !Pde(s.mem, s.kdir, TMP_DIR).present && Owns(s, f, Loose) && s.dirs == {s.kdir}
    case MapScratch(t, w) =>
      Slot(t) && !w.user && Pde(s.mem, s.kdir, TMP_DIR).present && Pde(s.mem, s.kdir, TMP_DIR).frame < |s.mem|
    case OpenDirectory(f, p) =>
      0 <= f < |s.mem| && Owns(s, f, Loose) && FreshDirectory(s, f, p) && Pde(s.mem, s.kdir, TMP_DIR).present
    case CloseDirectory(D) => D in s.dirs && D != s.kdir
  }

  ghost function Apply(s: Space, st: PageStep): Space
    requires Enabled(s, st)
  {
    match st
    case Allocate(f) => Take(s, f)
    case Release(f) => Drop(s, f)
    case WritePage(f, p) => Fill(s, f, p)
    case NewUserTable(D, d, f) => AddTable(s, D, d, f)
    case MapLeaf(D, d, t, w) => AddLeaf(s, D, d, t, w)
    case UnmapLeaf(D, d, t) => RemoveLeaf(s, D, d, t)
    case NewScratchTable(f) => AddKernelTable(s, TMP_DIR, f)
    case MapScratch(t, w) => PutKernelLeaf(s, TMP_DIR, t, w)
    case OpenDirectory(f, p) => AddDirectory(s, f, p)
    case CloseDirectory(D) => Retire(s, D)
  }

  /** The step is not aimed at any of these directories. */
  predicate Spares(s: Space, st: PageStep, others: set<int>)
  {
    match st
    case WritePage(f, p) => f in s.own && s.own[f].Leaf? ==> s.own[f].dir !in others
    case NewUserTable(D, d, f) => D !in others
    case MapLeaf(D, d, t, w) => D !in others
    case UnmapLeaf(D, d, t) => D !in others
    case CloseDirectory(D) => D !in others
    case _ => true
  }

  /** These steps, none of them aimed at `others`, lead from s to n. */
  ghost predicate Leads(s: Space, steps: seq<PageStep>, n: Space, others: set<int>)
    decreases |steps|
  {
    if steps == [] then n == s
    else Enabled(s, steps[0]) && Spares(s, steps[0], others) && Leads(Apply(s, steps[0]), steps[1..], n, others)
  }

  /** n can be reached from s by steps aimed only at the directories `mine` and at directories made on the way. */
  ghost predicate Reach(s: Space, n: Space, mine: set<int>)
  {
    exists steps :: Leads(s, steps, n, s.dirs - mine)
  }

  // ---- building sequences of steps --------------------------------------------------------------------------------

  lemma {:induction false} LeadsFewer(s: Space, steps: seq<PageStep>, n: Space, others: set<int>, fewer: set<int>)
    requires Leads(s, steps, n, others) && fewer <= others
    ensures Leads(s, steps, n, fewer)
    decreases |steps|
  {
    hide Enabled, Apply;
    if steps != [] {
      LeadsFewer(Apply(s, steps[0]), steps[1..], n, others, fewer);
    }
  }

  lemma {:induction false} LeadsOn(a: Space, xs: seq<PageStep>, b: Space, ys: seq<PageStep>, c: Space, others: set<int>)
    requires Leads(a, xs, b, others) && Leads(b, ys, c, others)
    ensures Leads(a, xs + ys, c, others)
    decreases |xs|
  {
    hide Enabled, Apply, Spares;
    if xs == [] {
      assert xs + ys == ys;
    } else {
      LeadsOn(Apply(a, xs[0]), xs[1..], b, ys, c, others);
      assert (xs + ys)[1..] == xs[1..] + ys;
    }
  }

  /** A directory that is spared stays live. */
  lemma {:induction false} LeadsLive(s: Space, steps: seq<PageStep>, n: Space, others: set<int>)
    requires Leads(s, steps, n, others) && others <= s.dirs
    ensures others <= n.dirs && n.kdir == s.kdir && |n.mem| == |s.mem|
    decreases |steps|
  {
    if steps != [] {
      ApplyShape(s, steps[0], others);
      LeadsLive(Apply(s, steps[0]), steps[1..], n, others);
    }
  }

  lemma ApplyShape(s: Space, st: PageStep, others: set<int>)
    requires Enabled(s, st) && Spares(s, st, others) && others <= s.dirs
    ensures others <= Apply(s, st).dirs && Apply(s, st).kdir == s.kdir && |Apply(s, st).mem| == |s.mem|
  {
  }

  lemma ReachSame(s: Space, mine: set<int>)
    ensures Reach(s, s, mine)
  {
    assert Leads(s, [], s, s.dirs - mine);
  }

  lemma ReachOnce(s: Space, st: PageStep, mine: set<int>)
    requires Enabled(s, st) && Spares(s, st, s.dirs - mine)
    ensures Reach(s, Apply(s, st), mine)
  {
    hide Enabled, Apply, Spares;
    assert Leads(Apply(s, st), [], Apply(s, st), s.dirs - mine);
    assert [st][1..] == [];
    assert Leads(s, [st], Apply(s, st), s.dirs - mine);
  }

  lemma ReachWider(s: Space, n: Space, mine: set<int>, more: set<int>)
    requires Reach(s, n, mine) && s.dirs * mine <= more
    ensures Reach(s, n, more)
  {
    var steps :| Leads(s, steps, n, s.dirs - mine);
    LeadsFewer(s, steps, n, s.dirs - mine, s.dirs - more);
  }

  /** What comes after may also aim at directories made before. */
  lemma ReachOn(a: Space, b: Space, c: Space, mine: set<int>, next: set<int>)
    requires Reach(a, b, mine) && Reach(b, c, next) && a.dirs * next <= mine
    ensures Reach(a, c, mine)
  {
    var xs :| Leads(a, xs, b, a.dirs - mine);
    var ys :| Leads(b, ys, c, b.dirs - next);
    LeadsLive(a, xs, b, a.dirs - mine);
    LeadsFewer(b, ys, c, b.dirs - next, a.dirs - mine);
    LeadsOn(a, xs, b, ys, c, a.dirs - mine);
  }

  lemma ReachTake(s: Space, f: int, mine: set<int>)
    requires Inv(s) && 0 <= f < |s.mem| && f !in s.own
    ensures Reach(s, Take(s, f), mine)
  {
    hide Reach;
    ReachOnce(s, Allocate(f), mine);
  }

  lemma ReachDrop(s: Space, f: int, mine: set<int>)
    requires Inv(s) && Owns(s, f, Loose)
    ensures Reach(s, Drop(s, f), mine)
  {
    hide Reach;
    ReachOnce(s, Release(f), mine);
  }

  lemma ReachFill(s: Space, f: int, p: Page, mine: set<int>)
    requires Inv(s) && 0 <= f < |s.mem| && f in s.own && Plain(s.own[f]) && (s.own[f].Leaf? ==> s.own[f].dir in mine)
    ensures Reach(s, Fill(s, f, p), mine)
  {
    hide Reach;
    ReachOnce(s, WritePage(f, p), mine);
  }

  /** A frame is taken and becomes the table behind a user entry. */
  lemma ReachTable(s: Space, D: int, d: int, f: int)
    requires Inv(s) && D in s.dirs && UserDir(d) && !Pde(s.mem, D, d).present && 0 <= f < |s.mem| && f !in s.own
    requires 0 <= D < |s.mem|
    ensures Reach(s, AddTable(Take(s, f), D, d, f), {D})
  {
    hide Reach, AddTable;
    ReachTake(s, f, {D});
    ReachOnce(Take(s, f), NewUserTable(D, d, f), {D});
    ReachOn(s, Take(s, f), AddTable(Take(s, f), D, d, f), {D}, {D});
  }

  lemma ReachScratchTable(s: Space, f: int)
    requires Inv(s) && !Pde(s.mem, s.kdir, TMP_DIR).present && 0 <= f < |s.mem| && f !in s.own && s.dirs == {s.kdir}
    requires 0 <= s.kdir < |s.mem|
    ensures Reach(s, AddKernelTable(Take(s, f), TMP_DIR, f), {})
  {
    hide Reach, AddKernelTable;
    ReachTake(s, f, {});
    ReachOnce(Take(s, f), NewScratchTable(f), {});
    ReachOn(s, Take(s, f), AddKernelTable(Take(s, f), TMP_DIR, f), {}, {});
  }

  // ---- what any sequence of steps keeps ---------------------------------------------------------------------------

  predicate HeldAmong(o: Owner, others: set<int>)
  {
    (o.Leaf? && o.dir in others) || (o.Table? && o.dir in others)
  }

  /** Frames that are the kernel's for good. */
  predicate KernelOwned(o: Owner)
  {
    o == Kernel || o.KernelTable?
  }

  /** The directories `others` are still live, with the same user entries, the same frames and the same words in their
      pages; and the kernel has the same frames, but for the scratch table. */
  ghost predicate Untouched(s: Space, n: Space, others: set<int>)
  {
    && |n.mem| == |s.mem| && n.kdir == s.kdir && others <= n.dirs
    && (forall E, e {:trigger Pde(n.mem, E, e)} :: E in others && UserDir(e) ==> Pde(n.mem, E, e) == Pde(s.mem, E, e))
    && (forall E, e, u {:trigger Pte(n.mem, E, e, u)} :: E in others && UserDir(e) ==>
          Pte(n.mem, E, e, u) == Pte(s.mem, E, e, u))
    && (forall f {:trigger n.mem[f]} :: 0 <= f < |s.mem| && f in s.own && s.own[f].Leaf? && s.own[f].dir in others ==>
          n.mem[f] == s.mem[f])
    && (forall f {:trigger f in n.own} :: f in s.own && (HeldAmong(s.own[f], others) || KernelOwned(s.own[f])) ==>
          f in n.own && n.own[f] == s.own[f])
    && (forall f {:trigger n.own[f]} :: f in n.own && (HeldAmong(n.own[f], others) || KernelOwned(n.own[f])) ==>
          (f in s.own && s.own[f] == n.own[f]) || n.own[f] == KernelTable(TMP_DIR))
  }

  lemma UntouchedSame(s: Space, others: set<int>)
    requires others <= s.dirs
    ensures Untouched(s, s, others)
  {
  }

  lemma UntouchedTrans(a: Space, b: Space, c: Space, others: set<int>)
    requires Untouched(a, b, others) && Untouched(b, c, others)
    ensures Untouched(a, c, others)
  {
    hide Pde, Pte;
    forall f | f in a.own && (HeldAmong(a.own[f], others) || KernelOwned(a.own[f]))
      ensures f in c.own && c.own[f] == a.own[f]
      ensures 0 <= f < |a.mem| && a.own[f].Leaf? ==> c.mem[f] == a.mem[f]
    {
      assert f in b.own && b.own[f] == a.own[f];
    }
    forall f | f in c.own && (HeldAmong(c.own[f], others) || KernelOwned(c.own[f]))
      ensures (f in a.own && a.own[f] == c.own[f]) || c.own[f] == KernelTable(TMP_DIR)
    {
      assert (f in b.own && b.own[f] == c.own[f]) || c.own[f] == KernelTable(TMP_DIR);
    }
  }

  /** One step keeps the ownership invariant, whatever the step, and leaves the spared directories alone. */
  lemma StepKeeps(s: Space, st: PageStep, others: set<int>)
    requires Inv(s) && Enabled(s, st) && Spares(s, st, others) && others <= s.dirs
    ensures Inv(Apply(s, st)) && Untouched(s, Apply(s, st), others)
  {
    hide Inv, Untouched, Pde, Pte, Take, Drop, Fill, AddTable, AddLeaf, RemoveLeaf, AddKernelTable, PutKernelLeaf,
         AddDirectory, Retire, FreshDirectory;
    match st
    case Allocate(f) => SparedByTake(s, f, others);
    case Release(f) => SparedByDrop(s, f, others);
    case WritePage(f, p) => SparedByFill(s, f, p, others);
    case NewUserTable(D, d, f) => SparedByTable(s, D, d, f, others);
    case MapLeaf(D, d, t, w) => SparedByNewLeaf(s, D, d, t, w, others);
    case UnmapLeaf(D, d, t) => SparedByOldLeaf(s, D, d, t, others);
    case NewScratchTable(f) => SparedByScratchTable(s, f, others);
    case MapScratch(t, w) => SparedByScratch(s, t, w, others);
    case OpenDirectory(f, p) => SparedByDirectory(s, f, p, others);
    case CloseDirectory(D) => SparedByRetire(s, D, others);
  }

  /** Only owners changed, and none of those that matter. */
  lemma OwnersOnly(s: Space, n: Space, others: set<int>)
    requires n.mem == s.mem && n.kdir == s.kdir && others <= n.dirs
    requires forall f {:trigger f in n.own} :: f in s.own && (HeldAmong(s.own[f], others) || KernelOwned(s.own[f])) ==>
      f in n.own && n.own[f] == s.own[f]
    requires forall f {:trigger n.own[f]} :: f in n.own && (HeldAmong(n.own[f], others) || KernelOwned(n.own[f])) ==>
      f in s.own && s.own[f] == n.own[f]
    ensures Untouched(s, n, others)
  {
  }

  lemma SparedByTake(s: Space, f: int, others: set<int>)
    requires Inv(s) && others <= s.dirs && f in s.free
    ensures Inv(Take(s, f)) && Untouched(s, Take(s, f), others)
  {
    TakeKeepsInv(s, f);
    OwnersOnly(s, Take(s, f), others);
  }

  lemma SparedByDrop(s: Space, f: int, others: set<int>)
    requires Inv(s) && others <= s.dirs && Owns(s, f, Loose)
    ensures Inv(Drop(s, f)) && Untouched(s, Drop(s, f), others)
  {
    DropKeepsInv(s, f);
    OwnersOnly(s, Drop(s, f), others);
  }

  lemma SparedByRetire(s: Space, D: int, others: set<int>)
    requires Inv(s) && others <= s.dirs && D in s.dirs && D != s.kdir && D !in others
    ensures Inv(Retire(s, D)) && Untouched(s, Retire(s, D), others)
  {
    RetireKeepsInv(s, D);
    OwnersOnly(s, Retire(s, D), others);
  }

  lemma SparedByFill(s: Space, f: int, p: Page, others: set<int>)
    requires Inv(s) && others <= s.dirs && 0 <= f < |s.mem| && f in s.own && Plain(s.own[f])
    requires s.own[f].Leaf? ==> s.own[f].dir !in others
    ensures Inv(Fill(s, f, p)) && Untouched(s, Fill(s, f, p), others)
  {
    FillKeepsInv(s, f, p);
    FillEffect(s, f, p);
    hide Inv, Pde, Pte;
  }

  lemma SparedByTable(s: Space, D: int, d: int, f: int, others: set<int>)
    requires Inv(s) && others <= s.dirs && D !in others && Enabled(s, NewUserTable(D, d, f))
    ensures Inv(AddTable(s, D, d, f)) && Untouched(s, AddTable(s, D, d, f), others)
  {
    AddTableKeepsInv(s, D, d, f);
    AddTableEffect(s, D, d, f);
  }

  lemma SparedByNewLeaf(s: Space, D: int, d: int, t: int, w: Word, others: set<int>)
    requires Inv(s) && others <= s.dirs && D !in others && Enabled(s, MapLeaf(D, d, t, w))
    ensures Inv(AddLeaf(s, D, d, t, w)) && Untouched(s, AddLeaf(s, D, d, t, w), others)
  {
    AddLeafKeepsInv(s, D, d, t, w);
    PutLeafEffect(s, D, d, t, w);
  }

  lemma SparedByOldLeaf(s: Space, D: int, d: int, t: int, others: set<int>)
    requires Inv(s) && others <= s.dirs && D !in others && Enabled(s, UnmapLeaf(D, d, t))
    ensures Inv(RemoveLeaf(s, D, d, t)) && Untouched(s, RemoveLeaf(s, D, d, t), others)
  {
    RemoveLeafKeepsInv(s, D, d, t);
    PutLeafEffect(s, D, d, t, ZERO);
  }

  lemma SparedByScratchTable(s: Space, f: int, others: set<int>)
    requires Inv(s) && others <= s.dirs && Enabled(s, NewScratchTable(f))
    ensures Inv(AddKernelTable(s, TMP_DIR, f)) && Untouched(s, AddKernelTable(s, TMP_DIR, f), others)
  {
    AddKernelTableKeepsInv(s, TMP_DIR, f);
    AddKernelTableEffect(s, TMP_DIR, f);
  }

  lemma SparedByScratch(s: Space, t: int, w: Word, others: set<int>)
    requires Inv(s) && others <= s.dirs && Enabled(s, MapScratch(t, w))
    ensures Inv(PutKernelLeaf(s, TMP_DIR, t, w)) && Untouched(s, PutKernelLeaf(s, TMP_DIR, t, w), others)
  {
    PutKernelLeafKeepsInv(s, TMP_DIR, t, w);
    PutKernelLeafEffect(s, TMP_DIR, t, w);
  }

  lemma SparedByDirectory(s: Space, f: int, p: Page, others: set<int>)
    requires Inv(s) && others <= s.dirs && Enabled(s, OpenDirectory(f, p))
    ensures Inv(AddDirectory(s, f, p)) && Untouched(s, AddDirectory(s, f, p), others)
  {
    AddDirectoryKeepsInv(s, f, p);
    AddDirectoryEffect(s, f, p);
  }

  /** The kernel's half of the address space reads the same entries, but for the scratch slots. */
  ghost predicate SameKernelHalf(s: Space, n: Space)
  {
    && n.kdir == s.kdir
    && (forall i {:trigger Pde(n.mem, n.kdir, i)} :: KernelDir(i) && i != TMP_DIR ==>
          Pde(n.mem, n.kdir, i) == Pde(s.mem, s.kdir, i))
    && (forall i, t {:trigger Pte(n.mem, n.kdir, i, t)} :: KernelDir(i) && i != TMP_DIR ==>
          Pte(n.mem, n.kdir, i, t) == Pte(s.mem, s.kdir, i, t))
  }

  lemma SameHalfTrans(a: Space, b: Space, c: Space)
    requires SameKernelHalf(a, b) && SameKernelHalf(b, c)
    ensures SameKernelHalf(a, c)
  {
    hide Pde, Pte;
    forall i | KernelDir(i) && i != TMP_DIR
      ensures Pde(c.mem, c.kdir, i) == Pde(a.mem, a.kdir, i)
    {
      assert Pde(b.mem, b.kdir, i) == Pde(a.mem, a.kdir, i);
    }
    forall i, t | KernelDir(i) && i != TMP_DIR
      ensures Pte(c.mem, c.kdir, i, t) == Pte(a.mem, a.kdir, i, t)
    {
      assert Pte(b.mem, b.kdir, i, t) == Pte(a.mem, a.kdir, i, t);
    }
  }

  lemma StepKernelHalf(s: Space, st: PageStep)
    requires Inv(s) && Enabled(s, st)
    ensures SameKernelHalf(s, Apply(s, st))
  {
    InvBounds(s);
    hide Inv, Pde, Pte, PutLeaf;
    match st
    case WritePage(f, p) => FillEffect(s, f, p);
    case NewUserTable(D, d, f) => AddTableEffect(s, D, d, f);
    case MapLeaf(D, d, t, w) => PutLeafEffect(s, D, d, t, w);
    case UnmapLeaf(D, d, t) => UnmappedHalf(s, D, d, t);
    case NewScratchTable(f) => AddKernelTableEffect(s, TMP_DIR, f);
    case MapScratch(t, w) => PutKernelLeafEffect(s, TMP_DIR, t, w);
    case OpenDirectory(f, p) => AddDirectoryEffect(s, f, p);
    case _ =>
  }

  lemma UnmappedHalf(s: Space, D: int, d: int, t: int)
    requires Inv(s) && Enabled(s, UnmapLeaf(D, d, t))
    ensures SameKernelHalf(s, RemoveLeaf(s, D, d, t))
  {
    PutLeafEffect(s, D, d, t, ZERO);
  }

  lemma {:induction false} LeadsKernelHalf(s: Space, steps: seq<PageStep>, n: Space, others: set<int>)
    requires Inv(s) && Leads(s, steps, n, others) && others <= s.dirs
    ensures SameKernelHalf(s, n)
    decreases |steps|
  {
    hide Inv, Enabled, Apply, Spares, SameKernelHalf;
    if steps == [] {
      SameHalfSelf(s);
    } else {
      var m := Apply(s, steps[0]);
      StepKeeps(s, steps[0], others);
      ApplyShape(s, steps[0], others);
      StepKernelHalf(s, steps[0]);
      LeadsKernelHalf(m, steps[1..], n, others);
      SameHalfTrans(s, m, n);
    }
  }

  lemma SameHalfSelf(s: Space)
    ensures SameKernelHalf(s, s)
  {
  }

  /** No sequence of steps moves a mapping of the kernel outside the scratch slots. */
  lemma ReachKernelHalf(s: Space, n: Space, mine: set<int>)
    requires Inv(s) && Reach(s, n, mine)
    ensures SameKernelHalf(s, n)
  {
    hide Inv, SameKernelHalf;
    var steps :| Leads(s, steps, n, s.dirs - mine);
    LeadsKernelHalf(s, steps, n, s.dirs - mine);
  }

  lemma {:induction false} LeadsKeeps(s: Space, steps: seq<PageStep>, n: Space, others: set<int>)
    requires Inv(s) && Leads(s, steps, n, others) && others <= s.dirs
    ensures Inv(n) && Untouched(s, n, others)
    decreases |steps|
  {
    hide Inv, Enabled, Apply, Spares, Untouched;
    if steps == [] {
      UntouchedSame(s, others);
    } else {
      var m := Apply(s, steps[0]);
      StepKeeps(s, steps[0], others);
      ApplyShape(s, steps[0], others);
      LeadsKeeps(m, steps[1..], n, others);
      UntouchedTrans(s, m, n, others);
    }
  }

  /** Ownership and isolation are kept by every sequence of elementary steps: one owner for each frame, free exactly
      what nobody owns, and no change to any directory the steps are not aimed at. */
  lemma ReachKeeps(s: Space, n: Space, mine: set<int>)
    requires Inv(s) && Reach(s, n, mine)
    ensures Inv(n) && Untouched(s, n, s.dirs - mine)
  {
    hide Inv, Untouched;
    var steps :| Leads(s, steps, n, s.dirs - mine);
    LeadsKeeps(s, steps, n, s.dirs - mine);
  }
}
