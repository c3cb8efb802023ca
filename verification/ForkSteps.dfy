/** The address-space half of fork, as relations between states: the scan that copies every user page, and the
    installation of the copies in the child (kernel/arch/i386/process.c). */
module ForkSteps {
  import opened Arith
  import opened Words
  import opened Paging
  import opened Address
  import opened Mapping
  import opened Directories
  import opened Steps

  const MAX_COPY_PAGES := 1024

  /** An element of the kernel's copy list: a page number, the frame holding its copy, and its flags. */
  datatype CopyEntry = CopyEntry(d: int, t: int, frame: int, flags: Word)

  /** The user pages of a directory, as (directory entry, table entry) pairs. */
  ghost function UserPages(mem: seq<Page>, D: int): set<(int, int)>
  {
    set d, t | 1 <= d < KERNEL_DIR_START && 0 <= t < 1024 && Pte(mem, D, d, t).present :: (d, t)
  }

  /** The directory entries that have a user page. */
  ghost function UserTables(mem: seq<Page>, D: int): set<int>
  {
    set p | p in UserPages(mem, D) :: p.0
  }

  /** There are no more tables with a page than pages. */
  lemma TablesFewer(mem: seq<Page>, D: int)
    ensures |UserTables(mem, D)| <= |UserPages(mem, D)|
  {
    hide UserPages;
    FirstsFewer(UserPages(mem, D));
  }

  lemma {:induction false} FirstsFewer(s: set<(int, int)>)
    ensures |set p | p in s :: p.0| <= |s|
    decreases |s|
  {
    if s != {} {
      var x :| x in s;
      var rest := s - {x};
      FirstsFewer(rest);
      assert (set p | p in s :: p.0) == (set p | p in rest :: p.0) + {x.0};
    }
  }

  ghost function FramesOf(list: seq<CopyEntry>): set<int>
  {
    set i | 0 <= i < |list| :: list[i].frame
  }

  ghost function WithLoose(own: map<int, Owner>, frames: set<int>): map<int, Owner>
  {
    map f | f in own.Keys + frames :: if f in own then own[f] else Loose
  }

  predicate Before(e: int, u: int, d: int, t: int)
  {
    e < d || (e == d && u < t)
  }

  /** One list element is a faithful copy of the parent's page. */
  ghost predicate CopyOf(s: Space, n: Space, P: int, c: CopyEntry)
  {
    && UserDir(c.d) && Slot(c.t)
    && Pte(s.mem, P, c.d, c.t).present
    && c.flags == Flags(Pte(s.mem, P, c.d, c.t))
    && 0 < c.frame < |n.mem| && c.frame !in s.own
    && 0 <= Pte(s.mem, P, c.d, c.t).frame < |s.mem|
    && n.mem[c.frame] == s.mem[Pte(s.mem, P, c.d, c.t).frame]
  }

  /** The list and its index agree. */
  ghost predicate Listed(list: seq<CopyEntry>, idx: map<(int, int), int>)
  {
    && |idx| == |list|
    && (forall i {:trigger list[i]} :: 0 <= i < |list| ==>
          (list[i].d, list[i].t) in idx && idx[(list[i].d, list[i].t)] == i)
    && (forall p {:trigger p in idx} :: p in idx ==>
          0 <= idx[p] < |list| && list[idx[p]].d == p.0 && list[idx[p]].t == p.1)
    && (forall i, j {:trigger list[i], list[j]} :: 0 <= i < j < |list| ==> list[i].frame != list[j].frame)
  }

  /** The index holds exactly the user pages before (d, t). */
  ghost predicate Covers(pages: set<(int, int)>, idx: map<(int, int), int>, d: int, t: int)
  {
    forall p {:trigger p in idx} {:trigger p in pages} :: p in idx <==> p in pages && Before(p.0, p.1, d, t)
  }

  /** Every frame of the list is in hand, and nothing else changed hands or contents. */
  ghost predicate CopyBase(s: Space, n: Space, frames: set<int>)
  {
    && Inv(s) && Inv(n) && SameShape(s, n)
    && n.own == WithLoose(s.own, frames)
    && SameUserEntries(s, n)
    && SamePlainPages(s, n)
    && Reach(s, n, {})
  }

  /** The scan of the parent P: s is the state when it started, n where it stands at (d, t). */
  ghost predicate CopyState(s: Space, n: Space, P: int, list: seq<CopyEntry>, idx: map<(int, int), int>, d: int, t: int)
  {
    && P in s.dirs
    && CopyBase(s, n, FramesOf(list))
    && Copies(s, n, P, list)
    && Listed(list, idx)
    && Covers(UserPages(s.mem, P), idx, d, t)
  }

  ghost predicate Copies(s: Space, n: Space, P: int, list: seq<CopyEntry>)
  {
    forall i {:trigger list[i]} :: 0 <= i < |list| ==> CopyOf(s, n, P, list[i])
  }

  lemma CopyStarts(s: Space, P: int)
    requires Inv(s) && P in s.dirs
    ensures CopyState(s, s, P, [], map[], 0, 0)
  {
    hide Inv, Reach, Pte, Pde;
    ReachSame(s, {});
    assert FramesOf([]) == {};
    assert WithLoose(s.own, {}) == s.own;
  }

  /** A slot without a user page is passed over. */
  lemma CopySkips(s: Space, n: Space, P: int, list: seq<CopyEntry>, idx: map<(int, int), int>, d: int, t: int)
    requires CopyState(s, n, P, list, idx, d, t)
    requires !(UserDir(d) && Slot(t) && Pte(s.mem, P, d, t).present)
    ensures CopyState(s, n, P, list, idx, d, t + 1)
  {
    assert (d, t) !in UserPages(s.mem, P);
    hide CopyBase, Copies, Listed, UserPages;
  }

  /** So is a directory entry without a table; and the end of a table leads to the next entry. */
  lemma CopySkipsTable(s: Space, n: Space, P: int, list: seq<CopyEntry>, idx: map<(int, int), int>, d: int, t: int)
    requires CopyState(s, n, P, list, idx, d, t)
    requires t == 1024 || (t == 0 && !Pde(s.mem, P, d).present)
    ensures CopyState(s, n, P, list, idx, d + 1, 0)
  {
    var pages := UserPages(s.mem, P);
    forall p | p in pages
      ensures 0 <= p.1 < 1024 && (t == 0 ==> p.0 != d)
    {
    }
    hide CopyBase, Copies, Listed, UserPages;
    CoverSkipsTable(pages, idx, d, t);
  }

  lemma CoverSkipsTable(pages: set<(int, int)>, idx: map<(int, int), int>, d: int, t: int)
    requires Covers(pages, idx, d, t) && (t == 1024 || t == 0)
    requires forall p {:trigger p in pages} :: p in pages ==> 0 <= p.1 < 1024 && (t == 0 ==> p.0 != d)
    ensures Covers(pages, idx, d + 1, 0)
  {
  }

  lemma ListGrows(list: seq<CopyEntry>, idx: map<(int, int), int>, c: CopyEntry)
    requires Listed(list, idx) && (c.d, c.t) !in idx
    requires forall i {:trigger list[i]} :: 0 <= i < |list| ==> list[i].frame != c.frame
    ensures Listed(list + [c], idx[(c.d, c.t) := |list|])
  {
    var list', idx' := list + [c], idx[(c.d, c.t) := |list|];
    assert |idx'| == |list'|;
    forall i | 0 <= i < |list'|
      ensures (list'[i].d, list'[i].t) in idx' && idx'[(list'[i].d, list'[i].t)] == i
    {
      if i < |list| {
        assert (list[i].d, list[i].t) in idx && idx[(list[i].d, list[i].t)] == i;
      }
    }
    forall p | p in idx'
      ensures 0 <= idx'[p] < |list'| && list'[idx'[p]].d == p.0 && list'[idx'[p]].t == p.1
    {
      if p != (c.d, c.t) {
        assert p in idx;
      }
    }
  }

  lemma CoverGrows(pages: set<(int, int)>, idx: map<(int, int), int>, d: int, t: int, k: int)
    requires Covers(pages, idx, d, t) && (d, t) in pages
    ensures Covers(pages, idx[(d, t) := k], d, t + 1)
    ensures (d, t) !in idx
  {
  }

  lemma FramesGrow(list: seq<CopyEntry>, c: CopyEntry)
    ensures FramesOf(list + [c]) == FramesOf(list) + {c.frame}
    ensures forall i {:trigger list[i]} :: 0 <= i < |list| ==> list[i].frame in FramesOf(list)
  {
    forall f
      ensures f in FramesOf(list + [c]) <==> f in FramesOf(list) || f == c.frame
    {
      if f in FramesOf(list) {
        var i :| 0 <= i < |list| && list[i].frame == f;
        assert (list + [c])[i].frame == f;
      }
      assert (list + [c])[|list|] == c;
    }
  }

  /** Taking a frame, mapping it at the scratch slot and filling it disturbs nothing else. */
  lemma BaseGrows(s: Space, n: Space, n2: Space, n3: Space, frames: set<int>, f: int, p: Page)
    requires CopyBase(s, n, frames) && 0 < f < |n.mem| && f !in n.own
    requires MapsKernelPage(Take(n, f), n2, TMP_DIR, TMP_SLOT, LeafEntry(f * PAGE, KERNEL_FLAGS), 0)
    requires n3 == Fill(n2, f, p)
    ensures CopyBase(s, n3, frames + {f})
    ensures forall g {:trigger n3.mem[g]} :: g in n.own && 0 <= g < |n.mem| && Plain(n.own[g]) ==> n3.mem[g] == n.mem[g]
    ensures f !in s.own && |n3.mem| == |n.mem| && n3.mem[f] == p
  {
    hide Inv, Reach, Pde, Pte, Fill;
    BaseSteps(n, n2, n3, f, p);
    ReachOn(s, n, n3, {}, {});
    assert n3.own == WithLoose(s.own, frames + {f});
    assert SameUserEntries(s, n3);
    assert SamePlainPages(s, n3);
  }

  /** A frame taken, mapped in the scratch window and filled: nothing else is different. */
  lemma BaseSteps(n: Space, n2: Space, n3: Space, f: int, p: Page)
    requires Inv(n) && 0 < f < |n.mem| && f !in n.own
    requires MapsKernelPage(Take(n, f), n2, TMP_DIR, TMP_SLOT, LeafEntry(f * PAGE, KERNEL_FLAGS), 0)
    requires n3 == Fill(n2, f, p)
    ensures Inv(n3) && SameShape(n, n3) && Reach(n, n3, {}) && n3.own == n.own[f := Loose] && n3.mem[f] == p
    ensures SameUserEntries(n, n3) && SamePlainPages(n, n3)
  {
    hide Reach;
    assert f in n2.own && n2.own[f] == Loose;
    ReachTake(n, f, {});
    ReachOn(n, Take(n, f), n2, {}, {});
    ReachFill(n2, f, p, {});
    ReachOn(n, n2, n3, {}, {});
    FillKeepsInv(n2, f, p);
    FillEffect(n2, f, p);
    assert n.kdir in n.own && n.own[n.kdir] == Directory;
    hide Inv, Pde, Pte, Fill;
    assert SameUserEntries(n, n3);
    assert SamePlainPages(n, n3);
  }

  /** One step of the scan: the list grows by a copy of the page at (d, t). */
  lemma CopyStep(s: Space, n: Space, n2: Space, n3: Space, P: int, list: seq<CopyEntry>, idx: map<(int, int), int>,
                 d: int, t: int, f: int)
    requires CopyState(s, n, P, list, idx, d, t) && UserDir(d) && Slot(t) && Pte(s.mem, P, d, t).present
    requires 0 < f < |n.mem| && f !in n.own
    requires MapsKernelPage(Take(n, f), n2, TMP_DIR, TMP_SLOT, LeafEntry(f * PAGE, KERNEL_FLAGS), 0)
    requires 0 <= Pte(s.mem, P, d, t).frame < |s.mem| && n3 == Fill(n2, f, s.mem[Pte(s.mem, P, d, t).frame])
    ensures var c := CopyEntry(d, t, f, Flags(Pte(s.mem, P, d, t)));
      CopyState(s, n3, P, list + [c], idx[(d, t) := |list|], d, t + 1)
  {
    hide Inv, Reach, MapsKernelPage, Take, UserPages, CopyBase, Covers, Listed, Copies, Pte, FramesOf;
    var c := CopyEntry(d, t, f, Flags(Pte(s.mem, P, d, t)));
    BaseGrows(s, n, n2, n3, FramesOf(list), f, s.mem[Pte(s.mem, P, d, t).frame]);
    FramesGrow(list, c);
    PageCounted(s, P, d, t);
    CoverGrows(UserPages(s.mem, P), idx, d, t, |list|);
    CopyFramesHeld(s, n, P, list);
    ListGrows(list, idx, c);
    CopiesGrow(s, n, n3, P, list, c);
  }

  lemma PageCounted(s: Space, P: int, d: int, t: int)
    requires UserDir(d) && Slot(t) && Pte(s.mem, P, d, t).present
    ensures (d, t) in UserPages(s.mem, P)
  {
  }

  lemma CopiesGrow(s: Space, n: Space, n3: Space, P: int, list: seq<CopyEntry>, c: CopyEntry)
    requires Copies(s, n, P, list) && CopyOf(s, n3, P, c) && |n3.mem| == |n.mem|
    requires forall i {:trigger list[i]} :: 0 <= i < |list| ==> Owns(n, list[i].frame, Loose)
    requires forall g {:trigger n3.mem[g]} :: g in n.own && 0 <= g < |n.mem| && Plain(n.own[g]) ==>
      n3.mem[g] == n.mem[g]
    ensures Copies(s, n3, P, list + [c])
  {
    hide Pte;
    forall i | 0 <= i < |list + [c]|
      ensures CopyOf(s, n3, P, (list + [c])[i])
    {
      if i < |list| {
        assert CopyOf(s, n, P, list[i]);
        assert Owns(n, list[i].frame, Loose);
      }
    }
  }

  lemma CopyFramesHeld(s: Space, n: Space, P: int, list: seq<CopyEntry>)
    requires CopyBase(s, n, FramesOf(list)) && Copies(s, n, P, list)
    ensures forall i {:trigger list[i]} :: 0 <= i < |list| ==> Owns(n, list[i].frame, Loose)
  {
    hide Inv, SameUserEntries, SamePlainPages, Pte;
    forall i | 0 <= i < |list|
      ensures Owns(n, list[i].frame, Loose)
    {
      assert CopyOf(s, n, P, list[i]);
      assert list[i].frame in FramesOf(list);
    }
  }

  // ---- installing the copies in the child ----------------------------------------------------------

  ghost function DirsOf(list: seq<CopyEntry>, k: int): set<int>
    requires 0 <= k <= |list|
  {
    set i | 0 <= i < k :: list[i].d
  }

  /** The entry paging_map writes for a list element. */
  function CopyWord(c: CopyEntry): Word
  {
    LeafEntry(c.frame * PAGE, c.flags)
  }

  /** The first k elements are mapped in the child C, the others are still in hand. */
  ghost predicate InstallState(s: Space, m: Space, n: Space, C: int, list: seq<CopyEntry>, idx: map<(int, int), int>,
                               k: int)
  {
    && 0 <= k <= |list|
    && Inv(n) && SameShape(s, n) && |m.mem| == |s.mem|
    && ChildEntries(n, C, list, idx, k)
    && ChildTables(n, C, DirsOf(list, k))
    && OthersKept(s, n, C)
    && InHand(n, list, k)
    && OwnersAdded(s, n, C, list)
    && SameOwnedPages(m, n)
    && Reach(m, n, {C})
  }

  ghost predicate ChildEntries(n: Space, C: int, list: seq<CopyEntry>, idx: map<(int, int), int>, k: int)
    requires k <= |list|
  {
    && (forall i {:trigger list[i]} :: 0 <= i < k ==> Pte(n.mem, C, list[i].d, list[i].t) == CopyWord(list[i]))
    && (forall e, u {:trigger Pte(n.mem, C, e, u)} :: UserDir(e) && Slot(u) && Pte(n.mem, C, e, u).present ==>
          (e, u) in idx && idx[(e, u)] < k)
  }

  ghost predicate ChildTables(n: Space, C: int, done: set<int>)
  {
    forall e {:trigger Pde(n.mem, C, e)} :: UserDir(e) ==> (Pde(n.mem, C, e).present <==> e in done)
  }

  ghost predicate OthersKept(s: Space, n: Space, C: int)
  {
    && (forall E, e {:trigger Pde(n.mem, E, e)} :: E in s.dirs && E != C && UserDir(e) ==>
          Pde(n.mem, E, e) == Pde(s.mem, E, e))
    && (forall E, e, u {:trigger Pte(n.mem, E, e, u)} :: E in s.dirs && E != C && UserDir(e) ==>
          Pte(n.mem, E, e, u) == Pte(s.mem, E, e, u))
  }

  ghost predicate InHand(n: Space, list: seq<CopyEntry>, k: int)
    requires 0 <= k
  {
    forall i {:trigger list[i]} :: k <= i < |list| ==> Owns(n, list[i].frame, Loose)
  }

  ghost predicate OwnersAdded(s: Space, n: Space, C: int, list: seq<CopyEntry>)
  {
    && (forall f {:trigger f in n.own} :: f in s.own ==> f in n.own && n.own[f] == s.own[f])
    && (forall f {:trigger n.own[f]} :: f in n.own && f !in s.own ==>
          f in FramesOf(list) || (n.own[f].Table? && n.own[f].dir == C))
  }

  /** Pages that were plain in m hold the same words in n. */
  ghost predicate SameOwnedPages(m: Space, n: Space)
  {
    |n.mem| == |m.mem| && forall f {:trigger n.mem[f]} :: f in m.own && 0 <= f < |m.mem| && Plain(m.own[f]) ==>
      n.mem[f] == m.mem[f]
  }

  lemma InstallStarts(s: Space, m: Space, P: int, C: int, list: seq<CopyEntry>, idx: map<(int, int), int>)
    requires CopyState(s, m, P, list, idx, KERNEL_DIR_START, 0) && C in s.dirs
    requires forall e {:trigger Pde(s.mem, C, e)} :: UserDir(e) ==> Pde(s.mem, C, e) == ZERO
    ensures InstallState(s, m, m, C, list, idx, 0) && StillPlain(m, m) && DirsOf(list, 0) == {}
  {
    hide Inv, Listed, Covers, Copies, UserPages, ChildEntries, ChildTables, FramesOf, Pte, Pde, CopyOf, Reach;
    ReachSame(m, {C});
    CopyFramesHeld(s, m, P, list);
    EmptyChild(s, m, C, list, idx);
    assert DirsOf(list, 0) == {};
  }

  lemma EmptyChild(s: Space, m: Space, C: int, list: seq<CopyEntry>, idx: map<(int, int), int>)
    requires SameUserEntries(s, m) && C in s.dirs && C in m.dirs
    requires forall e {:trigger Pde(s.mem, C, e)} :: UserDir(e) ==> Pde(s.mem, C, e) == ZERO
    ensures ChildEntries(m, C, list, idx, 0) && ChildTables(m, C, DirsOf(list, 0))
  {
    forall e | UserDir(e)
      ensures Pde(m.mem, C, e) == ZERO
    {
      assert Pde(m.mem, C, e) == Pde(s.mem, C, e);
    }
    assert DirsOf(list, 0) == {};
  }

  lemma StepEntries(n: Space, n2: Space, C: int, list: seq<CopyEntry>, idx: map<(int, int), int>, k: int, table: int)
    requires 0 <= k < |list| && ChildEntries(n, C, list, idx, k) && Listed(list, idx) && C in n.dirs
    requires UserDir(list[k].d) && Slot(list[k].t)
    requires forall i {:trigger list[i]} :: 0 <= i < |list| ==> UserDir(list[i].d)
    requires MapsPage(n, n2, C, list[k].d, list[k].t, CopyWord(list[k]), table)
    ensures ChildEntries(n2, C, list, idx, k + 1)
  {
    hide Inv, Pte, Pde, SamePlainPages;
    var c := list[k];
    assert (c.d, c.t) in idx && idx[(c.d, c.t)] == k;
    forall i | 0 <= i < k + 1
      ensures Pte(n2.mem, C, list[i].d, list[i].t) == CopyWord(list[i])
    {
      assert (list[i].d, list[i].t) in idx && idx[(list[i].d, list[i].t)] == i;
    }
  }

  lemma StepTables(n: Space, n2: Space, C: int, list: seq<CopyEntry>, k: int, table: int)
    requires 0 <= k < |list| && ChildTables(n, C, DirsOf(list, k)) && C in n.dirs && UserDir(list[k].d)
    requires MapsPage(n, n2, C, list[k].d, list[k].t, CopyWord(list[k]), table)
    ensures ChildTables(n2, C, DirsOf(list, k + 1))
    ensures DirsOf(list, k + 1) == DirsOf(list, k) + {list[k].d}
  {
    hide Inv, Pte, Pde, SamePlainPages;
    assert DirsOf(list, k + 1) == DirsOf(list, k) + {list[k].d};
  }

  lemma StepOthers(s: Space, n: Space, n2: Space, C: int, c: CopyEntry, table: int)
    requires OthersKept(s, n, C) && n.dirs == s.dirs
    requires MapsPage(n, n2, C, c.d, c.t, CopyWord(c), table)
    ensures OthersKept(s, n2, C)
  {
    hide Inv, Pte, Pde, SamePlainPages;
  }

  lemma StepOwners(s: Space, m: Space, n: Space, n2: Space, C: int, list: seq<CopyEntry>, k: int, table: int)
    requires 0 <= k < |list| && InHand(n, list, k) && OwnersAdded(s, n, C, list) && SameOwnedPages(m, n)
    requires forall i, j {:trigger list[i], list[j]} :: 0 <= i < j < |list| ==> list[i].frame != list[j].frame
    requires list[k].frame !in s.own && CopyWord(list[k]).frame == list[k].frame
    requires table == 0 || table !in n.own
    requires MapsPage(n, n2, C, list[k].d, list[k].t, CopyWord(list[k]), table)
    requires StillPlain(m, n)
    ensures InHand(n2, list, k + 1) && OwnersAdded(s, n2, C, list) && SameOwnedPages(m, n2) && StillPlain(m, n2)
  {
    hide Inv, Pte, Pde;
    assert list[k].frame in FramesOf(list);
    assert Owns(n, list[k].frame, Loose);
    assert InHand(n2, list, k + 1);
  }

  /** A frame that was plain in m is plain in n. */
  ghost predicate StillPlain(m: Space, n: Space)
  {
    forall f {:trigger f in m.own} :: f in m.own ==> f in n.own && (Plain(m.own[f]) ==> Plain(n.own[f]))
  }

  lemma InstallStep(s: Space, m: Space, n: Space, n2: Space, C: int, list: seq<CopyEntry>, idx: map<(int, int), int>,
                    k: int, table: int)
    requires InstallState(s, m, n, C, list, idx, k) && k < |list| && Listed(list, idx) && StillPlain(m, n)
    requires C in s.dirs && UserDir(list[k].d) && Slot(list[k].t)
    requires forall i {:trigger list[i]} :: 0 <= i < |list| ==> UserDir(list[i].d)
    requires CopyWord(list[k]).frame == list[k].frame && list[k].frame !in s.own
    requires MapsPage(n, n2, C, list[k].d, list[k].t, CopyWord(list[k]), table)
    requires table == 0 || table !in n.own
    ensures InstallState(s, m, n2, C, list, idx, k + 1) && StillPlain(m, n2)
  {
    hide Inv, Reach, MapsPage, ChildEntries, ChildTables, OthersKept, InHand, OwnersAdded, SameOwnedPages, DirsOf,
         StillPlain, CopyWord;
    StepShape(s, m, n, n2, C, list[k], table);
    StepEntries(n, n2, C, list, idx, k, table);
    StepTables(n, n2, C, list, k, table);
    StepOthers(s, n, n2, C, list[k], table);
    StepOwners(s, m, n, n2, C, list, k, table);
    InstallParts(s, m, n2, C, list, idx, k + 1);
  }

  lemma StepShape(s: Space, m: Space, n: Space, n2: Space, C: int, c: CopyEntry, table: int)
    requires SameShape(s, n) && Reach(m, n, {C}) && MapsPage(n, n2, C, c.d, c.t, CopyWord(c), table)
    ensures Inv(n2) && SameShape(s, n2) && Reach(m, n2, {C})
  {
    hide Inv, Reach, Pte, Pde, SamePlainPages, CopyWord;
    ReachOn(m, n, n2, {C}, {C});
  }

  lemma InstallParts(s: Space, m: Space, n: Space, C: int, list: seq<CopyEntry>, idx: map<(int, int), int>, k: int)
    requires 0 <= k <= |list| && Inv(n) && SameShape(s, n) && |m.mem| == |s.mem|
    requires ChildEntries(n, C, list, idx, k) && ChildTables(n, C, DirsOf(list, k)) && OthersKept(s, n, C)
    requires InHand(n, list, k) && OwnersAdded(s, n, C, list) && SameOwnedPages(m, n) && Reach(m, n, {C})
    ensures InstallState(s, m, n, C, list, idx, k)
  {
    hide Inv, ChildEntries, ChildTables, OthersKept, InHand, OwnersAdded, SameOwnedPages, DirsOf, Reach;
  }

  // ---- what a finished fork means ---------------------------------------------------------------------

  /** Entry (e, u) of child C in n copies entry (e, u) of parent P in s: same presence, flags and words, another
      frame. */
  ghost predicate CopiedEntry(s: Space, n: Space, P: int, C: int, e: int, u: int)
  {
    && (Pte(n.mem, C, e, u).present <==> Pte(s.mem, P, e, u).present)
    && (Pte(n.mem, C, e, u).present ==>
          && Flags(Pte(n.mem, C, e, u)) == Flags(Pte(s.mem, P, e, u))
          && Pte(n.mem, C, e, u).frame != Pte(s.mem, P, e, u).frame
          && 0 <= Pte(n.mem, C, e, u).frame < |n.mem| && 0 <= Pte(s.mem, P, e, u).frame < |s.mem|
          && n.mem[Pte(n.mem, C, e, u).frame] == s.mem[Pte(s.mem, P, e, u).frame])
  }

  /** Fork succeeded: one more directory, holding copies of the parent's pages; everything else is as it was. */
  ghost predicate Forked(s: Space, n: Space, P: int, C: int)
  {
    && |n.mem| == |s.mem| && n.kdir == s.kdir && n.dirs == s.dirs + {C} && C !in s.dirs
    && Inv(n)
    && SameUserEntries(s, n)
    && SamePagesButZero(s, n)
    && (forall f {:trigger f in n.own} :: f in s.own ==> f in n.own && n.own[f] == s.own[f])
    && (forall f {:trigger n.own[f]} :: f in n.own && f !in s.own ==>
          HeldBy(n.own[f], f, C) || n.own[f] == KernelTable(TMP_DIR))
    && (forall e, u {:trigger Pte(n.mem, C, e, u)} :: UserDir(e) && Slot(u) ==> CopiedEntry(s, n, P, C, e, u))
    && Reach(s, n, {})
  }

  lemma ForkedOwners(s0: Space, s: Space, m: Space, n: Space, P: int, C: int, table: int, list: seq<CopyEntry>,
                     idx: map<(int, int), int>)
    requires Inv(s0) && NewDirectoryMade(s0, s, C, table) && CopyState(s, m, P, list, idx, KERNEL_DIR_START, 0)
    requires InstallState(s, m, n, C, list, idx, |list|) && StillPlain(m, n)
    requires table == 0 || table !in s0.own
    requires forall i {:trigger list[i]} :: 0 <= i < |list| ==> Owns(n, list[i].frame, Leaf(C, list[i].d, list[i].t))
    ensures forall f {:trigger f in n.own} :: f in s0.own ==> f in n.own && n.own[f] == s0.own[f]
    ensures forall f {:trigger n.own[f]} :: f in n.own && f !in s0.own ==>
      HeldBy(n.own[f], f, C) || n.own[f] == KernelTable(TMP_DIR)
    ensures SamePagesButZero(s0, n)
  {
    hide Inv, Pte, Pde, Copies, Listed, Covers, UserPages, SameUserEntries, ChildEntries, ChildTables, OthersKept,
         InHand;
    forall f | f in s0.own
      ensures f in n.own && n.own[f] == s0.own[f]
    {
      assert f in s.own && s.own[f] == s0.own[f];
    }
    forall f | f in n.own && f !in s0.own
      ensures HeldBy(n.own[f], f, C) || n.own[f] == KernelTable(TMP_DIR)
    {
      if f in s.own {
        assert n.own[f] == s.own[f];
      } else if f in FramesOf(list) {
        var i :| 0 <= i < |list| && list[i].frame == f;
        assert Owns(n, list[i].frame, Leaf(C, list[i].d, list[i].t));
      }
    }
    forall f | f in s0.own && 0 < f < |s0.mem| && Plain(s0.own[f])
      ensures n.mem[f] == s0.mem[f]
    {
      assert f in s.own && s.own[f] == s0.own[f];
      assert f in m.own && m.own[f] == s.own[f];
      assert n.mem[f] == m.mem[f] == s.mem[f] == s0.mem[f];
    }
  }

  /** Every installed element's frame is a page of the child. */
  lemma InstalledLeaves(s: Space, m: Space, n: Space, P: int, C: int, list: seq<CopyEntry>, idx: map<(int, int), int>)
    requires CopyState(s, m, P, list, idx, KERNEL_DIR_START, 0) && InstallState(s, m, n, C, list, idx, |list|)
    requires C in s.dirs && |s.mem| <= 0x10_0000
    ensures forall i {:trigger list[i]} :: 0 <= i < |list| ==>
      Owns(n, list[i].frame, Leaf(C, list[i].d, list[i].t)) && CopyOf(s, m, P, list[i])
        && CopyWord(list[i]).frame == list[i].frame
  {
    hide CopyBase, Listed, Covers, UserPages, ChildTables, OthersKept, InHand, OwnersAdded, SameOwnedPages, Pte, Pde;
    forall i | 0 <= i < |list|
      ensures Owns(n, list[i].frame, Leaf(C, list[i].d, list[i].t)) && CopyOf(s, m, P, list[i])
        && CopyWord(list[i]).frame == list[i].frame
    {
      assert CopyOf(s, m, P, list[i]);
      assert Pte(n.mem, C, list[i].d, list[i].t) == CopyWord(list[i]);
    }
  }

  /** The new directory left the parent's pages alone. */
  lemma ParentKept(s0: Space, s: Space, P: int, C: int, table: int, e: int, u: int)
    requires Inv(s0) && P in s0.dirs && NewDirectoryMade(s0, s, C, table) && UserDir(e) && Slot(u)
    ensures Pte(s.mem, P, e, u) == Pte(s0.mem, P, e, u) && |s.mem| == |s0.mem|
    ensures var a := Pte(s0.mem, P, e, u);
      a.present ==> 0 < a.frame < |s0.mem| && s.mem[a.frame] == s0.mem[a.frame] && a.frame in s.own
  {
    var a := Pte(s0.mem, P, e, u);
    assert Pte(s.mem, P, e, u) == a;
    if a.present {
      assert Owns(s0, a.frame, Leaf(P, e, u));
      assert Owns(s, a.frame, Leaf(P, e, u));
    }
  }

  /** Once the scan is over, a page is in the index exactly when the parent maps it. */
  lemma IndexComplete(s: Space, m: Space, P: int, list: seq<CopyEntry>, idx: map<(int, int), int>, e: int, u: int)
    requires CopyState(s, m, P, list, idx, KERNEL_DIR_START, 0) && UserDir(e) && Slot(u)
    ensures (e, u) in idx <==> Pte(s.mem, P, e, u).present
    ensures (e, u) in idx ==> 0 <= idx[(e, u)] < |list| && list[idx[(e, u)]].d == e && list[idx[(e, u)]].t == u
  {
    hide Inv, CopyBase, Copies, Pte;
    assert (e, u) in UserPages(s.mem, P) <==> Pte(s.mem, P, e, u).present;
  }

  /** What the child maps at (e, u) once everything is installed. */
  lemma ChildEntryAt(s: Space, m: Space, n: Space, C: int, list: seq<CopyEntry>, idx: map<(int, int), int>, e: int,
                     u: int)
    requires InstallState(s, m, n, C, list, idx, |list|) && UserDir(e) && Slot(u)
    requires (e, u) in idx ==> 0 <= idx[(e, u)] < |list| && list[idx[(e, u)]].d == e && list[idx[(e, u)]].t == u
    ensures if (e, u) in idx then Pte(n.mem, C, e, u) == CopyWord(list[idx[(e, u)]]) else !Pte(n.mem, C, e, u).present
    ensures |n.mem| == |m.mem| == |s.mem| && SameOwnedPages(m, n)
  {
    hide Inv, Pte, Pde, ChildTables, OthersKept, InHand, OwnersAdded, SameOwnedPages;
    if (e, u) in idx {
      var c := list[idx[(e, u)]];
      assert Pte(n.mem, C, c.d, c.t) == CopyWord(c);
    }
  }

  lemma ForkedEntry(s0: Space, s: Space, m: Space, n: Space, P: int, C: int, table: int, list: seq<CopyEntry>,
                    idx: map<(int, int), int>, e: int, u: int)
    requires Inv(s0) && P in s0.dirs && NewDirectoryMade(s0, s, C, table)
    requires CopyState(s, m, P, list, idx, KERNEL_DIR_START, 0)
    requires InstallState(s, m, n, C, list, idx, |list|)
    requires forall i {:trigger list[i]} :: 0 <= i < |list| ==>
      CopyOf(s, m, P, list[i]) && CopyWord(list[i]).frame == list[i].frame && Owns(m, list[i].frame, Loose)
    requires UserDir(e) && Slot(u)
    ensures CopiedEntry(s0, n, P, C, e, u)
  {
    hide NewDirectoryMade, CopyState, InstallState, Pte, Inv;
    ParentKept(s0, s, P, C, table, e, u);
    IndexComplete(s, m, P, list, idx, e, u);
    ChildEntryAt(s, m, n, C, list, idx, e, u);
    if (e, u) in idx {
      var c := list[idx[(e, u)]];
      assert CopyOf(s, m, P, c);
      assert Owns(m, c.frame, Loose);
      assert n.mem[c.frame] == m.mem[c.frame];
    }
  }

  lemma InstalledOthers(s0: Space, s: Space, m: Space, n: Space, C: int, table: int, list: seq<CopyEntry>,
                        idx: map<(int, int), int>)
    requires Inv(s0) && NewDirectoryMade(s0, s, C, table) && InstallState(s, m, n, C, list, idx, |list|)
    ensures |n.mem| == |s0.mem| && n.kdir == s0.kdir && n.dirs == s0.dirs + {C} && C !in s0.dirs && Inv(n)
    ensures SameUserEntries(s0, n)
  {
    hide Inv, Pte, Pde, ChildEntries, ChildTables, InHand, OwnersAdded, SameOwnedPages, SamePagesButZero, Reach;
    MadeFresh(s0, s, C, table);
  }

  lemma MadeFresh(s0: Space, s: Space, C: int, table: int)
    requires Inv(s0) && NewDirectoryMade(s0, s, C, table)
    ensures C !in s0.dirs
  {
    hide Pte, Pde, Reach, TablesOwned, LeavesOwned, OwnersTrue, KernelHalf, KernelTables;
  }

  lemma ForkDone(s0: Space, s: Space, m: Space, n: Space, P: int, C: int, table: int, list: seq<CopyEntry>,
                 idx: map<(int, int), int>)
    requires Inv(s0) && P in s0.dirs && NewDirectoryMade(s0, s, C, table) && (table == 0 || table !in s0.own)
    requires CopyState(s, m, P, list, idx, KERNEL_DIR_START, 0)
    requires InstallState(s, m, n, C, list, idx, |list|) && StillPlain(m, n)
    ensures Forked(s0, n, P, C)
  {
    hide Inv, NewDirectoryMade, CopyState, InstallState, StillPlain, CopiedEntry, CopyOf, CopyWord, Pte,
         SameUserEntries, SamePagesButZero, Reach;
    ForkReach(s0, s, m, n, P, C, table, list, idx);
    ScanFrames(s0, s, m, P, C, table, list, idx);
    InstalledLeaves(s, m, n, P, C, list, idx);
    ForkedOwners(s0, s, m, n, P, C, table, list, idx);
    InstalledOthers(s0, s, m, n, C, table, list, idx);
    forall e, u | UserDir(e) && Slot(u)
      ensures Pte(n.mem, C, e, u) == Pte(n.mem, C, e, u) && CopiedEntry(s0, n, P, C, e, u)
    {
      ForkedEntry(s0, s, m, n, P, C, table, list, idx, e, u);
    }
    ForkedParts(s0, n, P, C);
  }

  lemma ForkReach(s0: Space, s: Space, m: Space, n: Space, P: int, C: int, table: int, list: seq<CopyEntry>,
                  idx: map<(int, int), int>)
    requires Inv(s0) && NewDirectoryMade(s0, s, C, table)
    requires CopyState(s, m, P, list, idx, KERNEL_DIR_START, 0) && InstallState(s, m, n, C, list, idx, |list|)
    ensures Reach(s0, n, {})
  {
    hide Reach, SameUserEntries, SamePagesButZero, SamePlainPages, Copies, Listed, Covers, ChildEntries, ChildTables,
         OthersKept, InHand, OwnersAdded, SameOwnedPages, Pde, Pte;
    UnownedIsNotLive(s0, C);
    ReachOn(s0, s, m, {}, {});
    ReachOn(s0, m, n, {}, {C});
  }

  lemma ForkedParts(s: Space, n: Space, P: int, C: int)
    requires |n.mem| == |s.mem| && n.kdir == s.kdir && n.dirs == s.dirs + {C} && C !in s.dirs
    requires Inv(n) && SameUserEntries(s, n) && SamePagesButZero(s, n) && Reach(s, n, {})
    requires forall f {:trigger f in n.own} :: f in s.own ==> f in n.own && n.own[f] == s.own[f]
    requires forall f {:trigger n.own[f]} :: f in n.own && f !in s.own ==>
      HeldBy(n.own[f], f, C) || n.own[f] == KernelTable(TMP_DIR)
    requires forall e, u {:trigger Pte(n.mem, C, e, u)} :: UserDir(e) && Slot(u) ==> CopiedEntry(s, n, P, C, e, u)
    ensures Forked(s, n, P, C)
  {
    hide Reach;
    forall e, u | UserDir(e) && Slot(u)
      ensures CopiedEntry(s, n, P, C, e, u)
    {
      assert Pte(n.mem, C, e, u) == Pte(n.mem, C, e, u);
    }
  }

  lemma ScanFrames(s0: Space, s: Space, m: Space, P: int, C: int, table: int, list: seq<CopyEntry>,
                   idx: map<(int, int), int>)
    requires NewDirectoryMade(s0, s, C, table) && CopyState(s, m, P, list, idx, KERNEL_DIR_START, 0)
    ensures |s.mem| <= 0x10_0000 && C in s.dirs
    ensures forall i {:trigger list[i]} :: 0 <= i < |list| ==> Owns(m, list[i].frame, Loose)
  {
    CopyFramesHeld(s, m, P, list);
  }

  // ---- what the scan reads, and what copying a page needs ------------------------------------------------

  lemma ScanReads(s: Space, n: Space, P: int, list: seq<CopyEntry>, idx: map<(int, int), int>, d: int, t: int)
    requires CopyState(s, n, P, list, idx, d, t) && 0 <= d < KERNEL_DIR_START && 0 <= t <= 1024
    ensures 0 <= P < |n.mem| <= 0x10_0000 && Pde(n.mem, P, WINDOW) == WindowEntry(P)
    ensures Pde(n.mem, P, d).present ==> Pde(n.mem, P, d).frame < |n.mem|
    ensures UserDir(d) ==> Pde(n.mem, P, d) == Pde(s.mem, P, d)
    ensures var e := Pte(n.mem, P, d, t);
      && (e.present && e.user <==> UserDir(d) && Slot(t) && Pte(s.mem, P, d, t).present)
      && (UserDir(d) ==> e == Pte(s.mem, P, d, t))
  {
    hide Copies, Listed, Covers;
    EntriesInRange(n, P, d);
    if d == 0 {
      assert Pde(n.mem, P, 0) == Pde(n.mem, n.kdir, 0);
      assert Pte(n.mem, P, 0, t) == Pte(n.mem, n.kdir, 0, t);
    }
  }

  /** The page of the parent that is about to be copied. */
  lemma ScanSource(s: Space, n: Space, P: int, list: seq<CopyEntry>, idx: map<(int, int), int>, d: int, t: int)
    requires CopyState(s, n, P, list, idx, d, t) && UserDir(d) && Slot(t) && Pte(s.mem, P, d, t).present
    ensures var g := Pte(s.mem, P, d, t).frame;
      0 < g < |s.mem| && Owns(n, g, Leaf(P, d, t)) && n.mem[g] == s.mem[g] && Pde(s.mem, P, d).present
    ensures Pte(n.mem, P, d, t) == Pte(s.mem, P, d, t)
  {
    hide Copies, Listed, Covers;
    assert Owns(s, Pte(s.mem, P, d, t).frame, Leaf(P, d, t));
  }

  /** After the scratch mapping, memcpy(TMP_VIRT, page, 4096) disturbs neither walk. */
  lemma CopyReady(n: Space, n2: Space, P: int, d: int, t: int, f: int, g: int)
    requires Inv(n) && P in n.dirs && UserDir(d) && Slot(t) && Pte(n.mem, P, d, t).present
    requires Pte(n.mem, P, d, t).frame == g
    requires 0 < f < |n.mem| && f !in n.own
    requires MapsKernelPage(Take(n, f), n2, TMP_DIR, TMP_SLOT, LeafEntry(f * PAGE, KERNEL_FLAGS), 0)
    ensures Pte(n2.mem, P, d, t) == Pte(n.mem, P, d, t) && Pde(n2.mem, P, d).present
    ensures 0 <= P < |n2.mem| && Pte(n2.mem, P, TMP_DIR, TMP_SLOT) == LeafEntry(f * PAGE, KERNEL_FLAGS)
    ensures f != P && f != g && f != Pde(n2.mem, P, TMP_DIR).frame && f != Pde(n2.mem, P, d).frame
    ensures 0 <= g < |n2.mem| && n2.mem[g] == n.mem[g]
    ensures Owns(n2, f, Loose) && Pde(n2.mem, P, TMP_DIR).present
  {
    assert Owns(n, g, Leaf(P, d, t));
    assert Owns(n2, f, Loose);
    assert Pde(n2.mem, P, TMP_DIR) == Pde(n2.mem, n2.kdir, TMP_DIR);
    assert Owns(n2, Pde(n2.mem, P, d).frame, Table(P, d));
  }

  // ---- giving everything back -------------------------------------------------------------------------------

  /** Fork failed: apart from the scratch table and frame 0, every frame, mapping and page is as it was. */
  ghost predicate Unchanged(s: Space, n: Space, table: int)
  {
    && SameShape(s, n)
    && Inv(n)
    && n.own == WithScratch(s.own, table)
    && SameUserEntries(s, n)
    && SamePagesButZero(s, n)
    && Reach(s, n, {})
  }

  lemma DropCopy(own: map<int, Owner>, list: seq<CopyEntry>, k: int)
    requires 0 <= k < |list| && list[k].frame !in own
    requires forall i, j {:trigger list[i], list[j]} :: 0 <= i < j < |list| ==> list[i].frame != list[j].frame
    ensures WithLoose(own, FramesOf(list[k..])) - {list[k].frame} == WithLoose(own, FramesOf(list[k + 1..]))
    ensures list[k].frame in WithLoose(own, FramesOf(list[k..]))
    ensures WithLoose(own, FramesOf(list[k..]))[list[k].frame] == Loose
  {
    assert list[k..][0] == list[k];
    forall f
      ensures f in FramesOf(list[k..]) <==> f == list[k].frame || f in FramesOf(list[k + 1..])
    {
      if f in FramesOf(list[k..]) {
        var i :| 0 <= i < |list[k..]| && list[k..][i].frame == f;
        if i > 0 {
          assert list[k + 1..][i - 1] == list[k..][i];
        }
      }
      if f in FramesOf(list[k + 1..]) {
        var i :| 0 <= i < |list[k + 1..]| && list[k + 1..][i].frame == f;
        assert list[k..][i + 1] == list[k + 1..][i];
      }
    }
    var rest := FramesOf(list[k + 1..]);
    forall f | f in rest
      ensures f != list[k].frame
    {
      var i :| 0 <= i < |list[k + 1..]| && list[k + 1..][i].frame == f;
      assert list[k + 1..][i] == list[k + 1 + i];
    }
  }

  lemma WithLooseNothing(own: map<int, Owner>, list: seq<CopyEntry>)
    ensures WithLoose(own, FramesOf(list[|list|..])) == own
  {
    assert list[|list|..] == [];
    assert FramesOf([]) == {};
  }

  /** A directory that was just made holds nothing but itself. */
  lemma EmptyDirectoryHolds(s0: Space, own: map<int, Owner>, C: int, table: int)
    requires Inv(s0) && C !in s0.own && own == WithScratch(s0.own, table)[C := Directory] && table != C
    ensures Without(own, C) == WithScratch(s0.own, table)
  {
    forall f | f in s0.own
      ensures !HeldBy(s0.own[f], f, C)
    {
      assert OwnerTrue(s0, f, s0.own[f]);
    }
  }

  lemma ForkUndone(s0: Space, s: Space, m: Space, x: Space, n: Space, P: int, C: int, table: int,
                   list: seq<CopyEntry>, idx: map<(int, int), int>, d: int, t: int)
    requires Inv(s0) && NewDirectoryMade(s0, s, C, table) && table != C && (table == 0 || table !in s0.own)
    requires CopyState(s, m, P, list, idx, d, t)
    requires x.mem == m.mem && x.kdir == m.kdir && x.dirs == m.dirs && x.own == s.own
    requires DirectoryFreed(x, n, C) && Reach(m, x, {})
    ensures Unchanged(s0, n, table)
  {
    hide Inv, Copies, Listed, Covers, Pte, Pde, Reach;
    UnownedIsNotLive(s0, C);
    ReachOn(s0, s, m, {}, {});
    ReachOn(s0, m, x, {}, {});
    ReachOn(s0, x, n, {}, {C});
    EmptyDirectoryHolds(s0, s.own, C, table);
    assert n.dirs == s0.dirs;
    forall f | f in s0.own && 0 < f < |s0.mem| && Plain(s0.own[f])
      ensures n.mem[f] == s0.mem[f]
    {
      assert f in s.own && s.own[f] == s0.own[f];
      assert f in n.own && n.own[f] == s0.own[f];
      PlainIsNotDirectory(s0, f);
      assert n.mem[f] == x.mem[f] == m.mem[f] == s.mem[f] == s0.mem[f];
    }
  }

  lemma PlainIsNotDirectory(s: Space, f: int)
    requires Inv(s) && f in s.own && Plain(s.own[f])
    ensures f !in s.dirs && f != s.kdir
  {
  }

  lemma UnownedIsNotLive(s: Space, f: int)
    requires Inv(s) && f !in s.own
    ensures f !in s.dirs
  {
  }

  // ---- counting ----------------------------------------------------------------------------------------------

  lemma PagesLeft(s: Space, n: Space, P: int, list: seq<CopyEntry>, idx: map<(int, int), int>, d: int, t: int)
    requires CopyState(s, n, P, list, idx, d, t)
    ensures |list| <= |UserPages(s.mem, P)|
    ensures UserDir(d) && Slot(t) && Pte(s.mem, P, d, t).present ==> |list| < |UserPages(s.mem, P)|
    ensures d == KERNEL_DIR_START ==> |list| == |UserPages(s.mem, P)|
  {
    hide Inv, CopyBase, Copies, Pte;
    var pages := UserPages(s.mem, P);
    assert |idx.Keys| == |list|;
    SubsetSize(idx.Keys, pages);
    if UserDir(d) && Slot(t) && Pte(s.mem, P, d, t).present {
      assert (d, t) in pages && (d, t) !in idx;
      SubsetSize(idx.Keys + {(d, t)}, pages);
    }
    if d == KERNEL_DIR_START {
      forall p | p in pages
        ensures p in idx
      {
        assert Before(p.0, p.1, d, t);
      }
      assert idx.Keys == pages;
    }
  }

  lemma SubsetSize<T>(a: set<T>, b: set<T>)
    requires a <= b
    ensures |a| <= |b|
  {
    assert b == a + (b - a);
  }

  lemma CopyStateFacts(s: Space, n: Space, P: int, list: seq<CopyEntry>, idx: map<(int, int), int>, d: int, t: int)
    requires CopyState(s, n, P, list, idx, d, t)
    ensures Inv(n) && P in n.dirs && |n.mem| == |s.mem| && n.dirs == s.dirs && n.kdir == s.kdir
    ensures n.own == WithLoose(s.own, FramesOf(list))
    ensures UserDir(d) && Slot(t) ==> Pte(n.mem, P, d, t) == Pte(s.mem, P, d, t)
    ensures Pde(n.mem, P, TMP_DIR).present <==> Pde(n.mem, n.kdir, TMP_DIR).present
    ensures 0 < t <= 1024 && UserDir(d) && Pte(s.mem, P, d, t - 1).present ==> Pde(n.mem, P, d).present
  {
    hide Copies, Listed, Covers;
    assert Pde(n.mem, P, TMP_DIR) == Pde(n.mem, n.kdir, TMP_DIR);
    if 0 < t <= 1024 && UserDir(d) && Pte(s.mem, P, d, t - 1).present {
      assert Pte(n.mem, P, d, t - 1) == Pte(s.mem, P, d, t - 1);
    }
  }

  /** Only user entries can lack a table in the scanned range: entry 0 is the identity map. */
  lemma BootEntryPresent(s: Space, n: Space, P: int, list: seq<CopyEntry>, idx: map<(int, int), int>, d: int)
    requires CopyState(s, n, P, list, idx, d, 0) && 0 <= d < KERNEL_DIR_START && !Pde(n.mem, P, d).present
    ensures UserDir(d) && !Pde(s.mem, P, d).present
  {
    hide Copies, Listed, Covers;
    assert Pde(n.mem, P, 0) == Pde(n.mem, n.kdir, 0);
  }

  lemma ElementFacts(s: Space, m: Space, P: int, list: seq<CopyEntry>, idx: map<(int, int), int>, i: int)
    requires CopyState(s, m, P, list, idx, KERNEL_DIR_START, 0) && 0 <= i < |list|
    ensures var c := list[i];
      && UserDir(c.d) && Slot(c.t) && c.frame !in s.own && 0 < c.frame < |s.mem| <= 0x10_0000
      && CopyWord(c).frame == c.frame && CopyWord(c).present && CopyWord(c).user && CopyWord(c).write
      && c.flags.user && c.flags.write
      && (c.d, c.t) in idx && idx[(c.d, c.t)] == i
  {
    hide Covers, SamePlainPages, SameUserEntries, UserPages, Reach, FreeFrames, TablesOwned, OwnersTrue, KernelHalf,
         KernelTables;
    assert CopyOf(s, m, P, list[i]);
  }

  lemma ListFacts(s: Space, m: Space, P: int, list: seq<CopyEntry>, idx: map<(int, int), int>)
    requires CopyState(s, m, P, list, idx, KERNEL_DIR_START, 0)
    ensures Listed(list, idx) && P in m.dirs
    ensures forall i {:trigger list[i]} :: 0 <= i < |list| ==> UserDir(list[i].d)
  {
    hide Covers, SamePlainPages, SameUserEntries, UserPages, Inv, Pte;
    forall i | 0 <= i < |list|
      ensures UserDir(list[i].d)
    {
      assert CopyOf(s, m, P, list[i]);
    }
  }

  /** The next element can be mapped: its slot is empty, its frame in hand, and a table is there or can be made. */
  lemma InstallFacts(s: Space, m: Space, n: Space, C: int, list: seq<CopyEntry>, idx: map<(int, int), int>, k: int,
                     left: int, supply: int)
    requires InstallState(s, m, n, C, list, idx, k) && k < |list| && C in s.dirs
    requires UserDir(list[k].d) && Slot(list[k].t) && (list[k].d, list[k].t) in idx && idx[(list[k].d, list[k].t)] == k
    requires left + |DirsOf(list, k)| == supply >= |DirsOf(list, |list|)|
    ensures !Pte(n.mem, C, list[k].d, list[k].t).present && Owns(n, list[k].frame, Loose)
    ensures Pde(n.mem, C, list[k].d).present || left > 0
    ensures Pde(n.mem, C, list[k].d).present <==> list[k].d in DirsOf(list, k)
    ensures Inv(n) && n.dirs == s.dirs && |n.mem| == |s.mem|
  {
    hide Inv, OthersKept, OwnersAdded, SameOwnedPages, Pte, Pde;
    if list[k].d !in DirsOf(list, k) {
      DirsSubset(list, k);
    }
  }

  lemma DirsSubset(list: seq<CopyEntry>, k: int)
    requires 0 <= k < |list| && list[k].d !in DirsOf(list, k)
    ensures |DirsOf(list, k)| < |DirsOf(list, |list|)|
  {
    SubsetSize(DirsOf(list, k) + {list[k].d}, DirsOf(list, |list|));
  }

  lemma DirsGrow(list: seq<CopyEntry>, k: int)
    requires 0 <= k < |list|
    ensures |DirsOf(list, k + 1)| == |DirsOf(list, k)| + if list[k].d in DirsOf(list, k) then 0 else 1
  {
    assert DirsOf(list, k + 1) == DirsOf(list, k) + {list[k].d};
  }

  lemma AbandonFacts(s0: Space, s: Space, c: Space, P: int, C: int, table: int, list: seq<CopyEntry>,
                     idx: map<(int, int), int>, d: int, t: int)
    requires Inv(s0) && P in s0.dirs && NewDirectoryMade(s0, s, C, table) && CopyState(s, c, P, list, idx, d, t)
    ensures C in c.dirs && C != c.kdir && C != P && c.own == WithLoose(s.own, FramesOf(list))
    ensures forall i {:trigger list[i]} :: 0 <= i < |list| ==> list[i].frame !in s.own
    ensures forall i, j {:trigger list[i], list[j]} :: 0 <= i < j < |list| ==> list[i].frame != list[j].frame
  {
    hide Covers, SamePlainPages, SameUserEntries, UserPages, SamePagesButZero;
    UnownedIsNotLive(s0, C);
    forall i | 0 <= i < |list|
      ensures list[i].frame !in s.own
    {
      assert CopyOf(s, c, P, list[i]);
    }
  }

  lemma FailedIsUnchanged(s: Space, n: Space)
    requires NewDirectoryFailed(s, n)
    ensures Unchanged(s, n, 0)
  {
  }

  /** What the rest of fork uses about the new directory. */
  lemma FreshFacts(s0: Space, s: Space, P: int, C: int, table: int)
    requires Inv(s0) && P in s0.dirs && NewDirectoryMade(s0, s, C, table)
    ensures C in s.dirs && P in s.dirs && C !in s0.dirs && Inv(s)
    ensures Pde(s.mem, P, TMP_DIR).present
    ensures UserPages(s.mem, P) == UserPages(s0.mem, P) && UserTables(s.mem, P) == UserTables(s0.mem, P)
    ensures forall e {:trigger Pde(s.mem, C, e)} :: UserDir(e) ==> Pde(s.mem, C, e) == ZERO
  {
    assert Pde(s.mem, P, TMP_DIR) == Pde(s.mem, s.kdir, TMP_DIR);
    forall d, t | 1 <= d < KERNEL_DIR_START && 0 <= t < 1024
      ensures Pte(s.mem, P, d, t) == Pte(s0.mem, P, d, t)
    {
    }
    assert UserPages(s.mem, P) == UserPages(s0.mem, P);
  }

  lemma FrameArithmetic(before: set<int>, after: set<int>, C: int, table: int)
    requires C in before && after == before - {C} - (if table == 0 then {} else {table})
    requires table != 0 ==> table in before && table != C
    ensures |after| == |before| - 1 - (if table == 0 then 0 else 1)
  {
    assert |before - {C}| == |before| - 1;
  }

  /** Installing the list takes one table for each directory entry the parent uses. */
  lemma TablesNeeded(s: Space, c: Space, P: int, list: seq<CopyEntry>, idx: map<(int, int), int>)
    requires CopyState(s, c, P, list, idx, KERNEL_DIR_START, 0)
    ensures DirsOf(list, |list|) == UserTables(s.mem, P)
  {
    hide Inv, CopyBase, Copies, Pte;
    var pages := UserPages(s.mem, P);
    forall d
      ensures d in DirsOf(list, |list|) <==> d in UserTables(s.mem, P)
    {
      if d in DirsOf(list, |list|) {
        var i :| 0 <= i < |list| && list[i].d == d;
        assert (list[i].d, list[i].t) in idx;
        assert (list[i].d, list[i].t) in pages;
      }
      if d in UserTables(s.mem, P) {
        var p :| p in pages && p.0 == d;
        assert Before(p.0, p.1, KERNEL_DIR_START, 0);
        assert p in idx;
        assert list[idx[p]].d == d;
      }
    }
  }
}
