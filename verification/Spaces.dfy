/** How whole operations look from the outside: which address spaces an operation may have changed. */
module Spaces {
  import opened Arith
  import opened Words
  import opened Paging
  import opened Address
  import opened Directories
  import opened UserSpace
  import opened UserMap
  import opened ForkSteps
  import opened Steps

  /** Frames no process holds: the kernel's, the shared tables, and frames in the hands of a running operation. */
  predicate KernelHeld(o: Owner)
  {
    o == Kernel || o.KernelTable? || o == Loose
  }

  /** Outside the listed directories every live address space shows user mode the same bytes, and the kernel holds
      the same frames (but for the scratch table, which is made once). */
  ghost predicate Elsewhere(s: Space, n: Space, changed: set<int>)
  {
    && |n.mem| == |s.mem| && n.kdir == s.kdir && Inv(n)
    && n.dirs - changed == s.dirs - changed
    && (forall E {:trigger Image(n.mem, E)} :: E in s.dirs && E !in changed ==> Image(n.mem, E) == Image(s.mem, E))
    && (forall f {:trigger f in n.own} :: f in s.own && KernelHeld(s.own[f]) ==> f in n.own && n.own[f] == s.own[f])
    && (forall f {:trigger n.own[f]} :: f in n.own && KernelHeld(n.own[f]) ==>
          (f in s.own && s.own[f] == n.own[f]) || n.own[f] == KernelTable(TMP_DIR))
    && Reach(s, n, changed)
  }

  lemma ElsewhereSelf(s: Space, changed: set<int>)
    requires Inv(s)
    ensures Elsewhere(s, s, changed)
  {
    hide Image, Reach;
    ReachSame(s, changed);
  }

  /** No frame is in the hands of an operation that has ended. */
  ghost predicate NoLoose(s: Space)
  {
    forall f {:trigger s.own[f]} :: f in s.own ==> s.own[f] != Loose
  }

  /** Isolation for any sequence of elementary steps that ends with nothing in hand: the directories the steps are not
      aimed at show user mode the same bytes, and the kernel holds the same frames. */
  lemma ReachElsewhere(s: Space, n: Space, mine: set<int>)
    requires Inv(s) && NoLoose(s) && Reach(s, n, mine) && NoLoose(n) && n.dirs - mine == s.dirs - mine
    ensures Elsewhere(s, n, mine)
  {
    hide Image, Inv, Reach;
    ReachKeeps(s, n, mine);
    forall E | E in s.dirs && E !in mine
      ensures Image(n.mem, E) == Image(s.mem, E)
    {
      UntouchedImage(s, n, s.dirs - mine, E);
    }
  }

  lemma UntouchedImage(s: Space, n: Space, others: set<int>, E: int)
    requires Inv(s) && Inv(n) && Untouched(s, n, others) && E in others && E in s.dirs
    ensures Image(n.mem, E) == Image(s.mem, E)
  {
    ImageRange(s.mem, E);
    ImageRange(n.mem, E);
    hide *;
    forall va | 0 <= va < WORD
      ensures va in Image(n.mem, E) <==> va in Image(s.mem, E)
      ensures va in Image(s.mem, E) ==> Image(n.mem, E)[va] == Image(s.mem, E)[va]
    {
      UntouchedAt(s, n, others, E, va);
    }
    SameKeys(Image(n.mem, E), Image(s.mem, E));
  }

  lemma UntouchedAt(s: Space, n: Space, others: set<int>, E: int, va: int)
    requires Inv(s) && Inv(n) && Untouched(s, n, others) && E in others && E in s.dirs && 0 <= va < WORD
    ensures va in Image(n.mem, E) <==> va in Image(s.mem, E)
    ensures va in Image(s.mem, E) ==> Image(n.mem, E)[va] == Image(s.mem, E)[va]
  {
    hide Inv, Image, DirOf, TableOf, WordOf, Pte, Pde, GetByte;
    ImageAt(s, E, va);
    ImageAt(n, E, va);
    if UserDir(DirOf(va)) {
      assert Pte(n.mem, E, DirOf(va), TableOf(va)) == Pte(s.mem, E, DirOf(va), TableOf(va));
    }
  }

  lemma ElsewhereTrans(a: Space, b: Space, c: Space, x: set<int>, y: set<int>)
    requires Elsewhere(a, b, x) && Elsewhere(b, c, y)
    ensures Elsewhere(a, c, x + y)
  {
    hide Inv, Image, Reach;
    ReachWider(a, b, x, x + y);
    ReachOn(a, b, c, x + y, y);
    forall f | f in a.own && KernelHeld(a.own[f])
      ensures f in c.own && c.own[f] == a.own[f]
    {
      assert f in b.own && b.own[f] == a.own[f];
    }
    forall f | f in c.own && KernelHeld(c.own[f])
      ensures (f in a.own && a.own[f] == c.own[f]) || c.own[f] == KernelTable(TMP_DIR)
    {
      assert (f in b.own && b.own[f] == c.own[f]) || c.own[f] == KernelTable(TMP_DIR);
    }
    forall E | E in a.dirs && E !in x + y
      ensures Image(c.mem, E) == Image(a.mem, E)
    {
      assert E in a.dirs - x;
      assert E in b.dirs;
      assert Image(b.mem, E) == Image(a.mem, E);
    }
    forall E
      ensures E in a.dirs - (x + y) <==> E in c.dirs - (x + y)
    {
      assert E in a.dirs - x <==> E in b.dirs - x;
      assert E in b.dirs - y <==> E in c.dirs - y;
    }
  }

  lemma ElsewhereWider(a: Space, b: Space, x: set<int>, y: set<int>)
    requires Elsewhere(a, b, x) && x <= y
    ensures Elsewhere(a, b, y)
  {
    hide Inv, Image, Reach;
    ReachWider(a, b, x, y);
    assert forall E :: E in a.dirs - y ==> E in a.dirs - x;
    assert b.dirs - y == b.dirs - x - y;
    assert a.dirs - y == a.dirs - x - y;
  }

  lemma InsideElsewhere(s: Space, n: Space, D: int)
    requires Inv(s) && OnlySpace(s, n, D)
    ensures Elsewhere(s, n, {D})
  {
    hide Image, Inv;
    OnlySpaceInv(s, n, D);
    forall E | E in s.dirs && E != D
      ensures Image(n.mem, E) == Image(s.mem, E)
    {
      OnlySpaceImages(s, n, D, E);
    }
  }

  /** Pages of a directory that is live in both states are the same when only frame 0 may have changed. */
  lemma KeptImage(s: Space, n: Space, E: int)
    requires Inv(s) && Inv(n) && E in s.dirs && E in n.dirs && |s.mem| == |n.mem|
    requires SameUserEntries(s, n) && SamePagesButZero(s, n)
    ensures Image(n.mem, E) == Image(s.mem, E)
  {
    forall f | 0 <= f < |s.mem| && f in s.own && s.own[f].Leaf? && s.own[f].dir == E
      ensures n.mem[f] == s.mem[f]
    {
      assert s.own[0] == Kernel;
    }
    ImageKept(s, n, E);
  }

  lemma NewElsewhere(s: Space, n: Space, C: int, table: int)
    requires Inv(s) && NewDirectoryMade(s, n, C, table) && (table == 0 || table !in s.own)
    ensures Elsewhere(s, n, {C}) && C !in s.dirs && C in n.dirs
    ensures Image(n.mem, C) == map[]
  {
    hide Image, Reach;
    UnownedIsNotLive(s, C);
    ReachWider(s, n, {}, {C});
    forall E | E in s.dirs
      ensures Image(n.mem, E) == Image(s.mem, E)
    {
      KeptImage(s, n, E);
    }
    EmptyImage(n, C);
  }

  lemma EmptyImage(n: Space, C: int)
    requires Inv(n) && C in n.dirs
    requires forall e, u {:trigger Pte(n.mem, C, e, u)} :: UserDir(e) ==> Pte(n.mem, C, e, u) == ZERO
    ensures Image(n.mem, C) == map[]
  {
    hide Image, Inv, DirOf, TableOf, WordOf, Pte;
    ImageRange(n.mem, C);
    forall va
      ensures va !in Image(n.mem, C)
    {
      if 0 <= va < WORD {
        ImageAt(n, C, va);
      }
    }
  }

  lemma UnchangedElsewhere(s: Space, n: Space, table: int)
    requires Inv(s) && Unchanged(s, n, table) && (table == 0 || table !in s.own)
    ensures Elsewhere(s, n, {})
  {
    hide Image, Reach;
    forall E | E in s.dirs
      ensures Image(n.mem, E) == Image(s.mem, E)
    {
      KeptImage(s, n, E);
    }
  }

  lemma FreedElsewhere(s: Space, n: Space, D: int)
    requires Inv(s) && DirectoryFreed(s, n, D) && D in s.dirs
    ensures Elsewhere(s, n, {D})
  {
    hide Image, Reach;
    forall E | E in s.dirs && E != D
      ensures Image(n.mem, E) == Image(s.mem, E)
    {
      FreedImage(s, n, D, E);
    }
    FreedKernel(s, n, D);
  }

  lemma FreedImage(s: Space, n: Space, D: int, E: int)
    requires Inv(s) && DirectoryFreed(s, n, D) && E in s.dirs && E != D
    ensures Image(n.mem, E) == Image(s.mem, E)
  {
    forall f | 0 <= f < |s.mem| && f in s.own && s.own[f].Leaf? && s.own[f].dir == E
      ensures n.mem[f] == s.mem[f]
    {
      assert f in n.own && n.own[f] == s.own[f];
      assert s.own[s.kdir] == Directory;
    }
    ImageKept(s, n, E);
  }

  lemma FreedKernel(s: Space, n: Space, D: int)
    requires DirectoryFreed(s, n, D)
    ensures forall f {:trigger f in n.own} :: f in s.own && KernelHeld(s.own[f]) ==> f in n.own && n.own[f] == s.own[f]
    ensures forall f {:trigger n.own[f]} :: f in n.own && KernelHeld(n.own[f]) ==> f in s.own && s.own[f] == n.own[f]
  {
  }

  /** After fork the child shows user mode exactly the parent's bytes, and nobody else's space has changed. */
  lemma ForkedElsewhere(s: Space, n: Space, P: int, C: int)
    requires Inv(s) && P in s.dirs && Forked(s, n, P, C)
    ensures Elsewhere(s, n, {C})
    ensures Image(n.mem, C) == Image(s.mem, P)
  {
    hide Image, CopiedEntry, Reach;
    ReachWider(s, n, {}, {C});
    forall E | E in s.dirs && E != C
      ensures Image(n.mem, E) == Image(s.mem, E)
    {
      KeptImage(s, n, E);
    }
    ForkedImage(s, n, P, C);
  }

  lemma ForkedImage(s: Space, n: Space, P: int, C: int)
    requires Inv(s) && P in s.dirs && Forked(s, n, P, C)
    ensures Image(n.mem, C) == Image(s.mem, P)
  {
    ImageRange(n.mem, C);
    ImageRange(s.mem, P);
    hide *;
    forall va | 0 <= va < WORD
      ensures va in Image(n.mem, C) <==> va in Image(s.mem, P)
      ensures va in Image(s.mem, P) ==> Image(n.mem, C)[va] == Image(s.mem, P)[va]
    {
      ForkedByte(s, n, P, C, va);
    }
    SameKeys(Image(n.mem, C), Image(s.mem, P));
  }

  lemma ForkedByte(s: Space, n: Space, P: int, C: int, va: int)
    requires Inv(s) && P in s.dirs && Forked(s, n, P, C) && 0 <= va < WORD
    ensures va in Image(n.mem, C) <==> va in Image(s.mem, P)
    ensures va in Image(s.mem, P) ==> Image(n.mem, C)[va] == Image(s.mem, P)[va]
  {
    hide Inv, Image, DirOf, TableOf, WordOf, Pte, GetByte, SameUserEntries, SamePagesButZero;
    AddressParts(va);
    ImageAt(s, P, va);
    ImageAt(n, C, va);
    if UserDir(DirOf(va)) {
      assert Pte(n.mem, C, DirOf(va), TableOf(va)) == Pte(n.mem, C, DirOf(va), TableOf(va));
    }
  }

  /** Isolation after fork: a store by either process changes its own image and leaves the other's alone. */
  lemma ForkIsolates(s: Space, n: Space, P: int, C: int, va: int, b: Byte)
    requires Inv(s) && P in s.dirs && Forked(s, n, P, C) && va in Image(n.mem, P)
    ensures va in Image(n.mem, C) && P in n.dirs && C in n.dirs && P != C
    ensures 0 <= va < WORD && Slot(WordOf(va))
    ensures 0 <= WalkEntry(n.mem, P, va).frame < |n.mem| && 0 <= WalkEntry(n.mem, C, va).frame < |n.mem|
    ensures var f := WalkEntry(n.mem, P, va).frame;
      var m := Fill(n, f, PageWithByte(n.mem[f], va, b)).mem;
      Image(m, P) == Image(s.mem, P)[va := b] && Image(m, C) == Image(s.mem, P)
    ensures var f := WalkEntry(n.mem, C, va).frame;
      var m := Fill(n, f, PageWithByte(n.mem[f], va, b)).mem;
      Image(m, C) == Image(s.mem, P)[va := b] && Image(m, P) == Image(s.mem, P)
  {
    hide Image, Inv, Forked, WalkEntry, PageWithByte;
    ForkedElsewhere(s, n, P, C);
    ForkedLive(s, n, P, C);
    ImageStored(n, P, va, b, P);
    ImageStored(n, P, va, b, C);
    ImageStored(n, C, va, b, C);
    ImageStored(n, C, va, b, P);
  }

  lemma ForkedLive(s: Space, n: Space, P: int, C: int)
    requires Forked(s, n, P, C) && P in s.dirs
    ensures P in n.dirs && C in n.dirs && P != C && Inv(n)
  {
  }
}
