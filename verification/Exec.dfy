/** The address-space half of process_execve (kernel/arch/i386/process.c): build the new space, and only then give
    up the old one. */
module Exec {
  import opened Arith
  import opened Words
  import opened Paging
  import opened Address
  import opened Mapping
  import opened Directories
  import opened UserSpace
  import opened Pages
  import opened Steps
  import opened UserMap
  import opened ForkSteps
  import opened Fork
  import opened Spaces
  import opened ElfFormat
  import opened Elf
  import opened Machine
  import opened Errno
  import Pmm

  const USER_STACK_TOP := 0xB000_4000
  const USER_STACK_PAGES := 4

  /** The image of a finished exec: the program below the stack, and the stack pages, whose bytes are whatever
      their frames held. */
  ghost predicate ExecImage(img: Img, program: Img)
  {
    && (forall va {:trigger va in img} :: va in img <==> va in program || USER_HIGH <= va < USER_STACK_TOP)
    && (forall va {:trigger va in program} :: va in program && va < USER_HIGH ==> img[va] == program[va])
  }

  ghost predicate BelowStack(img: Img)
  {
    forall va {:trigger va in img} :: va in img ==> va < USER_HIGH
  }

  /** The free frames once these pages and this table (if there is one) are taken. */
  ghost function Unused(free: set<int>, frames: seq<int>, table: int): set<int>
  {
    free - (set f | f in frames) - (if table == 0 then {} else {table})
  }

  /** The frames the stack gets: each the lowest free one when its turn comes, with the table, where one is needed,
      taken right after the first. */
  ghost predicate StackFrames(free: set<int>, frames: seq<int>, table: int)
  {
    && (frames != [] ==> IsLowest(frames[0], free) && (table == 0 || IsLowest(table, free - {frames[0]})))
    && (forall k {:trigger frames[k]} :: 0 < k < |frames| ==> IsLowest(frames[k], Unused(free, frames[..k], table)))
  }

  /** Byte va of a page. */
  function PageByte(p: Page, va: int): Byte
  {
    if Slot(WordOf(va)) then GetByte(p[WordOf(va)], va % 4) else 0
  }

  /** The top |frames| stack pages show, byte for byte, what these frames hold in mem. */
  ghost predicate StackShows(img: Img, mem: seq<Page>, frames: seq<int>)
  {
    forall k, va {:trigger ShowsAt(img, mem, frames, k, va)} ::
      0 <= k < |frames| && InStackPage(va, k) ==> ShowsAt(img, mem, frames, k, va)
  }

  /** Address va lies in the k-th stack page from the top. */
  predicate InStackPage(va: int, k: int)
  {
    USER_STACK_TOP - (k + 1) * 0x1000 <= va < USER_STACK_TOP - k * 0x1000
  }

  predicate ShowsAt(img: Img, mem: seq<Page>, frames: seq<int>, k: int, va: int)
  {
    0 <= k < |frames| && va in img && 0 <= frames[k] < |mem| && img[va] == PageByte(mem[frames[k]], va)
  }

  /** `for (i = 0; i < USER_STACK_PAGES; i++) paging_map(USER_STACK_TOP - (i + 1) * 0x1000, pmm_alloc_frame(), ...)` */
  method MapStack(m: Machine) returns (ghost frames: seq<int>, ghost table: int)
    requires m.Valid() && |m.pmm.free| >= USER_STACK_PAGES + 1 && BelowStack(Image(m.mem, m.cr3))
    modifies m`mem, m`own, m.pmm, m.pmm.bitmap
    ensures m.Valid() && OnlySpace(old(m.S()), m.S(), m.cr3)
    ensures ExecImage(Image(m.mem, m.cr3), Image(old(m.mem), m.cr3))
    ensures |frames| == USER_STACK_PAGES && StackFrames(old(m.pmm.free), frames, table)
    ensures table == 0 <==> DirOf(USER_HIGH) in TablesOf(old(m.mem), m.cr3)
    ensures StackShows(Image(m.mem, m.cr3), old(m.mem), frames)
  {
    hide Inv, Image, OnlySpace, TablesOf, DirOf, TableOf, WalkEntry, PageBytes, BelowStack, StackState, IsLowest,
         FreeSame, StackFrames, StackShows, ExecImage, Machine.Valid;
    ghost var s := m.S();
    ValidParts(m);
    StackStarts(s, m.cr3);
    frames, table := [], 0;
    for i := 0 to USER_STACK_PAGES
      invariant m.Valid() && |frames| == i && StackState(s, m.S(), m.cr3, frames, table)
      invariant |m.pmm.free| >= USER_STACK_PAGES - i + (if i == 0 then 1 else 0)
      invariant i > 0 ==> DirOf(USER_HIGH) in TablesOf(m.mem, m.cr3)
    {
      ghost var n := m.S();
      var a := USER_STACK_TOP - (i + 1) * 0x1000;
      StackAddress(a);
      ValidParts(m);
      StackNext(s, n, m.cr3, frames, table, a);
      PageAbsent(n, m.cr3, a);
      HasTable(m.mem, m.cr3, DirOf(a));
      ghost var frame, made := MapStackPage(m, a);
      StackStep(s, n, m.S(), m.cr3, frames, table, a, frame, made);
      frames, table := frames + [frame], if i > 0 then table else made;
    }
    StackEnds(s, m.S(), m.cr3, frames, table);
  }

  /** How far the stack has got: the pages, the frames behind them, and what they show. */
  ghost predicate StackState(s: Space, n: Space, D: int, frames: seq<int>, table: int)
  {
    && OnlySpace(s, n, D) && FreeSame(s, n)
    && StackDown(Image(n.mem, D), Image(s.mem, D), USER_STACK_TOP - |frames| * 0x1000)
    && StackFrames(s.free, frames, table) && n.free == Unused(s.free, frames, table)
    && StackShows(Image(n.mem, D), s.mem, frames)
    && (if frames == [] then n == s && table == 0 else table == 0 <==> DirOf(USER_HIGH) in TablesOf(s.mem, D))
  }

  lemma StackStarts(s: Space, D: int)
    requires Inv(s) && BelowStack(Image(s.mem, D))
    ensures StackState(s, s, D, [], 0)
  {
    hide Inv, Image, OnlySpace;
    OnlySpaceRefl(s, D);
    NoStackYet(Image(s.mem, D), s);
  }

  lemma StackNext(s: Space, n: Space, D: int, frames: seq<int>, table: int, a: int)
    requires StackState(s, n, D, frames, table) && a == USER_STACK_TOP - (|frames| + 1) * 0x1000 && USER_HIGH <= a
    ensures a !in Image(n.mem, D)
  {
    hide Image, OnlySpace, StackFrames, StackShows, Unused, FreeSame, TablesOf, DirOf;
  }

  lemma StackStep(s: Space, n: Space, n2: Space, D: int, frames: seq<int>, table: int, a: int, frame: int, made: int)
    requires StackState(s, n, D, frames, table) && |frames| < USER_STACK_PAGES
    requires a == USER_STACK_TOP - (|frames| + 1) * 0x1000 && DirOf(a) == DirOf(USER_HIGH)
    requires OnlySpace(n, n2, D) && FreeSame(n, n2) && IsLowest(frame, n.free) && 0 <= frame < |n.mem|
    requires frames != [] ==> DirOf(USER_HIGH) in TablesOf(n.mem, D)
    requires if DirOf(a) in TablesOf(n.mem, D) then made == 0 else made != 0 && IsLowest(made, n.free - {frame})
    requires n2.free == n.free - {frame} - (if DirOf(a) in TablesOf(n.mem, D) then {} else {made})
    requires Image(n2.mem, D) == Image(n.mem, D) + PageBytes(n.mem[frame], DirOf(a), TableOf(a))
    ensures StackState(s, n2, D, frames + [frame], if frames != [] then table else made)
  {
    hide Inv, Image, OnlySpace, StackFrames, StackShows, Unused, FreeSame, TablesOf, DirOf, TableOf, StackDown,
         IsLowest, PageBytes;
    IsFree(frame, n.free);
    OnlySpaceTrans(s, n, n2, D);
    StackFrame(s, n, n2, frames, table, frame, made, frames != []);
    StackShown(s, n, Image(n.mem, D), Image(n2.mem, D), frames, a, frame);
    StackGrows(Image(n.mem, D), Image(s.mem, D), a, n.mem[frame]);
  }

  lemma StackEnds(s: Space, n: Space, D: int, frames: seq<int>, table: int)
    requires StackState(s, n, D, frames, table) && |frames| == USER_STACK_PAGES
    ensures OnlySpace(s, n, D) && ExecImage(Image(n.mem, D), Image(s.mem, D))
    ensures StackFrames(s.free, frames, table) && StackShows(Image(n.mem, D), s.mem, frames)
    ensures table == 0 <==> DirOf(USER_HIGH) in TablesOf(s.mem, D)
  {
    hide Image, OnlySpace, StackFrames, StackShows, Unused, FreeSame, TablesOf, DirOf;
  }

  lemma NoStackYet(img: Img, s: Space)
    requires BelowStack(img)
    ensures StackShows(img, s.mem, []) && StackFrames(s.free, [], 0) && Unused(s.free, [], 0) == s.free
    ensures FreeSame(s, s)
    ensures StackDown(img, img, USER_STACK_TOP)
  {
  }

  /** One more frame, and perhaps the table, is gone; the rest hold what they held. */
  lemma StackFrame(s: Space, n: Space, n2: Space, frames: seq<int>, table: int, frame: int, made: int, later: bool)
    requires StackFrames(s.free, frames, table) && n.free == Unused(s.free, frames, table) && (later <==> frames != [])
    requires IsLowest(frame, n.free) && (later ==> made == 0) && (!later ==> table == 0)
    requires made != 0 ==> IsLowest(made, n.free - {frame})
    requires n2.free == n.free - {frame} - (if made == 0 then {} else {made})
    requires FreeSame(s, n) && FreeSame(n, n2)
    ensures var all, t := frames + [frame], if later then table else made;
      StackFrames(s.free, all, t) && n2.free == Unused(s.free, all, t)
    ensures FreeSame(s, n2) && frame in s.free
  {
    hide IsLowest;
    var all, t := frames + [frame], if later then table else made;
    IsFree(frame, n.free);
    if later {
      assert all[0] == frames[0];
    } else {
      assert all[0] == frame && n.free == s.free;
    }
    forall f
      ensures f in all <==> f in frames || f == frame
    {
    }
    forall k | 0 < k < |all|
      ensures IsLowest(all[k], Unused(s.free, all[..k], t))
    {
      assert all[..k] == if k < |frames| then frames[..k] else frames;
    }
    assert n2.free == Unused(s.free, all, t);
    FreeSameTrans(s, n, n2);
  }

  lemma IsFree(f: int, free: set<int>)
    requires IsLowest(f, free)
    ensures f in free
  {
  }

  lemma StackShown(s: Space, n: Space, before: Img, after: Img, frames: seq<int>, a: int, frame: int)
    requires StackShows(before, s.mem, frames) && |frames| < USER_STACK_PAGES
    requires a == USER_STACK_TOP - (|frames| + 1) * 0x1000
    requires FreeSame(s, n) && frame in n.free && 0 <= frame < |n.mem|
    requires after == before + PageBytes(n.mem[frame], DirOf(a), TableOf(a))
    ensures StackShows(after, s.mem, frames + [frame])
  {
    hide DirOf, TableOf, WordOf, PageBytes, PageByte;
    var all := frames + [frame];
    forall k, va | 0 <= k < |all| && InStackPage(va, k)
      ensures ShowsAt(after, s.mem, all, k, va)
    {
      StackPageBytes(a, n.mem[frame], va);
      if k < |frames| {
        assert ShowsAt(before, s.mem, frames, k, va);
      } else {
        assert n.mem[frame] == s.mem[frame];
        StackPageByte(n.mem[frame], a, va);
      }
    }
  }

  lemma StackPageByte(p: Page, a: int, va: int)
    requires 0 <= a <= va < a + PAGE && a % PAGE == 0 && va < WORD
    ensures va in PageBytes(p, DirOf(a), TableOf(a)) && PageBytes(p, DirOf(a), TableOf(a))[va] == PageByte(p, va)
  {
    hide DirOf, TableOf, WordOf, GetByte, PageBytes;
    StackPageBytes(a, p, va);
    AddressParts(va);
    PageBytesAt(p, DirOf(a), TableOf(a), va);
  }

  // ---- the stack reads what its frames held -----------------------------------------------------------------------

  predicate StackZero(img: Img)
  {
    forall va {:trigger va in img} :: USER_HIGH <= va < USER_STACK_TOP ==> va in img && img[va] == 0
  }

  /** The new stack reads zero exactly when each of the frames it was given was zero already. */
  lemma StackZeroIff(img: Img, mem: seq<Page>, frames: seq<int>)
    requires |frames| == USER_STACK_PAGES && StackShows(img, mem, frames)
    requires forall k {:trigger frames[k]} :: 0 <= k < |frames| ==> 0 <= frames[k] < |mem|
    ensures StackZero(img) <==> forall k {:trigger frames[k]} :: 0 <= k < |frames| ==> mem[frames[k]] == ZeroPage()
  {
    hide PageByte;
    if StackZero(img) {
      forall k | 0 <= k < |frames|
        ensures mem[frames[k]] == ZeroPage()
      {
        var a := USER_STACK_TOP - (k + 1) * 0x1000;
        forall va | a <= va < a + PAGE
          ensures PageByte(mem[frames[k]], va) == 0
        {
          assert ShowsAt(img, mem, frames, k, va);
        }
        ZeroBytesPage(mem[frames[k]], a);
      }
    }
    if forall k {:trigger frames[k]} :: 0 <= k < |frames| ==> mem[frames[k]] == ZeroPage() {
      forall va | USER_HIGH <= va < USER_STACK_TOP
        ensures va in img && img[va] == 0
      {
        var k := (USER_STACK_TOP - 1 - va) / 0x1000;
        assert InStackPage(va, k) && ShowsAt(img, mem, frames, k, va);
        ZeroPageByte(va);
      }
    }
  }

  lemma NothingMappedYet(s: Space)
    requires Inv(s)
    requires forall d {:trigger Pde(s.mem, s.kdir, d)} :: UserDir(d) ==> !Pde(s.mem, s.kdir, d).present
    ensures Image(s.mem, s.kdir) == map[] && BelowStack(Image(s.mem, s.kdir))
  {
    hide Image;
    assert s.kdir in s.dirs;
    ImageRange(s.mem, s.kdir);
    forall va
      ensures va !in Image(s.mem, s.kdir)
    {
      if 0 <= va < WORD {
        ImageAt(s, s.kdir, va);
      }
    }
  }

  lemma StackFramesFree(s: Space, frames: seq<int>, table: int)
    requires Inv(s) && StackFrames(s.free, frames, table)
    ensures forall k {:trigger frames[k]} :: 0 <= k < |frames| ==> frames[k] in s.free && 0 <= frames[k] < |s.mem|
  {
    hide TablesOwned, LeavesOwned, OwnersTrue, KernelHalf, KernelTables;
  }

  lemma ZeroPageByte(va: int)
    ensures PageByte(ZeroPage(), va) == 0
  {
    hide GetByte;
    if Slot(WordOf(va)) {
      ZeroByte(va % 4);
    }
  }

  /** A page all of whose bytes are zero is the zero page. */
  lemma ZeroBytesPage(p: Page, a: int)
    requires 0 <= a && a % PAGE == 0 && a + PAGE <= WORD
    requires forall va :: a <= va < a + PAGE ==> PageByte(p, va) == 0
    ensures p == ZeroPage()
  {
    hide PageByte;
    forall i | 0 <= i < 1024
      ensures p[i] == ZERO
    {
      forall j | 0 <= j < 4
        ensures GetByte(p[i], j) == 0
      {
        assert PageByte(p, a + 4 * i + j) == 0;
        ByteOfWord(p, a, i, j);
      }
      ZeroBytesWord(p[i]);
    }
  }

  lemma ByteOfWord(p: Page, a: int, i: int, j: int)
    requires 0 <= a && a % PAGE == 0 && 0 <= i < 1024 && 0 <= j < 4
    ensures PageByte(p, a + 4 * i + j) == GetByte(p[i], j)
  {
    hide GetByte, WordOf;
    ByteAddress(a, i, j);
  }

  lemma ByteAddress(a: int, i: int, j: int)
    requires 0 <= a && a % PAGE == 0 && 0 <= i < 1024 && 0 <= j < 4
    ensures WordOf(a + 4 * i + j) == i && (a + 4 * i + j) % 4 == j
  {
    var q, x := a / PAGE, 4 * i + j;
    Arith.Quotient(a + x, PAGE, q, x);
    Arith.Quotient(x, 4, i, j);
    Arith.Quotient(a + x, 4, 1024 * q + i, j);
  }

  lemma ZeroBytesWord(w: Word)
    requires forall j :: 0 <= j < 4 ==> GetByte(w, j) == 0
    ensures w == ZERO
  {
    hide Encode, Decode, ByteOf, FromBytes;
    EncodeDecode(w);
    EncodeDecode(ZERO);
    forall j | 0 <= j < 4
      ensures ByteOf(Encode(w), j) == 0
    {
      assert GetByte(w, j) == 0;
    }
    FromBytesOf(Encode(w));
    ZeroEncodes();
    FromZeros();
  }

  lemma FromZeros()
    ensures FromBytes(0, 0, 0, 0) == 0
  {
  }

  /** The stack pages from `low` up are in the image, over the program. */
  ghost predicate StackDown(img: Img, program: Img, low: int)
  {
    && (forall va {:trigger va in img} :: va in img <==> va in program || low <= va < USER_STACK_TOP)
    && (forall va {:trigger va in program} :: va in program && va < USER_HIGH ==> img[va] == program[va])
    && (forall va {:trigger va in program} :: va in program ==> va < USER_HIGH)
  }

  lemma StackAddress(a: int)
    requires USER_HIGH <= a < USER_STACK_TOP && a % PAGE == 0
    ensures UserDir(DirOf(a)) && DirOf(a) == DirOf(USER_HIGH) && 0 <= a < WORD
  {
  }

  lemma StackGrows(img: Img, program: Img, a: int, p: Page)
    requires StackDown(img, program, a + PAGE) && USER_HIGH <= a < USER_STACK_TOP && a % PAGE == 0
    ensures StackDown(img + PageBytes(p, DirOf(a), TableOf(a)), program, a)
  {
    hide DirOf, TableOf, PageBytes;
    forall va
      ensures va in PageBytes(p, DirOf(a), TableOf(a)) <==> a <= va < a + PAGE
    {
      StackPageBytes(a, p, va);
    }
  }

  lemma StackPageBytes(a: int, p: Page, va: int)
    requires 0 <= a < WORD && a % PAGE == 0
    ensures va in PageBytes(p, DirOf(a), TableOf(a)) <==> a <= va < a + PAGE
  {
    AlignedAddress(a);
    PageSpan(va, a);
    if 0 <= va < WORD {
      AddressParts(va);
      PageOf(va, DirOf(a), TableOf(a));
    }
  }

  // ---- the stack of the first program -----------------------------------------------------------------------------

  /** The program, and stack pages from the lowest up to `high`. */
  ghost predicate StackUp(img: Img, program: Img, high: int)
  {
    && (forall va {:trigger va in img} :: va in img <==> va in program || USER_HIGH <= va < high)
    && (forall va {:trigger va in program} :: va in program ==> va < USER_HIGH && img[va] == program[va])
  }

  lemma StackRises(img: Img, program: Img, a: int, p: Page)
    requires StackUp(img, program, a) && USER_HIGH <= a < USER_STACK_TOP && a % PAGE == 0
    ensures StackUp(img + PageBytes(p, DirOf(a), TableOf(a)), program, a + PAGE)
  {
    hide DirOf, TableOf, PageBytes;
    forall va
      ensures va in PageBytes(p, DirOf(a), TableOf(a)) <==> a <= va < a + PAGE
    {
      StackPageBytes(a, p, va);
    }
  }

  lemma StackRisen(img: Img, program: Img)
    requires StackUp(img, program, USER_STACK_TOP)
    ensures ExecImage(img, program)
  {
  }

  lemma NoStackAt(img: Img, program: Img, a: int)
    requires StackUp(img, program, a) && USER_HIGH <= a
    ensures a !in img
  {
  }

  /** map_user_stack: four pages from the lowest up; false when it panics for lack of a frame. */
  method MapUserStack(m: Machine) returns (ok: bool)
    requires m.Valid() && BelowStack(Image(m.mem, m.cr3))
    requires |m.pmm.free| != 1 || DirOf(USER_HIGH) in TablesOf(m.mem, m.cr3)
    modifies m`mem, m`own, m.pmm, m.pmm.bitmap
    ensures m.Valid() && OnlySpace(old(m.S()), m.S(), m.cr3)
    ensures ok ==> ExecImage(Image(m.mem, m.cr3), Image(old(m.mem), m.cr3))
    ensures var needed := USER_STACK_PAGES + (if DirOf(USER_HIGH) in TablesOf(old(m.mem), m.cr3) then 0 else 1);
      && (ok <==> |old(m.pmm.free)| >= needed)
      && (ok ==> |m.pmm.free| == |old(m.pmm.free)| - needed)
  {
    hide Inv, Image, OnlySpace, TablesOf, DirOf, TableOf, WalkEntry, PageBytes, BelowStack, StackUp, ExecImage,
         Machine.Valid;
    ghost var s := m.S();
    ghost var extra := if DirOf(USER_HIGH) in TablesOf(m.mem, m.cr3) then 0 else 1;
    ValidParts(m);
    OnlySpaceRefl(s, m.cr3);
    NoStackBelow(Image(m.mem, m.cr3));
    for i := 0 to USER_STACK_PAGES
      invariant m.Valid() && OnlySpace(s, m.S(), m.cr3)
      invariant StackUp(Image(m.mem, m.cr3), Image(s.mem, m.cr3), USER_HIGH + i * 0x1000)
      invariant |m.pmm.free| == |s.free| - i - (if i == 0 then 0 else extra)
      invariant i == 0 ==> m.S() == s
      invariant i > 0 ==> DirOf(USER_HIGH) in TablesOf(m.mem, m.cr3)
    {
      ghost var n := m.S();
      var a := USER_HIGH + i * 0x1000;
      StackAddress(a);
      ValidParts(m);
      NoStackAt(Image(m.mem, m.cr3), Image(s.mem, m.cr3), a);
      PageAbsent(n, m.cr3, a);
      HasTable(m.mem, m.cr3, DirOf(a));
      ghost var page;
      ok, page := MapFrame(m, a);
      OnlySpaceTrans(s, n, m.S(), m.cr3);
      if !ok {
        return false;
      }
      StackRises(Image(n.mem, m.cr3), Image(s.mem, m.cr3), a, page);
    }
    StackRisen(Image(m.mem, m.cr3), Image(s.mem, m.cr3));
    ok := true;
  }

  lemma NoStackBelow(img: Img)
    requires BelowStack(img)
    ensures StackUp(img, img, USER_HIGH)
  {
  }

  // ---- exec -----------------------------------------------------------------------------------------------

  /** An exec that got as far as loading and failed has left nothing behind. */
  lemma ExecUndone(s0: Space, s: Space, x: Space, n: Space, C: int, table: int)
    requires Inv(s0) && NewDirectoryMade(s0, s, C, table) && (table == 0 || table !in s0.own) && table != C
    requires OnlySpace(s, x, C) && DirectoryFreed(x, n, C)
    ensures Unchanged(s0, n, table)
  {
    hide Inv, Pte, Pde, Reach;
    UnownedIsNotLive(s0, C);
    ReachOn(s0, s, x, {}, {C});
    ReachOn(s0, x, n, {}, {C});
    ExecUndoneOwners(s0, s, x, n, C, table);
    ExecUndonePages(s0, s, x, n, C, table);
  }

  lemma ExecUndoneOwners(s0: Space, s: Space, x: Space, n: Space, C: int, table: int)
    requires Inv(s0) && NewDirectoryMade(s0, s, C, table) && (table == 0 || table !in s0.own) && table != C
    requires OnlySpace(s, x, C) && DirectoryFreed(x, n, C)
    ensures n.own == WithScratch(s0.own, table)
  {
    hide Pte, Pde, SameUserEntries, SamePagesButZero, SameKeptPages, Reach, FreeFrames, TablesOwned, LeavesOwned,
         KernelHalf, KernelTables;
    forall f
      ensures f in n.own <==> f in WithScratch(s0.own, table)
      ensures f in n.own ==> n.own[f] == WithScratch(s0.own, table)[f]
    {
      if f in s0.own {
        assert OwnerTrue(s0, f, s0.own[f]);
        assert !HeldInside(s0.own[f], C) && !HeldBy(s0.own[f], f, C);
        assert f in s.own && s.own[f] == s0.own[f];
        assert f in x.own && x.own[f] == s0.own[f];
      }
      if f in n.own {
        assert f in x.own && !HeldBy(x.own[f], f, C);
        assert !HeldInside(x.own[f], C);
        assert f in s.own && s.own[f] == x.own[f];
      }
      if table != 0 && f == table {
        assert f in s.own && s.own[f] == KernelTable(TMP_DIR);
        assert f in x.own && x.own[f] == s.own[f];
      }
    }
  }

  lemma ExecUndonePages(s0: Space, s: Space, x: Space, n: Space, C: int, table: int)
    requires Inv(s0) && NewDirectoryMade(s0, s, C, table) && C !in s0.dirs
    requires n.own == WithScratch(s0.own, table) && (table == 0 || table !in s0.own) && table != C
    requires OnlySpace(s, x, C) && DirectoryFreed(x, n, C)
    ensures SameUserEntries(s0, n) && SamePagesButZero(s0, n) && SameShape(s0, n)
  {
    hide Pte, Pde, Inv;
    assert n.dirs == s0.dirs;
    forall f | f in s0.own && 0 < f < |s0.mem| && Plain(s0.own[f])
      ensures n.mem[f] == s0.mem[f]
    {
      NotInside(s0, f, C);
      assert f in s.own && s.own[f] == s0.own[f];
      assert f in n.own && n.own[f] == s0.own[f];
      PlainIsNotDirectory(s0, f);
      assert n.mem[f] == x.mem[f] == s.mem[f] == s0.mem[f];
    }
  }

  lemma NotInside(s: Space, f: int, C: int)
    requires Inv(s) && C !in s.dirs && f in s.own
    ensures !HeldInside(s.own[f], C) && !HeldBy(s.own[f], f, C)
  {
    assert OwnerTrue(s, f, s.own[f]);
  }

  /** What the old space holds is the same before and after the new one is built. */
  lemma HeldKept(s0: Space, s: Space, x: Space, P: int, C: int, table: int)
    requires Inv(s0) && P in s0.dirs && NewDirectoryMade(s0, s, C, table) && (table == 0 || table !in s0.own)
    requires OnlySpace(s, x, C) && P != C
    ensures HeldFrames(x.own, P) == HeldFrames(s0.own, P)
  {
    hide Inv, Pte, Pde, SameUserEntries, SamePagesButZero, SamePlainPages;
    forall f
      ensures f in HeldFrames(x.own, P) <==> f in HeldFrames(s0.own, P)
    {
      if f in s0.own && HeldBy(s0.own[f], f, P) {
        NotTheNewOne(s0, f, P, C);
        assert f in s.own && s.own[f] == s0.own[f];
        assert f in x.own && x.own[f] == s0.own[f];
      }
      if f in x.own && HeldBy(x.own[f], f, P) {
        assert !HeldInside(x.own[f], C);
        assert f in s.own && s.own[f] == x.own[f];
      }
    }
  }

  lemma HeldPagesKept(s0: Space, s: Space, x: Space, P: int, C: int, table: int)
    requires Inv(s0) && P in s0.dirs && NewDirectoryMade(s0, s, C, table) && (table == 0 || table !in s0.own)
    requires OnlySpace(s, x, C) && P != C
    ensures |x.mem| == |s0.mem| && SameHeld(s0, x, P)
  {
    hide Frames, FreeFrames, TablesOwned, LeavesOwned, KernelHalf, KernelTables;
    forall f | f in s0.own && 0 < f < |s0.mem| && HeldInside(s0.own[f], P)
      ensures x.mem[f] == s0.mem[f]
    {
      assert OwnerTrue(s0, f, s0.own[f]);
      NotTheNewOne(s0, f, P, C);
      assert f in s.own && s.own[f] == s0.own[f];
      if s0.own[f].Table? {
        var d := s0.own[f].d;
        assert Pde(x.mem, P, d) == Pde(s.mem, P, d) == Pde(s0.mem, P, d);
        forall t | Slot(t)
          ensures x.mem[f][t] == s0.mem[f][t]
        {
          assert Pte(x.mem, P, d, t) == Pte(s.mem, P, d, t) == Pte(s0.mem, P, d, t);
        }
      }
    }
  }

  lemma NotTheNewOne(s: Space, f: int, P: int, C: int)
    requires f in s.own && HeldBy(s.own[f], f, P) && P != C
    ensures !HeldInside(s.own[f], C)
  {
  }

  lemma FreshSpace(s0: Space, s: Space, P: int, C: int, table: int)
    requires Inv(s0) && P in s0.dirs && NewDirectoryMade(s0, s, C, table) && (table == 0 || table !in s0.own)
    ensures C in s.dirs && P in s.dirs && C != P && s.kdir == s0.kdir && C != s.kdir && C !in s0.dirs
    ensures TablesOf(s.mem, C) == {} && Image(s.mem, C) == map[]
    ensures Elsewhere(s0, s, {C}) && s.dirs == s0.dirs + {C}
  {
    hide Image, Inv;
    NewElsewhere(s0, s, C, table);
    InvBounds(s0);
  }

  /** What process_execve relies on: frames for the unchecked allocations, and a sound file. */
  ghost predicate ExecSupply(m: Machine, data: seq<Byte>, size: int, n: nat)
    requires 0 <= size <= |data|
    reads m, m.pmm
  {
    && (Pde(m.mem, m.cr3, TMP_DIR).present || (m.dirs == {m.kdir} && |m.pmm.free| >= 2))
    && (Accepts(data, size) && m.pmm.free != {} ==>
          && Loadable(map[], data, n)
          && TablesHold(ElfPages(data, 0), FramesFor(m), {})
          && (Left(ElfPages(data, 0), FramesFor(m), {}) >= 0 && Entry(data) != 0 ==>
                Left(ElfPages(data, 0), FramesFor(m), {}) + OldFrames(m) >= USER_STACK_PAGES + 1))
  }

  ghost function FramesFor(m: Machine): int
    reads m, m.pmm
  {
    FramesLeft(|m.pmm.free|, Pde(m.mem, m.cr3, TMP_DIR).present)
  }

  ghost function OldFrames(m: Machine): int
    reads m
  {
    if m.cr3 == m.kdir then 0 else |HeldFrames(m.own, m.cr3)|
  }

  /** The image is accepted, fits in the frames there are, and does not start at address 0. */
  ghost predicate Runs(m: Machine, data: seq<Byte>, size: int)
    requires 0 <= size <= |data|
    reads m, m.pmm
  {
    Accepts(data, size) && HeadersFit(data) && Left(ElfPages(data, 0), FramesFor(m), {}) >= 0 && Entry(data) != 0
  }

  /** Directory C is new and holds the program; every other space, and what the old one P holds, is as before. */
  ghost predicate Built(s0: Space, s: Space, P: int, C: int, entry: int, brk: int, data: seq<Byte>, n: nat)
  {
    && C !in s0.dirs && s.dirs == s0.dirs + {C}
    && Elsewhere(s0, s, {C})
    && |data| >= EHDR_SIZE && Loadable(map[], data, n)
    && Image(s.mem, C) == Program(map[], data, n)
    && entry == Entry(data) && brk == Highest(data, PhNum(data))
    && HeldFrames(s.own, P) == HeldFrames(s0.own, P)
    && SameHeld(s0, s, P) && FreeSame(s0, s)
  }

  /** The pages and page tables of the user half of P hold what they held. */
  ghost predicate SameHeld(s0: Space, s: Space, P: int)
    requires |s.mem| == |s0.mem|
  {
    forall f {:trigger s.mem[f]} :: f in s0.own && 0 < f < |s0.mem| && HeldInside(s0.own[f], P) ==>
      s.mem[f] == s0.mem[f]
  }

  /** Load into the directory that was just made; on failure switch back and free it. */
  method LoadInto(m: Machine, dir: int, data: seq<Byte>, size: int, ghost n: nat, ghost s0: Space, ghost table: int)
    returns (entry: int, brk: int)
    requires m.Valid() && 0 <= size <= |data| && Inv(s0) && m.cr3 in s0.dirs
    requires dir % PAGE == 0 && NewDirectoryMade(s0, m.S(), dir / PAGE, table)
    requires (table == 0 || table !in s0.own) && table != dir / PAGE
    requires Accepts(data, size) ==> Loadable(map[], data, n) && TablesHold(ElfPages(data, 0), |m.pmm.free|, {})
    modifies m`mem, m`own, m`dirs, m`cr3, m.pmm, m.pmm.bitmap
    ensures m.Valid()
    ensures entry == 0 ==> Unchanged(s0, m.S(), table) && m.cr3 == old(m.cr3)
    ensures entry != 0 <==>
      Accepts(data, size) && Left(ElfPages(data, 0), |old(m.pmm.free)|, {}) >= 0 && Entry(data) != 0
    ensures entry != 0 ==>
      && m.cr3 == dir / PAGE
      && Built(s0, m.S(), old(m.cr3), dir / PAGE, entry, brk, data, n)
      && |m.pmm.free| == Left(ElfPages(data, 0), |old(m.pmm.free)|, {})
  {
    hide Inv, Image, OnlySpace, NewDirectoryMade, DirectoryFreed, Unchanged, Elsewhere, Loadable,
         Program, TablesHold, TablesOf, Left, ElfPages, Highest, HeldFrames, Built;
    ghost var s := m.S();
    ghost var P := m.cr3;
    var oldDir := m.cr3 * PAGE;
    FrameAddress(m.cr3);
    FreshSpace(s0, s, P, dir / PAGE, table);
    m.SwitchDirectory(dir);
    ghost var complete;
    entry, brk, complete := ElfLoad(m, data, size, n);
    ghost var x := m.S();
    OnlySpaceInv(s, x, dir / PAGE);
    if entry == 0 {
      m.SwitchDirectory(oldDir);
      m.FreeDirectory(dir);
      ExecUndone(s0, s, x, m.S(), dir / PAGE, table);
    } else {
      BuiltIntro(s0, s, x, P, dir / PAGE, table, entry, brk, data, n);
    }
  }

  /** The new space is built while the old one is still whole. */
  method ExecLoad(m: Machine, data: seq<Byte>, size: int, ghost n: nat)
    returns (dir: int, entry: int, brk: int, ghost table: int)
    requires m.Valid() && 0 <= size <= |data| && ExecSupply(m, data, size, n)
    modifies m`mem, m`own, m`dirs, m`cr3, m.pmm, m.pmm.bitmap
    ensures m.Valid()
    ensures dir == 0 <==> old(m.pmm.free) == {}
    ensures dir == 0 || entry == 0 ==> Unchanged(old(m.S()), m.S(), table) && m.cr3 == old(m.cr3)
    ensures table == 0 || table !in old(m.own)
    ensures dir != 0 ==> (entry != 0 <==> old(Runs(m, data, size)))
    ensures dir != 0 && entry != 0 ==>
      && dir % PAGE == 0 && 0 < dir < WORD && m.cr3 == dir / PAGE
      && Built(old(m.S()), m.S(), old(m.cr3), dir / PAGE, entry, brk, data, n)
      && |m.pmm.free| == Left(ElfPages(data, 0), old(FramesFor(m)), {})
  {
    hide Inv, NewDirectoryMade, NewDirectoryFailed, Unchanged, Loadable, TablesHold, Left, ElfPages, Pde, Built,
         HeadersFit, U32, U16, Entry;
    ghost var s0 := m.S();
    entry, brk := 0, 0;
    dir, table := m.NewDirectory();
    if dir == 0 {
      FailedIsUnchanged(s0, m.S());
      table := 0;
      return;
    }
    FrameArithmetic(old(m.pmm.free), m.pmm.free, dir / PAGE, table);
    AcceptedFits(data, size, n);
    MadeLive(s0, m.S(), m.cr3, dir / PAGE, table);
    entry, brk := LoadInto(m, dir, data, size, n, s0, table);
  }

  lemma AcceptedFits(data: seq<Byte>, size: int, n: nat)
    requires 0 <= size <= |data|
    ensures Accepts(data, size) ==> |data| >= EHDR_SIZE
    ensures Accepts(data, size) && Loadable(map[], data, n) ==> HeadersFit(data)
  {
    hide SegmentsOk, PageDisjoint, Relocatable, Clear;
  }

  lemma MadeLive(s0: Space, s: Space, P: int, C: int, table: int)
    requires Inv(s0) && P in s0.dirs && NewDirectoryMade(s0, s, C, table)
    ensures s.dirs == s0.dirs + {C} && Inv(s)
  {
  }

  lemma BuiltIntro(s0: Space, s: Space, x: Space, P: int, C: int, table: int, entry: int, brk: int, data: seq<Byte>,
                   n: nat)
    requires Inv(s0) && P in s0.dirs && NewDirectoryMade(s0, s, C, table) && (table == 0 || table !in s0.own)
    requires Draws(s, x, C) && |data| >= EHDR_SIZE && Loadable(map[], data, n)
    requires Image(x.mem, C) == Program(map[], data, n) && entry == Entry(data) && brk == Highest(data, PhNum(data))
    ensures Built(s0, x, P, C, entry, brk, data, n)
  {
    hide Inv, Image, OnlySpace, NewDirectoryMade, Elsewhere, Loadable, Program, Highest, HeldFrames, Entry, FreeSame;
    FreshSpace(s0, s, P, C, table);
    OnlySpaceInv(s, x, C);
    MadeInv(s0, s, C, table);
    FreeSameTrans(s0, s, x);
    InsideElsewhere(s, x, C);
    ElsewhereTrans(s0, s, x, {C}, {C});
    assert {C} + {C} == {C};
    HeldKept(s0, s, x, P, C, table);
    HeldPagesKept(s0, s, x, P, C, table);
  }

  lemma MadeInv(s0: Space, s: Space, C: int, table: int)
    requires NewDirectoryMade(s0, s, C, table)
    ensures Inv(s) && FreeSame(s0, s)
  {
  }

  /** The directories whose space exec may have changed: the new one, and the old one unless it is the boot
      directory. */
  ghost function Changed(s: Space, P: int, C: int): set<int>
  {
    if P == s.kdir then {C} else {P, C}
  }

  /** exec succeeded: the new directory holds the program and a stack, the old one is gone unless it is the boot
      directory, and every other address space is as it was. */
  ghost predicate Executed(s0: Space, n: Space, P: int, C: int, data: seq<Byte>, prog: nat)
  {
    && C !in s0.dirs
    && n.dirs == (if P == s0.kdir then s0.dirs else s0.dirs - {P}) + {C}
    && Elsewhere(s0, n, Changed(s0, P, C))
    && |data| >= EHDR_SIZE && Loadable(map[], data, prog)
    && ExecImage(Image(n.mem, C), Program(map[], data, prog))
    && StackUncleared(s0, n, P, C, data, prog)
  }

  /** The stack of the new space shows what its frames held in `mid`, the state in which the program was loaded and the
      old space given up: the four lowest free frames of that state, but for the one the page table took. */
  ghost predicate StackFrom(s0: Space, mid: Space, n: Space, P: int, C: int, data: seq<Byte>, prog: nat,
                            frames: seq<int>, table: int)
  {
    && Switched(s0, mid, P, C, data, prog)
    && |frames| == USER_STACK_PAGES && StackFrames(mid.free, frames, table)
    && (table == 0 <==> DirOf(USER_HIGH) in TablesOf(mid.mem, C))
    && StackShows(Image(n.mem, C), mid.mem, frames)
  }

  ghost predicate StackUncleared(s0: Space, n: Space, P: int, C: int, data: seq<Byte>, prog: nat)
  {
    exists mid, frames, table :: StackFrom(s0, mid, n, P, C, data, prog, frames, table)
  }

  lemma StackFound(s0: Space, mid: Space, n: Space, P: int, C: int, data: seq<Byte>, prog: nat, frames: seq<int>,
                   table: int)
    requires Switched(s0, mid, P, C, data, prog)
    requires |frames| == USER_STACK_PAGES && StackFrames(mid.free, frames, table)
    requires table == 0 <==> DirOf(USER_HIGH) in TablesOf(mid.mem, C)
    requires StackShows(Image(n.mem, C), mid.mem, frames)
    ensures StackUncleared(s0, n, P, C, data, prog)
  {
    hide Switched, StackFrames, StackShows, TablesOf, Image;
    assert StackFrom(s0, mid, n, P, C, data, prog, frames, table);
  }

  /** `if (old_dir != kernel_dir) paging_free_directory(old_dir);` */
  method GiveUpOld(m: Machine, oldDir: int, dir: int, ghost s0: Space, ghost entry: int, ghost brk: int,
                   ghost data: seq<Byte>, ghost prog: nat)
    requires m.Valid() && Inv(s0) && oldDir % PAGE == 0 && oldDir / PAGE in s0.dirs && m.cr3 == dir / PAGE
    requires Built(s0, m.S(), oldDir / PAGE, dir / PAGE, entry, brk, data, prog)
    requires var given := if oldDir / PAGE == m.kdir then 0 else |HeldFrames(s0.own, oldDir / PAGE)|;
      |m.pmm.free| + given >= USER_STACK_PAGES + 1
    modifies m`mem, m`own, m`dirs, m.pmm, m.pmm.bitmap
    ensures m.Valid() && Switched(s0, m.S(), oldDir / PAGE, dir / PAGE, data, prog)
    ensures BelowStack(Image(m.mem, m.cr3)) && |m.pmm.free| >= USER_STACK_PAGES + 1
  {
    hide Inv, Built, Image, DirectoryFreed, HeldFrames, BelowStack, Switched, Entry, Highest, HeadersFit;
    ghost var s := m.S();
    ghost var P := oldDir / PAGE;
    BuiltFacts(s0, s, P, dir / PAGE, entry, brk, data, prog);
    if oldDir / PAGE != m.kdir {
      OwnedNotFree(m, P);
      ghost var before: set<int> := m.pmm.free;
      m.FreeDirectory(oldDir);
      FreedCount(before, m.pmm.free, s.own, P);
      OldGone(s0, s, m.S(), P, dir / PAGE, entry, brk, data, prog);
    } else {
      OldStays(s0, s, P, dir / PAGE, entry, brk, data, prog);
    }
  }

  lemma LoadedFacts(s0: Space, s: Space, P: int, C: int, entry: int, brk: int, data: seq<Byte>, prog: nat)
    requires Inv(s0) && P in s0.dirs && Built(s0, s, P, C, entry, brk, data, prog)
    ensures |data| >= EHDR_SIZE && HeadersFit(data) && entry == Entry(data) && brk == Highest(data, PhNum(data))
    ensures s.kdir == s0.kdir
  {
    BuiltFacts(s0, s, P, C, entry, brk, data, prog);
  }

  /** The address-space half of process_execve. `err` is 0 on success. */
  method ExecSpace(m: Machine, data: seq<Byte>, size: int, ghost prog: nat)
    returns (err: int, dir: int, entry: int, brk: int, ghost table: int)
    requires m.Valid() && 0 <= size <= |data| && ExecSupply(m, data, size, prog)
    modifies m`mem, m`own, m`dirs, m`cr3, m.pmm, m.pmm.bitmap
    ensures m.Valid()
    ensures err == (if old(m.pmm.free) == {} then -ENOMEM else if old(Runs(m, data, size)) then 0 else -ENOEXEC)
    ensures err != 0 ==>
      Unchanged(old(m.S()), m.S(), table) && m.cr3 == old(m.cr3) && (table == 0 || table !in old(m.own))
    ensures err == 0 ==>
      && dir % PAGE == 0 && 0 < dir < WORD && m.cr3 == dir / PAGE && |data| >= EHDR_SIZE && HeadersFit(data)
      && Executed(old(m.S()), m.S(), old(m.cr3), dir / PAGE, data, prog)
      && entry == Entry(data) && entry != 0 && brk == Highest(data, PhNum(data))
  {
    hide Inv, Unchanged, Loadable, TablesHold, Left, ElfPages, Pde, Built, HeadersFit, U32, U16, Entry, Elsewhere,
         Image, OnlySpace, Executed, Highest, HeldFrames, BelowStack, Program, ExecImage, Switched, StackFrames,
         StackShows, StackUncleared, DirOf, TablesOf;
    ghost var s0 := m.S();
    ghost var P := m.cr3;
    var oldDir := m.cr3 * PAGE;
    FrameAddress(m.cr3);
    dir, entry, brk, table := ExecLoad(m, data, size, prog);
    if dir == 0 {
      return -ENOMEM, 0, 0, 0, table;
    }
    if entry == 0 {
      return -ENOEXEC, 0, 0, 0, table;
    }
    LoadedFacts(s0, m.S(), P, dir / PAGE, entry, brk, data, prog);
    GiveUpOld(m, oldDir, dir, s0, entry, brk, data, prog);
    ghost var x := m.S();
    ghost var frames, stackTable := MapStack(m);
    StackFound(s0, x, m.S(), P, dir / PAGE, data, prog, frames, stackTable);
    ExecDone(s0, x, m.S(), P, dir / PAGE, data, prog);
    err := 0;
  }

  lemma BuiltFacts(s0: Space, s: Space, P: int, C: int, entry: int, brk: int, data: seq<Byte>, prog: nat)
    requires Inv(s0) && P in s0.dirs && Built(s0, s, P, C, entry, brk, data, prog)
    ensures C in s.dirs && P in s.dirs && C != P && s.kdir == s0.kdir
    ensures |data| >= EHDR_SIZE && HeadersFit(data) && entry == Entry(data) && brk == Highest(data, PhNum(data))
    ensures HeldFrames(s.own, P) == HeldFrames(s0.own, P)
  {
    hide Inv, Image, HeldFrames, Program, Highest, Entry, SegmentsOk, PageDisjoint, Relocatable;
  }

  /** Frames a directory holds are not free. */
  lemma OwnedNotFree(m: Machine, P: int)
    requires m.Valid()
    ensures forall f :: f in m.pmm.free ==> f !in HeldFrames(m.own, P)
  {
    OwnedInRange(m.S());
    hide Inv;
  }

  lemma FreedCount(before: set<int>, after: set<int>, own: map<int, Owner>, P: int)
    requires after == before + HeldFrames(own, P)
    requires forall f :: f in before ==> f !in HeldFrames(own, P)
    ensures |after| == |before| + |HeldFrames(own, P)|
  {
    var b := HeldFrames(own, P);
    assert before !! b;
    assert after == before + b;
  }

  /** The old space is gone or left to the kernel, and the new one holds the program. */
  ghost predicate Switched(s0: Space, x: Space, P: int, C: int, data: seq<Byte>, prog: nat)
  {
    && C !in s0.dirs
    && x.dirs == (if P == s0.kdir then s0.dirs else s0.dirs - {P}) + {C}
    && Inv(x)
    && Elsewhere(s0, x, Changed(s0, P, C))
    && |data| >= EHDR_SIZE && Loadable(map[], data, prog)
    && Image(x.mem, C) == Program(map[], data, prog)
    && LeftOver(s0, x, P)
  }

  /** What is free once the old space is given up was free at the start, or the old space held it; and it holds what it
      held at the start (the old directory's own page apart). */
  ghost predicate LeftOver(s0: Space, x: Space, P: int)
  {
    && |x.mem| == |s0.mem|
    && (forall f {:trigger f in x.free} :: f in x.free ==>
          0 < f < |x.mem| && (f in s0.free || (P != s0.kdir && f in HeldFrames(s0.own, P))))
    && (forall f {:trigger x.mem[f]} :: f in x.free && 0 < f < |x.mem| && (P == s0.kdir || f != P) ==>
          x.mem[f] == s0.mem[f])
  }

  lemma LeftToKernel(s0: Space, s: Space, P: int, C: int, entry: int, brk: int, data: seq<Byte>, prog: nat)
    requires Inv(s0) && Inv(s) && Built(s0, s, P, C, entry, brk, data, prog) && P == s0.kdir
    ensures LeftOver(s0, s, P)
  {
    hide TablesOwned, LeavesOwned, OwnersTrue, KernelHalf, KernelTables, Image, Loadable, Program, Elsewhere, Highest,
         Entry, HeldFrames;
    forall f | f in s.free
      ensures 0 < f < |s.mem| && f in s0.free
    {
      assert f !in s.own;
    }
  }

  lemma LeftByOld(s0: Space, s: Space, x: Space, P: int, C: int, entry: int, brk: int, data: seq<Byte>, prog: nat)
    requires Inv(s0) && P in s0.dirs && P != s0.kdir && Built(s0, s, P, C, entry, brk, data, prog) && Inv(s)
    requires DirectoryFreed(s, x, P)
    ensures LeftOver(s0, x, P)
  {
    hide TablesOwned, LeavesOwned, OwnersTrue, KernelHalf, KernelTables, Image, Loadable, Program, Elsewhere, Highest,
         Entry, Reach, SameUserEntries, SameKeptPages;
    forall f | f in x.free
      ensures 0 < f < |x.mem| && (f in s0.free || f in HeldFrames(s0.own, P))
      ensures f != P ==> x.mem[f] == s0.mem[f]
    {
      assert f !in x.own;
      if f in s.own {
        assert f in HeldFrames(s.own, P);
        assert x.mem[f] == s.mem[f];
      } else {
        assert f in s.free;
        assert x.mem[f] == s.mem[f];
      }
    }
  }

  lemma OldGone(s0: Space, s: Space, x: Space, P: int, C: int, entry: int, brk: int, data: seq<Byte>, prog: nat)
    requires Inv(s0) && P in s0.dirs && P != s0.kdir && Built(s0, s, P, C, entry, brk, data, prog) && Inv(s) && Inv(x)
    requires DirectoryFreed(s, x, P)
    ensures Switched(s0, x, P, C, data, prog) && BelowStack(Image(x.mem, C))
  {
    hide Inv, Image, Loadable, Program, Elsewhere, DirectoryFreed, HeldFrames, Highest, Entry, LeftOver,
         FreeSame;
    BuiltFacts(s0, s, P, C, entry, brk, data, prog);
    FreedDirs(s, x, P);
    FreedElsewhere(s, x, P);
    ElsewhereTrans(s0, s, x, {C}, {P});
    assert {C} + {P} == {P, C};
    ElsewhereImage(s, x, {P}, C);
    LeftByOld(s0, s, x, P, C, entry, brk, data, prog);
    ProgramBelow(data, prog);
  }

  lemma FreedDirs(s: Space, x: Space, P: int)
    requires DirectoryFreed(s, x, P)
    ensures x.dirs == s.dirs - {P} && x.kdir == s.kdir && Inv(x)
  {
  }

  lemma ElsewhereImage(s: Space, n: Space, changed: set<int>, E: int)
    requires Elsewhere(s, n, changed) && E in s.dirs && E !in changed
    ensures Image(n.mem, E) == Image(s.mem, E)
  {
    hide Image, Inv;
  }

  lemma OldStays(s0: Space, s: Space, P: int, C: int, entry: int, brk: int, data: seq<Byte>, prog: nat)
    requires Inv(s0) && Built(s0, s, P, C, entry, brk, data, prog) && P == s0.kdir && Inv(s)
    ensures Switched(s0, s, P, C, data, prog) && BelowStack(Image(s.mem, C))
  {
    hide Inv, Image, Loadable, Program, Elsewhere, HeldFrames, Highest, Entry, LeftOver, FreeSame;
    LeftToKernel(s0, s, P, C, entry, brk, data, prog);
    ProgramBelow(data, prog);
  }

  lemma ExecDone(s0: Space, x: Space, n: Space, P: int, C: int, data: seq<Byte>, prog: nat)
    requires Switched(s0, x, P, C, data, prog) && OnlySpace(x, n, C)
    requires ExecImage(Image(n.mem, C), Image(x.mem, C)) && StackUncleared(s0, n, P, C, data, prog)
    ensures Executed(s0, n, P, C, data, prog)
  {
    hide Inv, Image, Loadable, Program, Elsewhere, OnlySpace, ExecImage, StackUncleared, LeftOver;
    OnlySpaceInv(x, n, C);
    InsideElsewhere(x, n, C);
    ElsewhereTrans(s0, x, n, Changed(s0, P, C), {C});
    assert Changed(s0, P, C) + {C} == Changed(s0, P, C);
  }

  // ---- the stack of an exec, told from the state before it --------------------------------------------------------

  /** A frame exec may give to the new stack: it was free, or the old space held it. */
  ghost predicate ForStack(s0: Space, P: int, f: int)
  {
    0 < f < |s0.mem| && (f in s0.free || (P != s0.kdir && f in HeldFrames(s0.own, P)))
  }

  /** The new stack shows what four different frames held before the call: free ones, or ones of the old program. Only
      the old directory's own page is left open. */
  lemma StackBefore(s0: Space, n: Space, P: int, C: int, data: seq<Byte>, prog: nat) returns (frames: seq<int>)
    requires Executed(s0, n, P, C, data, prog)
    ensures |frames| == USER_STACK_PAGES
    ensures forall k {:trigger frames[k]} :: 0 <= k < |frames| ==> ForStack(s0, P, frames[k])
    ensures forall j, k {:trigger frames[j], frames[k]} :: 0 <= j < k < |frames| ==> frames[j] != frames[k]
    ensures P == s0.kdir || P !in frames ==> StackShows(Image(n.mem, C), s0.mem, frames)
  {
    hide Image, Elsewhere, Loadable, Program, ExecImage, TablesOf, PageByte, HeldFrames;
    ghost var mid, all, table :| StackFrom(s0, mid, n, P, C, data, prog, all, table);
    frames := all;
    StackFramesFree(mid, frames, table);
    FramesDiffer(mid.free, frames, table);
    if P == s0.kdir || P !in frames {
      forall k, va | 0 <= k < |frames| && InStackPage(va, k)
        ensures ShowsAt(Image(n.mem, C), s0.mem, frames, k, va)
      {
        assert ShowsAt(Image(n.mem, C), mid.mem, frames, k, va);
        assert mid.mem[frames[k]] == s0.mem[frames[k]];
      }
    }
  }

  lemma FramesDiffer(free: set<int>, frames: seq<int>, table: int)
    requires StackFrames(free, frames, table)
    ensures forall j, k {:trigger frames[j], frames[k]} :: 0 <= j < k < |frames| ==> frames[j] != frames[k]
  {
    forall j, k | 0 <= j < k < |frames|
      ensures frames[j] != frames[k]
    {
      assert frames[k] in Unused(free, frames[..k], table);
      assert frames[j] == frames[..k][j];
    }
  }

  /** An exec whose stack does not read zero: memory as the boot loader left it, no free frame cleared. */
  method StackNotCleared(ram: seq<Page>, allocator: Pmm.FrameAllocator, directory: int, firstTable: int,
                         data: seq<Byte>, ghost prog: nat)
    returns (m: Machine)
    requires allocator.Valid() && allocator.totalFrames == |ram| <= 0x10_0000
    requires 0 < directory < |ram| && 0 < firstTable < |ram| && directory != firstTable
    requires directory !in allocator.free && firstTable !in allocator.free
    requires Accepts(data, |data|) && HeadersFit(data) && Loadable(map[], data, prog) && Entry(data) != 0
    requires TablesHold(ElfPages(data, 0), |allocator.free| - 2, {})
    requires Left(ElfPages(data, 0), |allocator.free| - 2, {}) >= USER_STACK_PAGES + 1
    requires forall f {:trigger ram[f]} :: f in allocator.free ==> ram[f] != ZeroPage()
    modifies allocator, allocator.bitmap
    ensures m.Valid() && m.cr3 != m.kdir && ExecImage(Image(m.mem, m.cr3), Program(map[], data, prog))
    ensures !StackZero(Image(m.mem, m.cr3))
  {
    hide Inv, Image, StackShows, StackZero, StackFrames, Machine.Valid, Pmm.FrameAllocator.Valid, OnlySpace, ExecImage,
         TablesOf, Loadable, TablesHold, Left, ElfPages, Entry, HeadersFit, Program, Executed, U16, U32, ZeroPage;
    m := new Machine(ram, allocator, directory, firstTable);
    ValidParts(m);
    ghost var s := m.S();
    LeftBound(ElfPages(data, 0), |allocator.free| - 2, {});
    assert !Pde(m.mem, m.cr3, TMP_DIR).present;
    assert FramesFor(m) == |allocator.free| - 2;
    var err, dir, entry, brk;
    ghost var table;
    err, dir, entry, brk, table := ExecSpace(m, data, |data|, prog);
    ghost var frames := StackBefore(s, m.S(), s.kdir, m.cr3, data, prog);
    ExecutedParts(s, m.S(), s.kdir, m.cr3, data, prog);
    StackZeroIff(Image(m.mem, m.cr3), s.mem, frames);
    assert s.mem[frames[0]] == ram[frames[0]] != ZeroPage();
  }

  lemma ExecutedParts(s: Space, n: Space, P: int, C: int, data: seq<Byte>, prog: nat)
    requires Executed(s, n, P, C, data, prog) && s.kdir in s.dirs
    ensures C != s.kdir && n.kdir == s.kdir && ExecImage(Image(n.mem, C), Program(map[], data, prog))
  {
    hide Image, Loadable, Program, ExecImage, StackUncleared;
  }

  // ---- the first program ------------------------------------------------------------------------------------------

  /** What loading the first program relies on: a sound file, and frames for the page tables that nobody checks. */
  ghost predicate LoadSupply(m: Machine, data: seq<Byte>, n: nat)
    reads m, m.pmm
  {
    Accepts(data, |data|) ==>
      && Loadable(map[], data, n)
      && TablesHold(ElfPages(data, 0), |m.pmm.free|, TablesOf(m.mem, m.cr3))
      && LoadLeft(m, data) != 1
  }

  /** The frames left once the file is loaded; negative if there are not enough. */
  ghost function LoadLeft(m: Machine, data: seq<Byte>): int
    requires HeadersFit(data)
    reads m, m.pmm
  {
    Left(ElfPages(data, 0), |m.pmm.free|, TablesOf(m.mem, m.cr3))
  }

  /** The directory shows the program and a stack, and nothing else changed. */
  ghost predicate FirstLoaded(s: Space, n: Space, D: int, data: seq<Byte>, prog: nat)
  {
    && OnlySpace(s, n, D)
    && |data| >= EHDR_SIZE && Loadable(map[], data, prog)
    && ExecImage(Image(n.mem, D), Program(map[], data, prog))
  }

  lemma BelowTheStack(data: seq<Byte>, n: nat)
    requires |data| >= EHDR_SIZE && Loadable(map[], data, n)
    ensures BelowStack(Program(map[], data, n))
  {
    hide Loadable, Program;
    ProgramBelow(data, n);
  }

  /** The stack takes its pages and at most one table. */
  predicate StackPaid(before: int, after: int)
  {
    0 <= after && USER_STACK_PAGES <= before - after <= USER_STACK_PAGES + 1
  }

  /** load_program and map_user_stack of kernel_main, in the boot directory; false when either panics. */
  method LoadFirst(m: Machine, data: seq<Byte>, ghost n: nat) returns (ok: bool, entry: int, brk: int)
    requires m.Valid() && Image(m.mem, m.cr3) == map[] && LoadSupply(m, data, n)
    modifies m`mem, m`own, m.pmm, m.pmm.bitmap
    ensures m.Valid()
    ensures ok ==>
      && FirstLoaded(old(m.S()), m.S(), m.cr3, data, n) && HeadersFit(data) && brk == Highest(data, PhNum(data))
      && Accepts(data, |data|) && entry == Entry(data) != 0 && StackPaid(old(LoadLeft(m, data)), |m.pmm.free|)
    ensures Accepts(data, |data|) ==> HeadersFit(data)
    ensures Accepts(data, |data|) && Entry(data) != 0 && old(LoadLeft(m, data)) > USER_STACK_PAGES ==> ok
  {
    hide Inv, Image, OnlySpace, Loadable, TablesHold, Left, ElfPages, TablesOf, Program, ExecImage, Entry, Highest,
         PhNum, U16, U32, HeadersFit, BelowStack, DirOf, Machine.Valid;
    ghost var s := m.S();
    ghost var complete;
    AcceptedFits(data, |data|, n);
    entry, brk, complete := ElfLoad(m, data, |data|, n);
    if entry == 0 {
      return false, 0, 0;
    }
    ghost var x := m.S();
    BelowTheStack(data, n);
    ok := MapUserStack(m);
    OnlySpaceTrans(s, x, m.S(), m.cr3);
  }
}
