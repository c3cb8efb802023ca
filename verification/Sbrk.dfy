/** Growing and shrinking the user heap (kernel/arch/i386/syscall.c, sys_sbrk). */
module Sbrk {
  import opened Arith
  import opened Words
  import opened Paging
  import opened Address
  import opened UserSpace
  import opened Pages
  import opened UserMap
  import opened Machine
  import opened Errno

  const USER_BRK_LIMIT := 0xB000_0000

  /** The pages of the list that are not mapped yet. */
  ghost function Absent(mem: seq<Page>, D: int, pages: seq<int>): seq<int>
  {
    if pages == [] then []
    else if WalkEntry(mem, D, pages[0]).present then Absent(mem, D, pages[1..])
    else [pages[0]] + Absent(mem, D, pages[1..])
  }

  /** The heap now reaches up to `to`: pages in [from, to) that were absent are mapped, writable and zero, and
      nothing else changed in this address space or in any other. */
  ghost predicate Grown(s: Space, n: Space, D: int, from: int, to: int)
  {
    && OnlySpace(s, n, D)
    && (forall d, t {:trigger Pte(n.mem, D, d, t)} :: UserDir(d) && Slot(t) ==>
          if Pte(s.mem, D, d, t).present then Pte(n.mem, D, d, t) == Pte(s.mem, D, d, t)
          else NewEntry(Pte(n.mem, D, d, t), from <= PageAddr(d, t) < to))
    && BytesGrown(Image(s.mem, D), Image(n.mem, D), from, to)
  }

  /** An entry that was absent is present exactly if its page was asked for, and then user mode may read and write
      it. */
  predicate NewEntry(w: Word, asked: bool)
  {
    (w.present <==> asked) && (w.present ==> Flags(w) == Word(0, 0, true, true, true))
  }

  /** The bytes user mode sees before and after such a growth. */
  ghost predicate BytesGrown(a: map<int, Byte>, b: map<int, Byte>, from: int, to: int)
  {
    && (forall va {:trigger va in b} :: 0 <= va < WORD ==> (va in b <==> va in a || from <= RoundDown(va) < to))
    && (forall va {:trigger b[va]} :: va in b ==> b[va] == if va in a then a[va] else 0)
  }

  ghost predicate BytesShrunk(a: map<int, Byte>, b: map<int, Byte>, from: int, to: int)
  {
    && (forall va {:trigger va in b} :: 0 <= va < WORD ==> (va in b <==> va in a && !(from <= RoundDown(va) < to)))
    && (forall va {:trigger b[va]} :: va in b ==> va in a && b[va] == a[va])
  }

  lemma GrownRefl(s: Space, D: int, from: int)
    requires Inv(s)
    ensures Grown(s, s, D, from, from)
  {
    hide Image;
    OnlySpaceRefl(s, D);
    ImageRange(s.mem, D);
  }

  /** One turn of the growing loop: the page at `a` was there, or has just been mapped and cleared. */
  lemma GrownStep(s: Space, n: Space, n2: Space, D: int, from: int, a: int)
    requires Inv(s) && D in s.dirs && Grown(s, n, D, from, a) && from <= a && a % PAGE == 0 && 0 <= a < WORD
    requires UserDir(DirOf(a))
    requires if WalkEntry(n.mem, D, a).present then n2 == n else ZeroPageMapped(n, n2, D, DirOf(a), TableOf(a))
    ensures Grown(s, n2, D, from, a + PAGE)
  {
    hide Inv, Image, OnlySpace, Pte, DirOf, TableOf, RoundDown, PageBytes;
    var d, t := DirOf(a), TableOf(a);
    AddressParts(a);
    AlignedAddress(a);
    GrownEntries(s, n, n2, D, from, a);
    GrownBytes(s, n, n2, D, from, a);
    if !WalkEntry(n.mem, D, a).present {
      OnlySpaceTrans(s, n, n2, D);
    }
  }

  lemma GrownEntries(s: Space, n: Space, n2: Space, D: int, from: int, a: int)
    requires Grown(s, n, D, from, a) && from <= a && a % PAGE == 0 && 0 <= a < WORD && UserDir(DirOf(a))
    requires if WalkEntry(n.mem, D, a).present then n2 == n else ZeroPageMapped(n, n2, D, DirOf(a), TableOf(a))
    ensures forall d, t {:trigger Pte(n2.mem, D, d, t)} :: UserDir(d) && Slot(t) ==>
      if Pte(s.mem, D, d, t).present then Pte(n2.mem, D, d, t) == Pte(s.mem, D, d, t)
      else NewEntry(Pte(n2.mem, D, d, t), from <= PageAddr(d, t) < a + PAGE)
  {
    hide Grown, ZeroPageMapped, WalkEntry, Pte, DirOf, TableOf, PageAddr, NewEntry;
    forall d, t | UserDir(d) && Slot(t)
      ensures if Pte(s.mem, D, d, t).present then Pte(n2.mem, D, d, t) == Pte(s.mem, D, d, t)
              else NewEntry(Pte(n2.mem, D, d, t), from <= PageAddr(d, t) < a + PAGE)
    {
      GrownEntry(s, n, n2, D, from, a, d, t);
    }
  }

  lemma GrownEntry(s: Space, n: Space, n2: Space, D: int, from: int, a: int, d: int, t: int)
    requires Grown(s, n, D, from, a) && from <= a && a % PAGE == 0 && 0 <= a < WORD && UserDir(DirOf(a))
    requires if WalkEntry(n.mem, D, a).present then n2 == n else ZeroPageMapped(n, n2, D, DirOf(a), TableOf(a))
    requires UserDir(d) && Slot(t)
    ensures if Pte(s.mem, D, d, t).present then Pte(n2.mem, D, d, t) == Pte(s.mem, D, d, t)
            else NewEntry(Pte(n2.mem, D, d, t), from <= PageAddr(d, t) < a + PAGE)
  {
    hide Inv, Image, OnlySpace, Pte, DirOf, TableOf, RoundDown, PageBytes, BytesGrown, TablesOf;
    AlignedAddress(a);
    PagesApart(d, t, DirOf(a), TableOf(a));
    assert Pte(n.mem, D, d, t) == Pte(n.mem, D, d, t);
    assert Pte(n2.mem, D, d, t) == Pte(n2.mem, D, d, t);
  }

  lemma GrownBytes(s: Space, n: Space, n2: Space, D: int, from: int, a: int)
    requires Inv(s) && D in s.dirs && Grown(s, n, D, from, a) && from <= a && a % PAGE == 0 && 0 <= a < WORD
    requires UserDir(DirOf(a))
    requires if WalkEntry(n.mem, D, a).present then n2 == n else ZeroPageMapped(n, n2, D, DirOf(a), TableOf(a))
    ensures forall va {:trigger va in Image(n2.mem, D)} :: 0 <= va < WORD ==>
      (va in Image(n2.mem, D) <==> va in Image(s.mem, D) || from <= RoundDown(va) < a + PAGE)
    ensures forall va {:trigger Image(n2.mem, D)[va]} :: va in Image(n2.mem, D) ==>
      Image(n2.mem, D)[va] == if va in Image(s.mem, D) then Image(s.mem, D)[va] else 0
  {
    ImageRange(n2.mem, D);
    hide *;
    forall va | 0 <= va < WORD
      ensures va in Image(n2.mem, D) <==> va in Image(s.mem, D) || from <= RoundDown(va) < a + PAGE
      ensures va in Image(n2.mem, D) ==>
        Image(n2.mem, D)[va] == if va in Image(s.mem, D) then Image(s.mem, D)[va] else 0
    {
      GrownByte(s, n, n2, D, from, a, va);
    }
  }

  lemma GrownByte(s: Space, n: Space, n2: Space, D: int, from: int, a: int, va: int)
    requires Inv(s) && D in s.dirs && Grown(s, n, D, from, a) && from <= a && a % PAGE == 0 && 0 <= a < WORD
    requires UserDir(DirOf(a))
    requires if WalkEntry(n.mem, D, a).present then n2 == n else ZeroPageMapped(n, n2, D, DirOf(a), TableOf(a))
    requires 0 <= va < WORD
    ensures va in Image(n2.mem, D) <==> va in Image(s.mem, D) || from <= RoundDown(va) < a + PAGE
    ensures va in Image(n2.mem, D) ==> Image(n2.mem, D)[va] == if va in Image(s.mem, D) then Image(s.mem, D)[va] else 0
  {
    hide Inv, Image, OnlySpace, Pte, DirOf, TableOf, WordOf, RoundDown, PageBytes, UserDir;
    AlignedAddress(a);
    PageOf(va, DirOf(a), TableOf(a));
    RoundDownAligned(va, a);
    GrownOnly(s, n, D, from, a);
    OnlySpaceInv(s, n, D);
    MappedPageBytes(n, D, a, va);
    ZeroBytes(DirOf(a), TableOf(a), va);
  }

  lemma GrownOnly(s: Space, n: Space, D: int, from: int, to: int)
    requires Grown(s, n, D, from, to)
    ensures OnlySpace(s, n, D)
  {
  }

  lemma PageLists(mem: seq<Page>, D: int, a: int, to: int)
    requires a < to
    ensures PageList(a, to) != [] && PageList(a, to)[0] == a && PageList(a, to)[1..] == PageList(a + PAGE, to)
    ensures WalkEntry(mem, D, a).present ==> Absent(mem, D, PageList(a, to)) == Absent(mem, D, PageList(a + PAGE, to))
    ensures !WalkEntry(mem, D, a).present ==>
      Absent(mem, D, PageList(a, to)) == [a] + Absent(mem, D, PageList(a + PAGE, to))
  {
  }

  lemma NoneLeft(mem: seq<Page>, D: int, a: int, to: int, free: int, have: set<int>)
    requires a >= to
    ensures Left(Absent(mem, D, PageList(a, to)), free, have) == free
  {
  }

  /** Pages not yet reached are as they were. */
  lemma StillAbsent(s: Space, n: Space, D: int, from: int, a: int)
    requires Grown(s, n, D, from, a) && 0 <= a < WORD && a % PAGE == 0 && UserDir(DirOf(a))
    ensures WalkEntry(n.mem, D, a).present <==> WalkEntry(s.mem, D, a).present
  {
    hide Inv, Image, OnlySpace, Pte, DirOf, TableOf;
    AlignedAddress(a);
    assert Pte(n.mem, D, DirOf(a), TableOf(a)) == WalkEntry(n.mem, D, a);
  }

  lemma EntryInRange(n: Space, D: int, a: int)
    ensures a % PAGE == 0 ==> WalkEntry(n.mem, D, a).frame * PAGE + a % PAGE != NO_PHYS
  {
  }

  lemma StillHolds(s: Space, n: Space, n2: Space, D: int, a: int, to: int)
    requires ZeroPageMapped(n, n2, D, DirOf(a), TableOf(a))
    ensures TablesOf(n2.mem, D) == TablesOf(n.mem, D) + {DirOf(a)}
    ensures DirOf(a) in TablesOf(n.mem, D) ==> TablesOf(n2.mem, D) == TablesOf(n.mem, D)
  {
  }

  /** The frames left once every absent page of [from, to) is mapped; negative if there are not enough. */
  ghost function FramesAfter(s: Space, D: int, from: int, to: int): int
  {
    Left(Absent(s.mem, D, PageList(from, to)), |s.free|, TablesOf(s.mem, D))
  }

  /** Growth came to the page at `reached`, which was not mapped, and found no frame for it. If there was a frame to
      begin with, at least one page before it is mapped now. */
  ghost predicate StoppedAt(s: Space, n: Space, D: int, from: int, to: int, reached: int)
  {
    && from <= reached < to && reached % PAGE == 0 && Grown(s, n, D, from, reached)
    && !WalkEntry(s.mem, D, reached).present
    && (s.free != {} ==> from < reached)
  }

  /** The growing loop of sys_sbrk: every absent page of [from, to) is mapped and cleared, until frames run out. */
  method MapRange(m: Machine, from: int, to: int) returns (ok: bool, ghost reached: int)
    requires m.Valid() && 0x40_0000 <= from <= to <= USER_BRK_LIMIT && from % PAGE == 0
    requires TablesHold(Absent(m.mem, m.cr3, PageList(from, to)), |m.pmm.free|, TablesOf(m.mem, m.cr3))
    modifies m`mem, m`own, m.pmm, m.pmm.bitmap
    ensures m.Valid()
    ensures ok <==> FramesAfter(old(m.S()), m.cr3, from, to) >= 0
    ensures from <= reached && reached % PAGE == 0 && Grown(old(m.S()), m.S(), m.cr3, from, reached)
    ensures ok ==> reached == RoundUp(to)
    ensures !ok ==> m.pmm.free == {} && StoppedAt(old(m.S()), m.S(), m.cr3, from, to, reached)
  {
    hide Inv, Machine.Valid, Grown, ZeroPageMapped, Pte, TablesOf, DirOf, TableOf, WalkEntry, TablesHold, Absent;
    ghost var s := m.S();
    ghost var D := m.cr3;
    ValidParts(m);
    GrownRefl(s, D, from);
    var a := from;
    while a < to
      invariant from <= a < to + PAGE && a % PAGE == 0
      invariant m.Valid() && Grown(s, m.S(), D, from, a)
      invariant a == from ==> m.S() == s
      invariant TablesHold(Absent(s.mem, D, PageList(a, to)), |m.pmm.free|, TablesOf(m.mem, D))
      invariant Left(Absent(s.mem, D, PageList(a, to)), |m.pmm.free|, TablesOf(m.mem, D)) == FramesAfter(s, D, from, to)
    {
      UserAddress(a);
      ValidParts(m);
      PageLists(s.mem, D, a, to);
      SupplyStep(a, Absent(s.mem, D, PageList(a + PAGE, to)), |m.pmm.free|, TablesOf(m.mem, D));
      var phys := m.PagingVirtToPhys(a);
      ghost var n := m.S();
      StillAbsent(s, n, D, from, a);
      EntryInRange(n, D, a);
      if phys == NO_PHYS {
        HasTable(m.mem, D, DirOf(a));
        var done := MapZeroPage(m, a);
        if !done {
          LeftBound(Absent(s.mem, D, PageList(a, to)), 0, TablesOf(m.mem, D));
          return false, a;
        }
        StillHolds(s, n, m.S(), D, a, to);
      }
      GrownStep(s, n, m.S(), D, from, a);
      a := a + PAGE;
    }
    NextPage(a, to);
    NoneLeft(s.mem, D, a, to, |m.pmm.free|, TablesOf(m.mem, D));
    return true, a;
  }

  // ---- shrinking ---------------------------------------------------------------------------------

  /** No page of [from, to) is mapped any more; everything else in this and every other address space is as it was. */
  ghost predicate Shrunk(s: Space, n: Space, D: int, from: int, to: int)
  {
    && OnlySpace(s, n, D)
    && (forall d, t {:trigger Pte(n.mem, D, d, t)} :: UserDir(d) && Slot(t) ==>
          if from <= PageAddr(d, t) < to then !Pte(n.mem, D, d, t).present
          else Pte(n.mem, D, d, t) == Pte(s.mem, D, d, t))
    && BytesShrunk(Image(s.mem, D), Image(n.mem, D), from, to)
  }

  lemma ShrunkRefl(s: Space, D: int, from: int)
    requires Inv(s)
    ensures Shrunk(s, s, D, from, from)
  {
    hide Image;
    OnlySpaceRefl(s, D);
    ImageRange(s.mem, D);
  }

  lemma ShrunkStep(s: Space, n: Space, n2: Space, D: int, from: int, a: int)
    requires Inv(s) && D in s.dirs && Shrunk(s, n, D, from, a) && from <= a && a % PAGE == 0 && 0 <= a < WORD
    requires UserDir(DirOf(a))
    requires if WalkEntry(n.mem, D, a).present then PageUnmapped(n, n2, D, DirOf(a), TableOf(a)) else n2 == n
    ensures Shrunk(s, n2, D, from, a + PAGE)
  {
    hide Inv, Image, OnlySpace, Pte, DirOf, TableOf, RoundDown, PageBytes;
    AlignedAddress(a);
    ShrunkEntries(s, n, n2, D, from, a);
    ShrunkBytes(s, n, n2, D, from, a);
    if WalkEntry(n.mem, D, a).present {
      OnlySpaceTrans(s, n, n2, D);
    }
  }

  lemma ShrunkEntries(s: Space, n: Space, n2: Space, D: int, from: int, a: int)
    requires Shrunk(s, n, D, from, a) && from <= a && a % PAGE == 0 && 0 <= a < WORD && UserDir(DirOf(a))
    requires if WalkEntry(n.mem, D, a).present then PageUnmapped(n, n2, D, DirOf(a), TableOf(a)) else n2 == n
    ensures forall d, t {:trigger Pte(n2.mem, D, d, t)} :: UserDir(d) && Slot(t) ==>
      if from <= PageAddr(d, t) < a + PAGE then !Pte(n2.mem, D, d, t).present
      else Pte(n2.mem, D, d, t) == Pte(s.mem, D, d, t)
  {
    hide Inv, Image, OnlySpace, Pte, DirOf, TableOf, RoundDown, PageBytes;
    AlignedAddress(a);
    forall d, t | UserDir(d) && Slot(t)
      ensures if from <= PageAddr(d, t) < a + PAGE then !Pte(n2.mem, D, d, t).present
              else Pte(n2.mem, D, d, t) == Pte(s.mem, D, d, t)
    {
      PagesApart(d, t, DirOf(a), TableOf(a));
      assert Pte(n.mem, D, d, t) == Pte(n.mem, D, d, t);
    }
  }

  lemma ShrunkBytes(s: Space, n: Space, n2: Space, D: int, from: int, a: int)
    requires Inv(s) && D in s.dirs && Shrunk(s, n, D, from, a) && from <= a && a % PAGE == 0 && 0 <= a < WORD
    requires UserDir(DirOf(a))
    requires if WalkEntry(n.mem, D, a).present then PageUnmapped(n, n2, D, DirOf(a), TableOf(a)) else n2 == n
    ensures forall va {:trigger va in Image(n2.mem, D)} :: 0 <= va < WORD ==>
      (va in Image(n2.mem, D) <==> va in Image(s.mem, D) && !(from <= RoundDown(va) < a + PAGE))
    ensures forall va {:trigger Image(n2.mem, D)[va]} :: va in Image(n2.mem, D) ==>
      va in Image(s.mem, D) && Image(n2.mem, D)[va] == Image(s.mem, D)[va]
  {
    ImageRange(n2.mem, D);
    hide *;
    forall va | 0 <= va < WORD
      ensures va in Image(n2.mem, D) <==> va in Image(s.mem, D) && !(from <= RoundDown(va) < a + PAGE)
      ensures va in Image(n2.mem, D) ==> va in Image(s.mem, D) && Image(n2.mem, D)[va] == Image(s.mem, D)[va]
    {
      ShrunkByte(s, n, n2, D, from, a, va);
    }
  }

  lemma ShrunkByte(s: Space, n: Space, n2: Space, D: int, from: int, a: int, va: int)
    requires Inv(s) && D in s.dirs && Shrunk(s, n, D, from, a) && from <= a && a % PAGE == 0 && 0 <= a < WORD
    requires UserDir(DirOf(a))
    requires if WalkEntry(n.mem, D, a).present then PageUnmapped(n, n2, D, DirOf(a), TableOf(a)) else n2 == n
    requires 0 <= va < WORD
    ensures va in Image(n2.mem, D) <==> va in Image(s.mem, D) && !(from <= RoundDown(va) < a + PAGE)
    ensures va in Image(n2.mem, D) ==> va in Image(s.mem, D) && Image(n2.mem, D)[va] == Image(s.mem, D)[va]
  {
    hide Inv, Image, OnlySpace, Pte, DirOf, TableOf, WordOf, RoundDown, PageBytes, UserDir;
    AlignedAddress(a);
    PageOf(va, DirOf(a), TableOf(a));
    RoundDownAligned(va, a);
    ShrunkOnly(s, n, D, from, a);
    OnlySpaceInv(s, n, D);
    MappedPageBytes(n, D, a, va);
  }

  lemma ShrunkOnly(s: Space, n: Space, D: int, from: int, to: int)
    requires Shrunk(s, n, D, from, to)
    ensures OnlySpace(s, n, D)
  {
  }

  /** The shrinking loop of sys_sbrk. */
  method UnmapRange(m: Machine, from: int, to: int)
    requires m.Valid() && 0x40_0000 <= from <= RoundUp(to) && to <= USER_BRK_LIMIT && from % PAGE == 0
    modifies m`mem, m`own, m.pmm, m.pmm.bitmap
    ensures m.Valid()
    ensures Shrunk(old(m.S()), m.S(), m.cr3, from, RoundUp(to))
    ensures m.pmm.free >= old(m.pmm.free)
  {
    hide Inv, Shrunk, PageUnmapped, Pte, DirOf, TableOf, WalkEntry;
    ghost var s := m.S();
    ghost var D := m.cr3;
    ShrunkRefl(s, D, from);
    var a := from;
    while a < to
      invariant from <= a <= RoundUp(to) && a % PAGE == 0
      invariant m.Valid() && Shrunk(s, m.S(), D, from, a)
      invariant m.pmm.free >= old(m.pmm.free)
    {
      UserAddress(a);
      var phys := m.PagingVirtToPhys(a);
      ghost var n := m.S();
      EntryInRange(n, D, a);
      if phys != NO_PHYS {
        FrameOfPhys(WalkEntry(n.mem, D, a).frame, a);
        UnmapPage(m, a, phys);
      }
      ShrunkStep(s, n, m.S(), D, from, a);
      PageBelow(a, to);
      a := a + PAGE;
    }
    PageAbove(a, to);
  }

  lemma FrameOfPhys(f: int, a: int)
    requires a % PAGE == 0
    ensures (f * PAGE + a % PAGE) / PAGE == f
  {
  }

  // ---- the system call -------------------------------------------------------------------------------

  /** A 32-bit register read as a signed integer. */
  function AsInt32(u: int): (r: int)
    ensures 0 <= u < WORD ==> -0x8000_0000 <= r < 0x8000_0000 && (r == u || r == u - 0x1_0000_0000)
  {
    if u < 0x8000_0000 then u else u - WORD
  }

  /** The break a call asks for, with the wrap-around of unsigned arithmetic. */
  function Want(brk: int, inc: int): int
  {
    (brk + inc) % WORD
  }

  /** What sbrk answers, and what it does: nothing for a zero increment, a break beyond the limit or below zero; growth
      if the frames suffice, and otherwise -ENOMEM with what was mapped so far; or the pages wholly above the new break
      gone. */
  ghost predicate Answers(s: Space, n: Space, D: int, was: int, inc: int, ret: int, brk: int)
  {
    if inc == 0 then n == s && brk == was && ret == AsInt32(was)
    else if inc > 0 && was + inc > USER_BRK_LIMIT then n == s && brk == was && ret == -ENOMEM
    else if inc < 0 && was + inc < 0 then n == s && brk == was && ret == -EINVAL
    else if inc < 0 then
      brk == was + inc && ret == AsInt32(was) && Shrunk(s, n, D, RoundUp(brk), RoundUp(was))
    else if FramesAfter(s, D, RoundDown(was), was + inc) >= 0 then
      brk == was + inc && ret == AsInt32(was) && Grown(s, n, D, RoundDown(was), RoundUp(brk))
    else
      brk == was && ret == -ENOMEM && n.free == {} && PartlyGrown(s, n, D, RoundDown(was), was + inc)
  }

  /** The ways sbrk can end: nothing done, grown, grown in part, shrunk. */
  lemma AnswersDone(s: Space, n: Space, D: int, was: int, inc: int, ret: int, brk: int)
    requires Answers(s, n, D, was, inc, ret, brk)
    ensures SbrkDone(s, n, D, was, inc, brk)
  {
    hide Grown, Shrunk, PartlyGrown, RoundDown, RoundUp, FramesAfter;
  }

  /** sys_sbrk on the current address space: the result and the new break. */
  method SysSbrk(m: Machine, brk: int, inc: int, ghost heapStart: int) returns (ret: int, newBrk: int)
    requires m.Valid() && 0x40_0000 <= heapStart <= brk <= USER_BRK_LIMIT && heapStart % PAGE == 0
    requires -0x8000_0000 <= inc < 0x8000_0000
    // The caller never takes the break below the start of its heap.
    requires inc < 0 && brk + inc >= 0 ==> brk + inc >= heapStart
    requires 0 < inc && brk + inc <= USER_BRK_LIMIT ==>
      TablesHold(Absent(m.mem, m.cr3, PageList(RoundDown(brk), brk + inc)), |m.pmm.free|, TablesOf(m.mem, m.cr3))
    modifies m`mem, m`own, m.pmm, m.pmm.bitmap
    ensures m.Valid() && heapStart <= newBrk <= USER_BRK_LIMIT
    ensures Answers(old(m.S()), m.S(), m.cr3, brk, inc, ret, newBrk)
  {
    hide Inv, Grown, Shrunk, TablesHold, TablesOf, PartlyGrown, RoundDown, RoundUp, Absent, PageList;
    if inc == 0 {
      return AsInt32(brk), brk;
    }
    var want := Want(brk, inc);
    if inc > 0 {
      if want < brk || want > USER_BRK_LIMIT {
        return -ENOMEM, brk;
      }
      ghost var s := m.S();
      RoundFacts(brk, heapStart);
      var ok; ghost var reached;
      ok, reached := MapRange(m, RoundDown(brk), want);
      if !ok {
        PartlyGrownIntro(s, m.S(), m.cr3, RoundDown(brk), want, reached);
        return -ENOMEM, brk;
      }
      return AsInt32(brk), want;
    }
    if want > brk {
      return -EINVAL, brk;
    }
    RoundFacts(want, heapStart);
    RoundUpMonotone(want, brk);
    UnmapRange(m, RoundUp(want), brk);
    return AsInt32(brk), want;
  }

  // ---- what a program can tell ------------------------------------------------------------------------------------

  /** After sbrk the program sees every byte up to the new break that it should see, and reads what it read before; what
      is new reads zero. */
  ghost predicate Sees(a: map<int, Byte>, b: map<int, Byte>, was: int, brk: int)
  {
    && (forall va {:trigger va in b} :: was <= va < brk ==> va in b)
    && (forall va {:trigger va in b} :: (brk + 0xFFF) / 0x1000 * 0x1000 <= va < was ==> va !in b)
    && (forall va {:trigger va in b} :: va in a && va < brk ==> va in b)
    && (forall va {:trigger b[va]} :: va in b ==> b[va] == if va in a then a[va] else 0)
  }

  /** sbrk answers with the old break and moves it by the increment, or refuses with -ENOMEM or -EINVAL and leaves it;
      no byte the program had below the new break is lost. */
  lemma SbrkMeans(s: Space, n: Space, D: int, was: int, inc: int, ret: int, brk: int)
    requires Inv(s) && D in s.dirs && Answers(s, n, D, was, inc, ret, brk) && 0 < was < 0x8000_0000
    ensures if ret >= 0 then ret == was && brk == was + inc else brk == was && (ret == -12 || ret == -22)
    ensures ret == -22 <==> inc < 0 && was + inc < 0
    ensures inc > 0 && was + inc > 0xB000_0000 ==> ret == -12
    ensures inc <= 0 && was + inc >= 0 ==> ret == was
    ensures Sees(Image(s.mem, D), Image(n.mem, D), was, brk)
  {
    hide Inv, Image, FramesAfter, Pte, NewEntry, OnlySpace, BytesGrown, BytesShrunk, Sees;
    var a, b := Image(s.mem, D), Image(n.mem, D);
    ImageRange(s.mem, D);
    if n == s && brk == was {
      SeesSame(a, was);
    } else if inc < 0 {
      ShrunkSees(a, b, was, brk);
    } else if FramesAfter(s, D, RoundDown(was), was + inc) >= 0 {
      GrownSees(a, b, was, brk, RoundUp(brk));
    } else {
      var reached :| StoppedAt(s, n, D, RoundDown(was), was + inc, reached);
      GrownSees(a, b, was, was, reached);
    }
  }

  lemma SeesSame(a: map<int, Byte>, was: int)
    ensures Sees(a, a, was, was)
  {
    Above(was, was);
  }

  lemma Above(was: int, brk: int)
    ensures was <= brk ==> was <= (brk + 0xFFF) / 0x1000 * 0x1000
  {
  }

  lemma GrownSees(a: map<int, Byte>, b: map<int, Byte>, was: int, brk: int, to: int)
    requires BytesGrown(a, b, RoundDown(was), to) && 0 < was <= brk < WORD && (brk == was || RoundUp(brk) <= to)
    requires forall va {:trigger va in a} :: va in a ==> 0 <= va < WORD
    ensures Sees(a, b, was, brk)
  {
    hide RoundDown, RoundUp;
    Above(was, brk);
    forall va | was <= va < brk || (va in a && va < brk)
      ensures va in b
    {
      assert va in b <==> va in b;
      if was <= va {
        PagesBetween(was, va, brk);
      }
    }
  }

  lemma PagesBetween(was: int, va: int, brk: int)
    requires was <= va < brk
    ensures RoundDown(was) <= RoundDown(va) < RoundUp(brk)
  {
  }

  lemma ShrunkSees(a: map<int, Byte>, b: map<int, Byte>, was: int, brk: int)
    requires BytesShrunk(a, b, RoundUp(brk), RoundUp(was)) && 0 <= brk < was < WORD
    requires forall va {:trigger va in a} :: va in a ==> 0 <= va < WORD
    ensures Sees(a, b, was, brk)
  {
    hide RoundDown, RoundUp;
    forall va
      ensures (brk + 0xFFF) / 0x1000 * 0x1000 <= va < was ==> RoundUp(brk) <= RoundDown(va) < RoundUp(was)
      ensures va < brk ==> RoundDown(va) < RoundUp(brk)
    {
      PagesAbove(va, was, brk);
    }
  }

  lemma PagesAbove(va: int, was: int, brk: int)
    ensures (brk + 0xFFF) / 0x1000 * 0x1000 <= va < was ==> RoundUp(brk) <= RoundDown(va) < RoundUp(was)
    ensures va < brk ==> RoundDown(va) < RoundUp(brk)
  {
  }

  /** With two free frames for every page of the range, growth within the limit is not refused. */
  lemma EnoughFrames(s: Space, n: Space, D: int, was: int, inc: int, ret: int, brk: int)
    requires Answers(s, n, D, was, inc, ret, brk) && 0 < was < 0x8000_0000 && 0 < inc && was + inc <= 0xB000_0000
    requires |s.free| >= 2 * (inc / 0x1000 + 2)
    ensures ret == was
  {
    hide Absent, PageList, Left;
    LeftAtLeast(Absent(s.mem, D, PageList(RoundDown(was), was + inc)), |s.free|, TablesOf(s.mem, D));
    AbsentFewer(s.mem, D, PageList(RoundDown(was), was + inc));
    ListLength(RoundDown(was), was + inc);
  }

  lemma {:induction false} LeftAtLeast(pages: seq<int>, free: int, have: set<int>)
    ensures Left(pages, free, have) >= free - 2 * |pages|
    decreases |pages|
  {
    if pages != [] {
      LeftAtLeast(pages[1..], free - 1, have);
      LeftAtLeast(pages[1..], free - 2, have + {DirOf(pages[0])});
    }
  }

  lemma {:induction false} AbsentFewer(mem: seq<Page>, D: int, pages: seq<int>)
    ensures |Absent(mem, D, pages)| <= |pages|
  {
    if pages != [] {
      AbsentFewer(mem, D, pages[1..]);
    }
  }

  lemma {:induction false} ListLength(from: int, top: int)
    ensures |PageList(from, top)| <= if from < top then (top - from) / 0x1000 + 1 else 0
    decreases top - from
  {
    if from < top {
      ListLength(from + PAGE, top);
    }
  }

  /** Growth stopped for lack of frames: some of the pages stay mapped. */
  ghost predicate PartlyGrown(s: Space, n: Space, D: int, from: int, to: int)
  {
    exists reached :: StoppedAt(s, n, D, from, to, reached)
  }

  lemma PartlyGrownIntro(s: Space, n: Space, D: int, from: int, to: int, reached: int)
    requires StoppedAt(s, n, D, from, to, reached)
    ensures PartlyGrown(s, n, D, from, to)
  {
  }

  /** The ways sbrk can end: nothing done, grown, grown in part, shrunk. */
  ghost predicate SbrkDone(s: Space, n: Space, D: int, was: int, inc: int, brk: int)
  {
    || (n == s && brk == was)
    || (brk == was + inc && 0 < inc && Grown(s, n, D, RoundDown(was), RoundUp(brk)))
    || (brk == was && PartlyGrown(s, n, D, RoundDown(was), was + inc))
    || (brk == was + inc && inc < 0 && Shrunk(s, n, D, RoundUp(brk), RoundUp(was)))
  }

  /** Every page from the start of the heap up to the break is mapped. */
  ghost predicate HeapWhole(s: Space, D: int, low: int, brk: int)
  {
    forall d, t {:trigger Pte(s.mem, D, d, t)} :: UserDir(d) && Slot(t) && low <= PageAddr(d, t) < RoundUp(brk) ==>
      Pte(s.mem, D, d, t).present
  }

  /** sbrk keeps the heap mapped, however it ends. */
  lemma HeapStaysWhole(s: Space, n: Space, D: int, low: int, was: int, inc: int, brk: int)
    requires HeapWhole(s, D, low, was) && SbrkDone(s, n, D, was, inc, brk) && 0 <= low <= was && low <= brk
    requires low % PAGE == 0
    ensures HeapWhole(n, D, low, brk)
  {
    hide Inv, Image, OnlySpace, Pte, BytesGrown, BytesShrunk, WalkEntry, RoundDown, RoundUp;
    RoundFacts(was, low);
    RoundFacts(brk, low);
    if brk <= was {
      RoundUpMonotone(brk, was);
    }
    forall d, t | UserDir(d) && Slot(t) && low <= PageAddr(d, t) < RoundUp(brk)
      ensures Pte(n.mem, D, d, t).present
    {
      assert low <= PageAddr(d, t) < RoundUp(was) ==> Pte(s.mem, D, d, t).present;
      assert Pte(n.mem, D, d, t) == Pte(n.mem, D, d, t);
    }
  }

  // ---- growing and shrinking back ---------------------------------------------------------------------

  /** The same user pages are mapped, by the same entries. */
  ghost predicate SameLeaves(s: Space, n: Space, D: int)
  {
    forall d, t {:trigger Pte(n.mem, D, d, t)} :: UserDir(d) && Slot(t) ==>
      && (Pte(n.mem, D, d, t).present <==> Pte(s.mem, D, d, t).present)
      && (Pte(s.mem, D, d, t).present ==> Pte(n.mem, D, d, t) == Pte(s.mem, D, d, t))
  }

  ghost predicate NothingMapped(s: Space, D: int, from: int, to: int)
  {
    forall d, t {:trigger Pte(s.mem, D, d, t)} :: UserDir(d) && Slot(t) && from <= PageAddr(d, t) < to ==>
      !Pte(s.mem, D, d, t).present
  }

  /** One page through both calls. */
  lemma GrowShrinkAt(s: Space, n1: Space, n2: Space, D: int, brk: int, top: int, d: int, t: int)
    requires 0 <= brk <= top && top % PAGE == 0 && UserDir(d) && Slot(t)
    requires Grown(s, n1, D, RoundDown(brk), top) && Shrunk(n1, n2, D, RoundUp(brk), top)
    ensures RoundUp(brk) <= PageAddr(d, t) < top ==> !Pte(n2.mem, D, d, t).present
    ensures !(RoundUp(brk) <= PageAddr(d, t) < top) && Pte(s.mem, D, d, t).present ==>
      Pte(n2.mem, D, d, t) == Pte(s.mem, D, d, t)
    ensures !(RoundUp(brk) <= PageAddr(d, t) < top) && !Pte(s.mem, D, d, t).present ==>
      (Pte(n2.mem, D, d, t).present <==> PageAddr(d, t) == RoundDown(brk) && brk % PAGE != 0)
  {
    hide Inv, Image, OnlySpace, Pte;
    assert Pte(n2.mem, D, d, t) == Pte(n2.mem, D, d, t);
    assert Pte(n1.mem, D, d, t) == Pte(n1.mem, D, d, t);
    BreakPage(brk, top, PageAddr(d, t));
  }

  lemma BreakPage(brk: int, top: int, x: int)
    requires 0 <= brk <= top && top % PAGE == 0 && x % PAGE == 0
    ensures !(RoundUp(brk) <= x < top) ==> (RoundDown(brk) <= x < top <==> x == RoundDown(brk) && brk % PAGE != 0)
  {
  }

  /** Growing by k bytes and shrinking by k bytes brings back the mappings exactly when no page wholly above the
      old break was mapped before, and the page the old break falls inside (if it does) was. */
  lemma GrowThenShrink(s: Space, n1: Space, n2: Space, D: int, brk: int, k: int)
    requires 0x40_0000 <= brk && 0 < k && brk + k <= USER_BRK_LIMIT
    requires Grown(s, n1, D, RoundDown(brk), RoundUp(brk + k)) && Shrunk(n1, n2, D, RoundUp(brk), RoundUp(brk + k))
    ensures SameLeaves(s, n2, D) <==>
      NothingMapped(s, D, RoundUp(brk), RoundUp(brk + k))
        && (brk % PAGE == 0 || WalkEntry(s.mem, D, RoundDown(brk)).present)
  {
    hide Grown, Shrunk, Pte, DirOf, TableOf, RoundDown, RoundUp, PageAddr;
    var top := RoundUp(brk + k);
    RoundFacts(brk, 0x40_0000);
    RoundFacts(brk + k, 0);
    UserAddress(RoundDown(brk));
    AlignedAddress(RoundDown(brk));
    var d0, t0 := DirOf(RoundDown(brk)), TableOf(RoundDown(brk));
    GrowShrinkAt(s, n1, n2, D, brk, top, d0, t0);
    BreakPage(brk, top, RoundDown(brk));
    if SameLeaves(s, n2, D) {
      forall d, t | UserDir(d) && Slot(t) && RoundUp(brk) <= PageAddr(d, t) < top
        ensures !Pte(n2.mem, D, d, t).present
      {
        GrowShrinkAt(s, n1, n2, D, brk, top, d, t);
      }
      RestoredWasAbsent(s, n2, D, RoundUp(brk), top);
      assert Pte(n2.mem, D, d0, t0).present <==> Pte(s.mem, D, d0, t0).present;
    }
    if NothingMapped(s, D, RoundUp(brk), top) && (brk % PAGE == 0 || Pte(s.mem, D, d0, t0).present) {
      forall d, t | UserDir(d) && Slot(t)
        ensures Pte(n2.mem, D, d, t).present <==> Pte(s.mem, D, d, t).present
        ensures Pte(s.mem, D, d, t).present ==> Pte(n2.mem, D, d, t) == Pte(s.mem, D, d, t)
      {
        GrowShrinkAt(s, n1, n2, D, brk, top, d, t);
        assert Pte(s.mem, D, d, t) == Pte(s.mem, D, d, t);
        PagesApart(d, t, d0, t0);
      }
    }
  }

  /** With a heap that is whole, only pages above the old break can stand in the way. */
  lemma GrowThenShrinkWhole(s: Space, n1: Space, n2: Space, D: int, low: int, brk: int, k: int)
    requires 0x40_0000 <= low <= brk && low % PAGE == 0 && 0 < k && brk + k <= USER_BRK_LIMIT
    requires HeapWhole(s, D, low, brk)
    requires Grown(s, n1, D, RoundDown(brk), RoundUp(brk + k)) && Shrunk(n1, n2, D, RoundUp(brk), RoundUp(brk + k))
    ensures SameLeaves(s, n2, D) <==> NothingMapped(s, D, RoundUp(brk), RoundUp(brk + k))
  {
    hide Grown, Shrunk, Pte, DirOf, TableOf, SameLeaves, NothingMapped, PageAddr;
    GrowThenShrink(s, n1, n2, D, brk, k);
    if brk % PAGE != 0 {
      UserAddress(RoundDown(brk));
      AlignedAddress(RoundDown(brk));
      assert Pte(s.mem, D, DirOf(RoundDown(brk)), TableOf(RoundDown(brk))).present;
    }
  }

  /** Three calls in a row: a growth that runs out of frames, and then one page up and down again. The failed growth has
      left the page above the break mapped, so the last call does not bring back what the second one found. */
  method GrowthNotUndone(m: Machine, brk: int, inc: int, ghost heapStart: int) returns (ghost found: Space)
    requires m.Valid() && 0x40_0000 <= heapStart <= brk && heapStart % PAGE == 0 && brk % PAGE == 0
    requires PAGE <= inc < 0x8000_0000 && brk + inc <= USER_BRK_LIMIT && m.pmm.free != {}
    requires TablesHold(Absent(m.mem, m.cr3, PageList(RoundDown(brk), brk + inc)), |m.pmm.free|, TablesOf(m.mem, m.cr3))
    requires FramesAfter(m.S(), m.cr3, RoundDown(brk), brk + inc) < 0
    modifies m`mem, m`own, m.pmm, m.pmm.bitmap
    ensures m.Valid() && PartlyGrown(old(m.S()), found, m.cr3, brk, brk + inc) && !SameLeaves(found, m.S(), m.cr3)
  {
    hide Inv, Machine.Valid, Grown, Shrunk, TablesHold, TablesOf, PartlyGrown, RoundDown, RoundUp, Absent, PageList,
         SameLeaves, NothingMapped, WalkEntry, FramesAfter;
    ghost var s0 := m.S();
    var ret, now := SysSbrk(m, brk, inc, heapStart);
    found := m.S();
    AlignedBreak(brk);
    LeftBehind(s0, found, m.cr3, brk, inc);
    NoneAbsent(found, m.cr3, brk, |m.pmm.free|);
    ret, now := SysSbrk(m, brk, PAGE, heapStart);
    ghost var up := m.S();
    ret, now := SysSbrk(m, brk + PAGE, -PAGE, heapStart);
    GrowThenShrink(found, up, m.S(), m.cr3, brk, PAGE);
  }

  lemma AlignedBreak(brk: int)
    requires brk % PAGE == 0
    ensures RoundDown(brk) == brk == RoundUp(brk) && RoundUp(brk + PAGE) == brk + PAGE
  {
  }

  lemma LeftBehind(s: Space, n: Space, D: int, brk: int, inc: int)
    requires 0x40_0000 <= brk && brk % PAGE == 0 && brk + inc <= USER_BRK_LIMIT && s.free != {}
    requires PartlyGrown(s, n, D, brk, brk + inc) && RoundUp(brk) == brk
    ensures WalkEntry(n.mem, D, brk).present && !NothingMapped(n, D, brk, brk + PAGE) && 0 < inc
  {
    hide Inv, Image, OnlySpace, Pte, DirOf, TableOf, BytesGrown;
    var reached :| StoppedAt(s, n, D, brk, brk + inc, reached);
    UserAddress(brk);
    AlignedAddress(brk);
    assert Pte(n.mem, D, DirOf(brk), TableOf(brk)).present;
  }

  /** A page that is there needs no frame. */
  lemma NoneAbsent(s: Space, D: int, a: int, free: int)
    requires WalkEntry(s.mem, D, a).present && a % PAGE == 0
    ensures TablesHold(Absent(s.mem, D, PageList(a, a + PAGE)), free, TablesOf(s.mem, D))
    ensures FramesAfter(s, D, a, a + PAGE) >= 0
  {
    PageLists(s.mem, D, a, a + PAGE);
    assert PageList(a + PAGE, a + PAGE) == [];
  }

  lemma RestoredWasAbsent(s: Space, n: Space, D: int, from: int, to: int)
    requires SameLeaves(s, n, D)
    requires forall d, t {:trigger Pte(n.mem, D, d, t)} :: UserDir(d) && Slot(t) && from <= PageAddr(d, t) < to ==>
      !Pte(n.mem, D, d, t).present
    ensures NothingMapped(s, D, from, to)
  {
    hide Pte, PageAddr;
    forall d, t | UserDir(d) && Slot(t) && from <= PageAddr(d, t) < to
      ensures !Pte(s.mem, D, d, t).present
    {
      assert !Pte(n.mem, D, d, t).present;
    }
  }

  /** With the mappings back, the frames in use are those of before, except for page tables of D itself. */
  lemma RestoredFrames(s: Space, n: Space, D: int, f: int)
    requires Inv(s) && D in s.dirs && OnlySpace(s, n, D) && SameLeaves(s, n, D)
    ensures f in s.own && !(s.own[f].Table? && s.own[f].dir == D) ==> f in n.own && n.own[f] == s.own[f]
    ensures f in n.own && !(n.own[f].Table? && n.own[f].dir == D) ==> f in s.own && s.own[f] == n.own[f]
  {
    if f in s.own && s.own[f].Leaf? && s.own[f].dir == D {
      assert OwnerTrue(s, f, s.own[f]);
      assert Pte(n.mem, D, s.own[f].d, s.own[f].t).present;
    }
    if f in n.own && n.own[f].Leaf? && n.own[f].dir == D {
      assert OwnerTrue(n, f, n.own[f]);
      assert Pte(n.mem, D, n.own[f].d, n.own[f].t).present;
      assert Pte(s.mem, D, n.own[f].d, n.own[f].t).present;
    }
  }
}
