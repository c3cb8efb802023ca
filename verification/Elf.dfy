/** Loading a program image into the current address space (kernel/arch/i386/elf.c). */
module Elf {
  import opened Arith
  import opened Words
  import opened Paging
  import opened Address
  import opened UserSpace
  import opened Pages
  import opened UserMap
  import opened ElfFormat
  import opened Machine

  /** The page loop of one segment. `rest` is what later segments will map. */
  method MapSegment(m: Machine, start: int, end: int, ghost rest: seq<int>) returns (ok: bool)
    requires m.Valid() && USER_LOW <= start && end <= USER_HIGH && start % PAGE == 0 && end % PAGE == 0 && start <= end
    requires forall va {:trigger va in Image(m.mem, m.cr3)} :: start <= va < end ==> va !in Image(m.mem, m.cr3)
    requires TablesHold(PageList(start, end) + rest, |m.pmm.free|, TablesOf(m.mem, m.cr3))
    modifies m`mem, m`own, m.pmm, m.pmm.bitmap
    ensures m.Valid() && Draws(old(m.S()), m.S(), m.cr3)
    ensures ok ==> Image(m.mem, m.cr3) == Image(old(m.mem), m.cr3) + Zeros(start, end)
    ensures ok ==> TablesHold(rest, |m.pmm.free|, TablesOf(m.mem, m.cr3))
    ensures ok ==>
      Left(rest, |m.pmm.free|, TablesOf(m.mem, m.cr3))
        == Left(PageList(start, end) + rest, |old(m.pmm.free)|, TablesOf(old(m.mem), m.cr3))
    ensures !ok ==>
      m.pmm.free == {} && Left(PageList(start, end) + rest, |old(m.pmm.free)|, TablesOf(old(m.mem), m.cr3)) < 0
  {
    hide Inv, Image, Draws, ZeroPageMapped, TablesHold, Left, TablesOf, Pte, Pde, DirOf, TableOf, WalkEntry, Zeros,
         PageList;
    ghost var s := m.S();
    DrawsRefl(s, m.cr3);
    NoZeros(Image(m.mem, m.cr3), start);
    var v := start;
    while v < end
      invariant start <= v <= end && v % PAGE == 0
      invariant m.Valid() && Draws(s, m.S(), m.cr3)
      invariant Image(m.mem, m.cr3) == Image(s.mem, m.cr3) + Zeros(start, v)
      invariant TablesHold(PageList(v, end) + rest, |m.pmm.free|, TablesOf(m.mem, m.cr3))
      invariant Left(PageList(v, end) + rest, |m.pmm.free|, TablesOf(m.mem, m.cr3)) ==
        Left(PageList(start, end) + rest, |old(m.pmm.free)|, TablesOf(s.mem, m.cr3))
    {
      ghost var n := m.S();
      UserAddress(v);
      NextListed(v, end, rest);
      SupplyStep(v, PageList(v + PAGE, end) + rest, |m.pmm.free|, TablesOf(m.mem, m.cr3));
      ZerosStop(Image(s.mem, m.cr3), start, v);
      PageAbsent(n, m.cr3, v);
      HasTable(m.mem, m.cr3, DirOf(v));
      var done := MapZeroPage(m, v);
      if !done {
        LeftBound(PageList(v, end) + rest, 0, TablesOf(m.mem, m.cr3));
        return false;
      }
      ZeroPageEffect(n, m.S(), m.cr3, v);
      DrawsTrans(s, n, m.S(), m.cr3);
      ZerosGrow(Image(s.mem, m.cr3), start, v);
      v := v + PAGE;
    }
    ListDone(v, end, rest);
    ok := true;
  }

  lemma NoZeros(img: Img, a: int)
    ensures img + Zeros(a, a) == img
  {
    assert Zeros(a, a) == map[];
  }

  lemma NextListed(v: int, end: int, rest: seq<int>)
    requires v < end
    ensures PageList(v, end) + rest == [v] + (PageList(v + PAGE, end) + rest)
  {
  }

  lemma ListDone(v: int, end: int, rest: seq<int>)
    requires v >= end
    ensures PageList(v, end) + rest == rest
  {
  }

  lemma ZerosStop(img: Img, start: int, v: int)
    ensures v in img + Zeros(start, v) <==> v in img
  {
  }

  /** An address outside the image is not mapped. */
  lemma PageAbsent(n: Space, D: int, v: int)
    requires Inv(n) && D in n.dirs && 0 <= v < WORD && UserDir(DirOf(v)) && v !in Image(n.mem, D)
    ensures !WalkEntry(n.mem, D, v).present
  {
    hide Image;
    ImageAt(n, D, v);
  }

  lemma ZeroPageEffect(n: Space, n2: Space, D: int, v: int)
    requires ZeroPageMapped(n, n2, D, DirOf(v), TableOf(v)) && 0 <= v < WORD && v % PAGE == 0
    ensures Draws(n, n2, D)
    ensures Image(n2.mem, D) == Image(n.mem, D) + Zeros(v, v + PAGE)
    ensures TablesOf(n2.mem, D) == TablesOf(n.mem, D) + {DirOf(v)}
    ensures DirOf(v) in TablesOf(n.mem, D) ==> TablesOf(n2.mem, D) == TablesOf(n.mem, D)
  {
    hide Image, OnlySpace;
    PageIsZeros(v);
  }

  /** A zeroed page is a page-long run of zeros. */
  lemma PageIsZeros(v: int)
    requires 0 <= v < WORD && v % PAGE == 0
    ensures PageBytes(ZeroPage(), DirOf(v), TableOf(v)) == Zeros(v, v + PAGE)
  {
    var p, z := PageBytes(ZeroPage(), DirOf(v), TableOf(v)), Zeros(v, v + PAGE);
    AlignedAddress(v);
    hide DirOf, TableOf, PageBytes;
    PageBytesInRange(ZeroPage(), DirOf(v), TableOf(v));
    forall va | 0 <= va < WORD
      ensures va in p <==> va in z
      ensures va in z ==> p[va] == z[va]
    {
      ZeroBytes(DirOf(v), TableOf(v), va);
      PageOf(va, DirOf(v), TableOf(v));
      PageSpan(va, v);
    }
    SameKeys(p, z);
  }

  lemma PageBytesInRange(p: Page, d: int, t: int)
    ensures forall va :: va in PageBytes(p, d, t) ==> 0 <= va < WORD
  {
  }

  lemma PageSpan(va: int, v: int)
    requires v % PAGE == 0
    ensures RoundDown(va) == v <==> v <= va < v + PAGE
    ensures v <= va < v + PAGE && v < WORD ==> va < WORD
  {
  }

  lemma ZerosGrow(img: Img, start: int, v: int)
    requires start <= v
    ensures img + Zeros(start, v) + Zeros(v, v + PAGE) == img + Zeros(start, v + PAGE)
  {
  }

  /** `memcpy(dst, bytes, |bytes|)` into user memory. */
  method CopyBytes(m: Machine, dst: int, bytes: seq<Byte>)
    requires m.Valid()
    requires forall va {:trigger va in Image(m.mem, m.cr3)} :: dst <= va < dst + |bytes| ==> va in Image(m.mem, m.cr3)
    modifies m`mem
    ensures m.Valid() && Draws(old(m.S()), m.S(), m.cr3) && SameTables(old(m.mem), m.mem, m.cr3)
    ensures Image(m.mem, m.cr3) == Image(old(m.mem), m.cr3) + BytesAt(dst, bytes)
  {
    hide Inv, Image, Draws, SameEntries, BytesAt, SameTables;
    ghost var s := m.S();
    DrawsRefl(s, m.cr3);
    NoBytes(Image(m.mem, m.cr3), dst, bytes);
    SameTablesRefl(m.mem, m.cr3);
    for k := 0 to |bytes|
      invariant m.Valid() && Draws(s, m.S(), m.cr3) && SameTables(s.mem, m.mem, m.cr3)
      invariant Image(m.mem, m.cr3) == Image(s.mem, m.cr3) + BytesAt(dst, bytes[..k])
    {
      ghost var n := m.S();
      BytesGrow(Image(s.mem, m.cr3), dst, bytes, k);
      StoreByte(m, dst + k, bytes[k]);
      DrawsTrans(s, n, m.S(), m.cr3);
      SameTablesStep(s.mem, n, m.mem, m.cr3);
    }
    assert bytes[..|bytes|] == bytes;
  }

  lemma NoBytes(img: Img, dst: int, bytes: seq<Byte>)
    ensures img + BytesAt(dst, bytes[..0]) == img
  {
    assert BytesAt(dst, bytes[..0]) == map[];
  }

  lemma BytesGrow(img: Img, dst: int, bytes: seq<Byte>, k: int)
    requires 0 <= k < |bytes|
    ensures (img + BytesAt(dst, bytes[..k]))[dst + k := bytes[k]] == img + BytesAt(dst, bytes[..k + 1])
    ensures dst + k in img ==> dst + k in img + BytesAt(dst, bytes[..k])
  {
    var a, b := (img + BytesAt(dst, bytes[..k]))[dst + k := bytes[k]], img + BytesAt(dst, bytes[..k + 1]);
    forall va
      ensures va in a <==> va in b
    {
    }
    forall va | va in b
      ensures a[va] == b[va]
    {
    }
  }

  ghost predicate SameTables(m0: seq<Page>, m1: seq<Page>, D: int)
  {
    TablesOf(m1, D) == TablesOf(m0, D)
  }

  lemma SameTablesRefl(m0: seq<Page>, D: int)
    ensures SameTables(m0, m0, D)
  {
  }

  lemma SameTablesStep(m0: seq<Page>, n: Space, m1: seq<Page>, D: int)
    requires SameTables(m0, n.mem, D) && SameEntries(n, m1) && D in n.dirs
    ensures SameTables(m0, m1, D)
  {
    forall d | 1 <= d < KERNEL_DIR_START
      ensures Pde(m1, D, d).present <==> Pde(n.mem, D, d).present
    {
      assert Pde(m1, D, d) == Pde(n.mem, D, d);
    }
    assert TablesOf(m1, D) == TablesOf(n.mem, D);
  }

  // ---- relocations -----------------------------------------------------------------------------------

  /** `*(uint32_t*) va` */
  method LoadWord(m: Machine, va: int) returns (v: int)
    requires m.Valid() && HasWord(Image(m.mem, m.cr3), va)
    ensures v == WordAt(Image(m.mem, m.cr3), va) && 0 <= v < WORD
  {
    hide Inv, Image, FromBytes;
    var b0 := LoadByte(m, va);
    var b1 := LoadByte(m, va + 1);
    var b2 := LoadByte(m, va + 2);
    var b3 := LoadByte(m, va + 3);
    v := FromBytes(b0, b1, b2, b3);
  }

  /** `*(uint32_t*) va = v` */
  method StoreWord(m: Machine, va: int, v: int)
    requires m.Valid() && HasWord(Image(m.mem, m.cr3), va)
    modifies m`mem
    ensures m.Valid() && Draws(old(m.S()), m.S(), m.cr3)
    ensures Image(m.mem, m.cr3) == PutWord(Image(old(m.mem), m.cr3), va, v)
  {
    hide Inv, Image, Draws, SameEntries, ByteOf;
    ghost var s0 := m.S();
    StoreByte(m, va, ByteOf(v, 0));
    ghost var s1 := m.S();
    StoreByte(m, va + 1, ByteOf(v, 1));
    ghost var s2 := m.S();
    StoreByte(m, va + 2, ByteOf(v, 2));
    ghost var s3 := m.S();
    StoreByte(m, va + 3, ByteOf(v, 3));
    DrawsTrans(s0, s1, s2, m.cr3);
    DrawsTrans(s0, s2, s3, m.cr3);
    DrawsTrans(s0, s3, m.S(), m.cr3);
  }

  /** The last PT_DYNAMIC header, as an address; 0 means none. */
  method FindDynamic(data: seq<Byte>) returns (dyn: int)
    requires HeadersFit(data)
    ensures dyn == DynAt(data, PhNum(data))
  {
    dyn := 0;
    for i := 0 to PhNum(data)
      invariant dyn == DynAt(data, i)
    {
      if Ph(data, i).ptype == PT_DYNAMIC {
        dyn := SegAt(data, i) % WORD;
      }
    }
  }

  /** The scan of the dynamic table for the relocation table's address, size and entry size. */
  method ReadDynamic(m: Machine, dyn: int, base: int, ghost n: nat) returns (rel: int, relsz: int, relent: int)
    requires m.Valid() && DynTable(Image(m.mem, m.cr3), dyn, n) && 0 <= base < WORD
    ensures RelTable(rel, relsz, relent) == RelOf(Image(m.mem, m.cr3), dyn, n, base)
  {
    hide Inv, Image, WordAt;
    ghost var img := Image(m.mem, m.cr3);
    rel, relsz, relent := 0, 0, 8;
    var d := dyn;
    assert DynEntry(img, dyn, 0);
    var tag := LoadWord(m, d);
    ghost var i := 0;
    while tag != DT_NULL
      invariant 0 <= i <= n && d == dyn + 8 * i && DynEntry(img, dyn, i) && tag == WordAt(img, d)
      invariant rel ==
        if DynValue(img, dyn, i, DT_REL, -1) == -1 then 0 else (base + DynValue(img, dyn, i, DT_REL, -1)) % WORD
      invariant relsz == DynValue(img, dyn, i, DT_RELSZ, 0)
      invariant relent == DynValue(img, dyn, i, DT_RELENT, 8)
      decreases n - i
    {
      assert i < n;
      var val := LoadWord(m, d + 4);
      if tag == DT_REL {
        rel := (base + val) % WORD;
      } else if tag == DT_RELSZ {
        relsz := val;
      } else if tag == DT_RELENT {
        relent := val;
      }
      d, i := d + 8, i + 1;
      assert DynEntry(img, dyn, i);
      tag := LoadWord(m, d);
    }
  }

  /** The relocation loop over a table that lies in the loaded image. */
  method RelocateWords(m: Machine, rel: int, relsz: int, relent: int, base: int)
    requires m.Valid() && 0 <= base < WORD
    requires RelocationsOk(Image(m.mem, m.cr3), base, RelTable(rel, relsz, relent))
    modifies m`mem
    ensures m.Valid() && Draws(old(m.S()), m.S(), m.cr3)
    ensures Image(m.mem, m.cr3) == var img := Image(old(m.mem), m.cr3);
      RelocateAll(img, Targets(img, base, RelTable(rel, relsz, relent), 0), base)
  {
    hide Inv, Image, Draws, WordAt, RelocState, RelocationsOk, HasWord, RelocateAll, Targets;
    ghost var s := m.S();
    DrawsRefl(s, m.cr3);
    ghost var img := Image(m.mem, m.cr3);
    ghost var r := RelTable(rel, relsz, relent);
    RelocTable(img, base, r);
    ghost var all := Targets(img, base, r, 0);
    ghost var done: seq<int> := [];
    RelocStart(img, base, r);
    var off := 0;
    while off < relsz
      invariant m.Valid() && Draws(s, m.S(), m.cr3)
      invariant RelocState(img, Image(m.mem, m.cr3), all, done, base, r, off)
      decreases relsz - off
    {
      RelocRead(img, Image(m.mem, m.cr3), all, done, base, r, off);
      var where := LoadWord(m, rel + off);
      var info := LoadWord(m, rel + off + 4);
      if info % 256 == R_386_RELATIVE {
        var t := (base + where) % WORD;
        RelocStep(img, Image(m.mem, m.cr3), all, done, base, r, off, t);
        ghost var cur := m.S();
        var v := LoadWord(m, t);
        StoreWord(m, t, (v + base) % WORD);
        DrawsTrans(s, cur, m.S(), m.cr3);
        done := done + [t];
      } else {
        RelocSkip(img, Image(m.mem, m.cr3), all, done, base, r, off);
      }
      off := off + relent;
    }
    RelocEnd(img, Image(m.mem, m.cr3), all, done, base, r, off);
  }

  method ApplyRelocations(m: Machine, data: seq<Byte>, base: int, ghost n: nat)
    requires m.Valid() && HeadersFit(data) && 0 <= base < WORD && Relocatable(Image(m.mem, m.cr3), data, base, n)
    modifies m`mem
    ensures m.Valid() && Draws(old(m.S()), m.S(), m.cr3)
    ensures Image(m.mem, m.cr3) == AfterRelocation(Image(old(m.mem), m.cr3), data, base, n)
  {
    hide Inv, Image, Draws, RelocationsOk, RelocateAll, Targets, DynTable, DynValue;
    DrawsRefl(m.S(), m.cr3);
    var dyn := FindDynamic(data);
    if dyn != 0 {
      var rel, relsz, relent := ReadDynamic(m, dyn, base, n);
      RelocateWords(m, rel, relsz, relent, base);
    }
  }

  lemma SegmentLoaded(img: Img, data: seq<Byte>, i: int)
    requires HeadersFit(data) && 0 <= i < PhNum(data) && SegmentOk(data, i)
    ensures img + Zeros(SegStart(data, i), SegEnd(data, i)) + BytesAt(SegAt(data, i), FileBytes(data, i)) ==
      img + SegImage(data, i)
  {
    hide Zeros, BytesAt, FileBytes, Ph, SegStart, SegEnd;
    var z, b := Zeros(SegStart(data, i), SegEnd(data, i)), BytesAt(SegAt(data, i), FileBytes(data, i));
    assert img + z + b == img + (z + b);
  }

  lemma SameTablesFact(m0: seq<Page>, m1: seq<Page>, D: int)
    requires SameTables(m0, m1, D)
    ensures TablesOf(m1, D) == TablesOf(m0, D)
  {
  }

  lemma NoPagesLeft(data: seq<Byte>, free: int, have: set<int>)
    requires HeadersFit(data)
    ensures Left(ElfPages(data, PhNum(data)), free, have) == free
  {
  }

  // ---- the loader --------------------------------------------------------------------------------------

  /** elf_load: the entry point and the break, or 0. `n` is the length of the image's dynamic table, if it has one. */
  method ElfLoad(m: Machine, data: seq<Byte>, size: int, ghost n: nat)
    returns (entry: int, brk: int, ghost complete: bool)
    requires m.Valid() && 0 <= size <= |data|
    requires Accepts(data, size) ==> Loadable(Image(m.mem, m.cr3), data, n)
    requires Accepts(data, size) ==> TablesHold(ElfPages(data, 0), |m.pmm.free|, TablesOf(m.mem, m.cr3))
    modifies m`mem, m`own, m.pmm, m.pmm.bitmap
    ensures m.Valid() && Draws(old(m.S()), m.S(), m.cr3)
    ensures complete ==> Accepts(data, size) && entry == Entry(data) && brk == Highest(data, PhNum(data))
    ensures complete ==> Image(m.mem, m.cr3) == Program(Image(old(m.mem), m.cr3), data, n)
    ensures complete ==> |m.pmm.free| == Left(ElfPages(data, 0), |old(m.pmm.free)|, TablesOf(old(m.mem), m.cr3))
    ensures !complete && Accepts(data, size) ==>
      Left(ElfPages(data, 0), |old(m.pmm.free)|, TablesOf(old(m.mem), m.cr3)) < 0
    ensures !complete ==> entry == 0 && (!Accepts(data, size) || m.pmm.free == {})
    ensures !Accepts(data, size) ==> m.S() == old(m.S()) && m.pmm.free == old(m.pmm.free)
  {
    hide Inv, Image, Draws, TablesHold, TablesOf, Left, ElfPages, PageList, Loaded, Loadable, Highest, SegImage,
         Program, AfterRelocation, SegmentsOk, SegmentOk, Ph, RoundDown, RoundUp;
    ghost var s := m.S();
    ghost var img := Image(m.mem, m.cr3);
    DrawsRefl(s, m.cr3);
    brk, complete := 0, false;
    if !Accepts(data, size) {
      return 0, 0, false;
    }
    LoadableParts(img, data, n);
    var base := Base(data);
    var highest := 0;
    LoadStarts(img, data);
    for i := 0 to PhNum(data)
      invariant m.Valid() && Draws(s, m.S(), m.cr3)
      invariant Image(m.mem, m.cr3) == Loaded(img, data, i) && highest == Highest(data, i)
      invariant TablesHold(ElfPages(data, i), |m.pmm.free|, TablesOf(m.mem, m.cr3))
      invariant Left(ElfPages(data, i), |m.pmm.free|, TablesOf(m.mem, m.cr3)) ==
        Left(ElfPages(data, 0), |old(m.pmm.free)|, TablesOf(s.mem, m.cr3))
    {
      LoadUnfolds(img, data, i);
      if IsLoad(data, i) {
        SegmentReady(img, data, i, n);
        var start, end := SegStart(data, i), SegEnd(data, i);
        if end > highest {
          highest := end;
        }
        ghost var cur := m.S();
        var ok := MapSegment(m, start, end, ElfPages(data, i + 1));
        DrawsTrans(s, cur, m.S(), m.cr3);
        if !ok {
          return 0, 0, false;
        }
        cur := m.S();
        SegmentFits(Loaded(img, data, i), data, i);
        CopyBytes(m, SegAt(data, i), FileBytes(data, i));
        DrawsTrans(s, cur, m.S(), m.cr3);
        SegmentLoaded(Loaded(img, data, i), data, i);
        SameTablesFact(cur.mem, m.mem, m.cr3);
      }
    }
    NoPagesLeft(data, |m.pmm.free|, TablesOf(m.mem, m.cr3));
    ghost var cur := m.S();
    ApplyRelocations(m, data, base, n);
    DrawsTrans(s, cur, m.S(), m.cr3);
    return (base + U32(data, 24)) % WORD, highest, true;
  }
}
