/** What an ELF file says its process image is, told from the bytes of the file alone, and that a loaded program is that
    image (ELF gABI chapters 4 and 5, i386 psABI chapter 4 "Relocation"). */
module ElfMeaning {
  import opened Arith
  import opened Words
  import opened Pages
  import opened ElfFormat

  // ---- the fields of the file ------------------------------------------------------------------------------------

  function Half(data: seq<Byte>, at: int): int
    requires 0 <= at && at + 2 <= |data|
  {
    var b0: int, b1: int := data[at], data[at + 1];
    b0 + 0x100 * b1
  }

  function Long(data: seq<Byte>, at: int): (v: int)
    requires 0 <= at && at + 4 <= |data|
    ensures 0 <= v < 0x1_0000_0000
  {
    var b0: int, b1: int, b2: int, b3: int := data[at], data[at + 1], data[at + 2], data[at + 3];
    b0 + 0x100 * b1 + 0x1_0000 * b2 + 0x100_0000 * b3
  }

  /** The file header and the program headers, 32 bytes each, are in the file. */
  predicate Whole(data: seq<Byte>)
  {
    |data| >= 52 && Long(data, 28) + 32 * Half(data, 44) <= |data|
  }

  predicate Header(data: seq<Byte>, h: int)
  {
    Whole(data) && 0 <= h < Half(data, 44)
  }

  /** The field at this offset of program header h. */
  function Field(data: seq<Byte>, h: int, offset: int): int
    requires Header(data, h) && 0 <= offset <= 28
  {
    Long(data, Long(data, 28) + 32 * h + offset)
  }

  /** A shared object is loaded at 1 GiB, an executable where it says. */
  function LoadBase(data: seq<Byte>): int
    requires |data| >= 52
  {
    if Half(data, 16) == 3 then 0x4000_0000 else 0
  }

  /** A 32-bit i386 ELF file, executable or shared. */
  predicate Loads(data: seq<Byte>, size: int)
    requires size <= |data|
  {
    && size >= 52
    && data[..4] == [0x7F, 0x45, 0x4C, 0x46] && data[4] == 1 && Half(data, 18) == 3
    && (Half(data, 16) == 2 || Half(data, 16) == 3)
  }

  lemma FieldLaw(data: seq<Byte>, at: int)
    requires 0 <= at && at + 4 <= |data|
    ensures U32(data, at) == Long(data, at) && U16(data, at) == Half(data, at)
  {
  }

  lemma HeaderLaw(data: seq<Byte>)
    requires |data| >= EHDR_SIZE
    ensures Base(data) == LoadBase(data) && PhNum(data) == Half(data, 44) && (HeadersFit(data) <==> Whole(data))
    ensures Entry(data) == (LoadBase(data) + Long(data, 24)) % 0x1_0000_0000
  {
    hide U16, U32, Long, Half;
    FieldLaw(data, 16);
    FieldLaw(data, 24);
    FieldLaw(data, 28);
    FieldLaw(data, 44);
  }

  lemma PhLaw(data: seq<Byte>, h: int)
    requires HeadersFit(data) && 0 <= h < PhNum(data)
    ensures |data| >= EHDR_SIZE && Header(data, h)
    ensures Ph(data, h) ==
      Phdr(Field(data, h, 0), Field(data, h, 4), Field(data, h, 8), Field(data, h, 16), Field(data, h, 20))
  {
    hide U16, U32, Long, Half, PhNum;
    HeaderLaw(data);
    FieldLaw(data, 28);
    var at := U32(data, 28) + PHDR_SIZE * h;
    FieldLaw(data, at);
    FieldLaw(data, at + 4);
    FieldLaw(data, at + 8);
    FieldLaw(data, at + 16);
    FieldLaw(data, at + 20);
  }

  /** elf_load takes exactly the files it is meant for. */
  lemma AcceptsIff(data: seq<Byte>, size: int)
    requires size <= |data|
    ensures Accepts(data, size) <==> Loads(data, size)
  {
    hide U16, U32, Long, Half;
    if size >= 52 {
      FieldLaw(data, 16);
      FieldLaw(data, 18);
    }
  }

  // ---- segments --------------------------------------------------------------------------------------------------

  /** Address va lies on a page of loadable segment h. */
  predicate OnSegment(data: seq<Byte>, h: int, va: int)
  {
    && Header(data, h) && Field(data, h, 0) == 1
    && var from := LoadBase(data) + Field(data, h, 8);
      from / 0x1000 * 0x1000 <= va < (from + Field(data, h, 20) + 0xFFF) / 0x1000 * 0x1000
  }

  /** What the file says address va of segment h holds: a byte of the file, or zero. */
  function FileByte(data: seq<Byte>, h: int, va: int): int
    requires Header(data, h)
  {
    var k := va - (LoadBase(data) + Field(data, h, 8));
    if 0 <= k < Field(data, h, 16) && Field(data, h, 4) + k < |data| then data[Field(data, h, 4) + k] else 0
  }

  /** Before relocation: what was there, and on the pages of each segment what the file says. */
  ghost predicate Placed(before: Img, data: seq<Byte>, img: Img)
  {
    && (forall va {:trigger va in img} :: va in img <==> va in before || exists h :: OnSegment(data, h, va))
    && (forall h, va {:trigger OnSegment(data, h, va)} :: OnSegment(data, h, va) ==>
      va in img && img[va] == FileByte(data, h, va))
    && (forall va {:trigger img[va]} :: va in before && !(exists h :: OnSegment(data, h, va)) ==>
      va in img && img[va] == before[va])
  }

  lemma OnSegmentIff(data: seq<Byte>, h: int, va: int)
    requires HeadersFit(data)
    ensures OnSegment(data, h, va) <==>
      0 <= h < PhNum(data) && IsLoad(data, h) && SegStart(data, h) <= va < SegEnd(data, h)
  {
    hide U16, U32, Long, Half, PhNum, Ph, Base, LoadBase, Field;
    HeaderLaw(data);
    if 0 <= h < PhNum(data) {
      PhLaw(data, h);
    }
  }

  lemma SegmentByte(before: Img, data: seq<Byte>, h: int, va: int)
    requires HeadersFit(data) && SegmentsOk(data) && PageDisjoint(data) && OnSegment(data, h, va)
    ensures |data| >= EHDR_SIZE && Header(data, h)
    ensures var img := Loaded(before, data, PhNum(data)); va in img && img[va] == FileByte(data, h, va)
  {
    hide Loaded, PageDisjoint, OnSegment, RoundDown, RoundUp, Field, Ph, U16, U32, PhNum, Base, LoadBase;
    HeaderLaw(data);
    OnSegmentIff(data, h, va);
    PhLaw(data, h);
    LoadedAt(before, data, PhNum(data), h, va);
    assert SegmentOk(data, h);
  }

  lemma {:induction false} LoadedKeys(before: Img, data: seq<Byte>, k: int, va: int)
    requires HeadersFit(data) && SegmentsOk(data) && 0 <= k <= PhNum(data)
    ensures va in Loaded(before, data, k) <==> va in before || exists h :: 0 <= h < k && OnSegment(data, h, va)
    ensures va in before && (forall h :: 0 <= h < k ==> !OnSegment(data, h, va)) ==>
      Loaded(before, data, k)[va] == before[va]
    decreases k
  {
    hide SegImage, SegStart, SegEnd, OnSegment, Ph, U16, U32, HeadersFit, PhNum;
    if k > 0 {
      LoadedKeys(before, data, k - 1, va);
      OnSegmentIff(data, k - 1, va);
      if IsLoad(data, k - 1) {
        SegImageKeys(data, k - 1);
      }
    }
  }

  lemma LoadedPlaced(before: Img, data: seq<Byte>)
    requires |data| >= EHDR_SIZE && HeadersFit(data) && SegmentsOk(data) && PageDisjoint(data)
    ensures Placed(before, data, Loaded(before, data, PhNum(data)))
  {
    hide Loaded, OnSegment, PageDisjoint, SegmentsOk, FileByte, HeadersFit, PhNum;
    var img := Loaded(before, data, PhNum(data));
    forall va
      ensures va in img <==> va in before || exists h :: OnSegment(data, h, va)
      ensures va in before && !(exists h :: OnSegment(data, h, va)) ==> va in img && img[va] == before[va]
    {
      LoadedKeys(before, data, PhNum(data), va);
      forall h | OnSegment(data, h, va)
        ensures 0 <= h < PhNum(data)
      {
        OnSegmentIff(data, h, va);
      }
    }
    forall h, va | OnSegment(data, h, va)
      ensures Header(data, h) && va in img && img[va] == FileByte(data, h, va)
    {
      SegmentByte(before, data, h, va);
    }
  }

  // ---- relocation ------------------------------------------------------------------------------------------------

  predicate HasLong(img: Img, va: int)
  {
    va in img && va + 1 in img && va + 2 in img && va + 3 in img
  }

  /** The little-endian 32-bit value at va. */
  function LongAt(img: Img, va: int): int
    requires HasLong(img, va)
  {
    var b0: int, b1: int, b2: int, b3: int := img[va], img[va + 1], img[va + 2], img[va + 3];
    b0 + 0x100 * b1 + 0x1_0000 * b2 + 0x100_0000 * b3
  }

  lemma LongLaw(img: Img, va: int)
    ensures HasLong(img, va) <==> HasWord(img, va)
    ensures HasLong(img, va) ==> LongAt(img, va) == WordAt(img, va)
  {
  }

  /** The dynamic section is at `dyn`: where the last program header of type 2 says; 0 means there is none. */
  ghost predicate DynamicAt(data: seq<Byte>, dyn: int)
  {
    && Whole(data)
    && if forall h {:trigger Header(data, h)} :: Header(data, h) ==> Field(data, h, 0) != 2 then dyn == 0
       else exists h :: LastDynamic(data, h) && dyn == (LoadBase(data) + Field(data, h, 8)) % 0x1_0000_0000
  }

  ghost predicate LastDynamic(data: seq<Byte>, h: int)
  {
    && Header(data, h) && Field(data, h, 0) == 2
    && forall g {:trigger Header(data, g)} :: h < g && Header(data, g) ==> Field(data, g, 0) != 2
  }

  /** Entry i of the dynamic section at dyn has this tag and this value. */
  predicate EntrySays(img: Img, dyn: int, i: int, tag: int, value: int)
  {
    && HasLong(img, dyn + 8 * i) && HasLong(img, dyn + 8 * i + 4)
    && LongAt(img, dyn + 8 * i) == tag && LongAt(img, dyn + 8 * i + 4) == value
  }

  /** Among the n entries of the dynamic section the last with this tag has this value; or there is none. */
  ghost predicate Says(img: Img, dyn: int, n: nat, tag: int, value: int, default: int)
  {
    if forall i, v :: 0 <= i < n ==> !EntrySays(img, dyn, i, tag, v) then value == default
    else exists i :: LastEntry(img, dyn, n, i, tag, value)
  }

  ghost predicate LastEntry(img: Img, dyn: int, n: nat, i: int, tag: int, value: int)
  {
    0 <= i < n && EntrySays(img, dyn, i, tag, value) && forall j, v :: i < j < n ==> !EntrySays(img, dyn, j, tag, v)
  }

  /** The relocation table starts at `at`, and has entries every `step` bytes up to `size`: tags 17, 18 and 19. */
  ghost predicate TableSaid(img: Img, dyn: int, n: nat, base: int, at: int, size: int, step: int)
  {
    && Says(img, dyn, n, 18, size, 0) && Says(img, dyn, n, 19, step, 8)
    && exists v :: Says(img, dyn, n, 17, v, -1) && at == if v == -1 then 0 else (base + v) % 0x1_0000_0000
  }

  /** Entry k of the table is a relative relocation (type 8, in the low byte of its second word) of the word at t. */
  ghost predicate Relocates(img: Img, base: int, at: int, size: int, step: int, k: nat, t: int)
  {
    && k * step < size
    && HasLong(img, at + k * step) && at + k * step + 4 in img && img[at + k * step + 4] == 8
    && t == (base + LongAt(img, at + k * step)) % 0x1_0000_0000
  }

  /** From `was` to `now`: the base is added, modulo 2^32, to each word a relative relocation names; every byte outside
      those words stays. */
  ghost predicate Relocated(was: Img, now: Img, base: int, at: int, size: int, step: int)
  {
    && now.Keys == was.Keys
    && (forall k, t {:trigger Relocates(was, base, at, size, step, k, t)} :: Relocates(was, base, at, size, step, k,
      t) ==>
      HasLong(was, t) && HasLong(now, t) && LongAt(now, t) == (LongAt(was, t) + base) % 0x1_0000_0000)
    && (forall va {:trigger now[va]} :: va in was && !InTarget(was, base, at, size, step, va) ==> now[va] == was[va])
  }

  ghost predicate InTarget(was: Img, base: int, at: int, size: int, step: int, va: int)
  {
    exists k, t :: Relocates(was, base, at, size, step, k, t) && t <= va < t + 4
  }

  // ---- that the loader's targets are those words ------------------------------------------------------------------

  ghost predicate DynHeader(data: seq<Byte>, k: int, h: int)
    requires HeadersFit(data) && 0 <= k <= PhNum(data)
  {
    && 0 <= h < k && Ph(data, h).ptype == 2 && DynAt(data, k) == SegAt(data, h) % WORD
    && forall g :: h < g < k ==> Ph(data, g).ptype != 2
  }

  lemma {:induction false} DynIs(data: seq<Byte>, k: int)
    requires HeadersFit(data) && 0 <= k <= PhNum(data)
    ensures if forall h :: 0 <= h < k ==> Ph(data, h).ptype != 2 then DynAt(data, k) == 0
            else exists h :: DynHeader(data, k, h)
    decreases k
  {
    hide Ph, SegAt, PhNum, HeadersFit;
    if k > 0 {
      var m := k - 1;
      DynIs(data, m);
      if Ph(data, m).ptype == 2 {
        assert DynHeader(data, k, m);
      } else if h :| DynHeader(data, m, h) {
        assert DynHeader(data, k, h);
      }
    }
  }

  lemma DynamicIs(data: seq<Byte>)
    requires HeadersFit(data)
    ensures DynamicAt(data, DynAt(data, PhNum(data)))
  {
    hide Ph, Field, U16, U32, Long, Half, DynAt, PhNum, Base, LoadBase;
    HeaderLaw(data);
    DynIs(data, PhNum(data));
    forall h | 0 <= h < PhNum(data)
      ensures Header(data, h) && Ph(data, h).ptype == Field(data, h, 0) && Ph(data, h).vaddr == Field(data, h, 8)
    {
      PhLaw(data, h);
    }
    if h :| DynHeader(data, PhNum(data), h) {
      assert LastDynamic(data, h);
    }
  }

  lemma EntryIff(img: Img, dyn: int, i: int, tag: int)
    requires DynEntry(img, dyn, i)
    ensures WordAt(img, dyn + 8 * i) == tag <==> EntrySays(img, dyn, i, tag, WordAt(img, dyn + 8 * i + 4))
    ensures forall v :: EntrySays(img, dyn, i, tag, v) ==> v == WordAt(img, dyn + 8 * i + 4)
  {
    LongLaw(img, dyn + 8 * i);
    LongLaw(img, dyn + 8 * i + 4);
  }

  lemma {:induction false} ValueSaid(img: Img, dyn: int, n: nat, tag: int, default: int)
    requires forall i {:trigger DynEntry(img, dyn, i)} :: 0 <= i < n ==> DynEntry(img, dyn, i)
    ensures Says(img, dyn, n, tag, DynValue(img, dyn, n, tag, default), default)
  {
    hide WordAt, EntrySays;
    if n > 0 {
      assert DynEntry(img, dyn, n - 1);
      ValueSaid(img, dyn, n - 1, tag, default);
      LastSaid(img, dyn, n, tag, default);
    }
  }

  lemma LastSaid(img: Img, dyn: int, n: nat, tag: int, default: int)
    requires n > 0 && DynEntry(img, dyn, n - 1)
    requires forall i {:trigger DynEntry(img, dyn, i)} :: 0 <= i < n ==> DynEntry(img, dyn, i)
    requires Says(img, dyn, n - 1, tag, DynValue(img, dyn, n - 1, tag, default), default)
    ensures Says(img, dyn, n, tag, DynValue(img, dyn, n, tag, default), default)
  {
    hide WordAt, EntrySays;
    EntryIff(img, dyn, n - 1, tag);
    var m: nat := n - 1;
    var was := DynValue(img, dyn, m, tag, default);
    if WordAt(img, dyn + 8 * m) == tag {
      assert LastEntry(img, dyn, n, m, tag, WordAt(img, dyn + 8 * m + 4));
    } else if i :| LastEntry(img, dyn, m, i, tag, was) {
      assert LastEntry(img, dyn, n, i, tag, was);
    }
  }

  lemma TableIs(img: Img, dyn: int, n: nat, base: int)
    requires forall i {:trigger DynEntry(img, dyn, i)} :: 0 <= i < n ==> DynEntry(img, dyn, i)
    ensures var r := RelOf(img, dyn, n, base); TableSaid(img, dyn, n, base, r.at, r.size, r.step)
  {
    hide Says, DynValue;
    ValueSaid(img, dyn, n, 17, -1);
    ValueSaid(img, dyn, n, 18, 0);
    ValueSaid(img, dyn, n, 19, 8);
  }

  /** The entry at offset `off` relocates the word at t. */
  predicate EntryNames(img: Img, base: int, r: RelTable, off: int, t: int)
  {
    && HasLong(img, r.at + off) && r.at + off + 4 in img && img[r.at + off + 4] == 8
    && t == (base + LongAt(img, r.at + off)) % 0x1_0000_0000
  }

  lemma TargetIs(img: Img, base: int, r: RelTable, off: int, t: int)
    requires HasWord(img, r.at + off) && HasWord(img, r.at + off + 4)
    ensures t in TargetOf(img, base, r, off) <==> EntryNames(img, base, r, off, t)
  {
    hide FromBytes, ByteOf, LongAt;
    LongLaw(img, r.at + off);
    LowByte(img, r.at + off + 4);
  }

  lemma LowByte(img: Img, va: int)
    requires HasWord(img, va)
    ensures WordAt(img, va) % 256 == img[va]
  {
    hide FromBytes;
    BytesOf(img[va], img[va + 1], img[va + 2], img[va + 3]);
  }

  /** What entry k, counted from offset `off`, names is among the targets from there on. */
  lemma {:induction false} Listed(img: Img, base: int, r: RelTable, off: int, k: nat, t: int)
    requires r.step > 0 && RelReadable(img, r, off) && off + k * r.step < r.size
    requires EntryNames(img, base, r, off + k * r.step, t)
    ensures t in Targets(img, base, r, off)
    decreases k
  {
    hide EntryNames, TargetOf, HasWord;
    Nearer(off, k, r.step);
    if k == 0 {
      TargetIs(img, base, r, off, t);
    } else {
      assert off + k * r.step == off + r.step + (k - 1) * r.step;
      Listed(img, base, r, off + r.step, k - 1, t);
    }
  }

  lemma Nearer(off: int, k: nat, step: int)
    requires step > 0
    ensures off <= off + k * step && off + k * step == off + step + (k - 1) * step
  {
  }

  /** And every target is named by an entry. */
  lemma {:induction false} Named(img: Img, base: int, r: RelTable, off: int, t: int) returns (k: nat)
    requires r.step > 0 && RelReadable(img, r, off) && t in Targets(img, base, r, off)
    ensures off + k * r.step < r.size && EntryNames(img, base, r, off + k * r.step, t)
    decreases r.size - off
  {
    hide EntryNames, TargetOf, HasWord;
    TargetIs(img, base, r, off, t);
    if t in TargetOf(img, base, r, off) {
      k := 0;
    } else {
      var j := Named(img, base, r, off + r.step, t);
      k := j + 1;
      Nearer(off, k, r.step);
    }
  }

  lemma RelocatesIff(img: Img, base: int, r: RelTable, k: nat, t: int)
    requires r.step > 0
    ensures Relocates(img, base, r.at, r.size, r.step, k, t) <==>
      k * r.step < r.size && EntryNames(img, base, r, k * r.step, t)
  {
  }

  lemma AllRelocated(img: Img, base: int, r: RelTable)
    requires RelocationsOk(img, base, r) && 0 <= base
    ensures Relocated(img, RelocateAll(img, Targets(img, base, r, 0), base), base, r.at, r.size, r.step)
  {
    hide WordAt, HasWord, HasLong, LongAt, RelocateAll, Targets, TargetOf, RelReadable, EntryNames, Relocates, ApartAll;
    var ts := Targets(img, base, r, 0);
    var now := RelocateAll(img, ts, base);
    forall k, t | Relocates(img, base, r.at, r.size, r.step, k, t)
      ensures HasLong(img, t) && HasLong(now, t) && LongAt(now, t) == (LongAt(img, t) + base) % 0x1_0000_0000
    {
      RelocatesIff(img, base, r, k, t);
      Listed(img, base, r, 0, k, t);
      var j :| 0 <= j < |ts| && ts[j] == t;
      RelocatedWord(img, ts, base, j);
      LongLaw(img, t);
      LongLaw(now, t);
    }
    forall va | va in img && !InTarget(img, base, r.at, r.size, r.step, va)
      ensures now[va] == img[va]
    {
      forall j | 0 <= j < |ts|
        ensures va < ts[j] || ts[j] + 4 <= va
      {
        var k := Named(img, base, r, 0, ts[j]);
        RelocatesIff(img, base, r, k, ts[j]);
      }
      RelocatedByte(img, ts, base, va);
    }
  }

  /** The process image of a file over what was in memory before: its segments, relocated as its dynamic section
      says. */
  ghost predicate ImageOf(before: Img, data: seq<Byte>, n: nat, img: Img)
  {
    exists was, dyn :: Placed(before, data, was) && DynamicAt(data, dyn) && FromPlaced(was, data, n, dyn, img)
  }

  ghost predicate FromPlaced(was: Img, data: seq<Byte>, n: nat, dyn: int, img: Img)
    requires |data| >= 52
  {
    if dyn == 0 then img == was
    else Ends(was, dyn, n) && exists at, size, step :: ByTable(was, img, LoadBase(data), dyn, n, at, size, step)
  }

  ghost predicate ByTable(was: Img, img: Img, base: int, dyn: int, n: nat, at: int, size: int, step: int)
  {
    TableSaid(was, dyn, n, base, at, size, step) && Relocated(was, img, base, at, size, step)
  }

  /** The dynamic section has n entries and then one with tag 0. */
  ghost predicate Ends(img: Img, dyn: int, n: nat)
  {
    && (exists v :: EntrySays(img, dyn, n, 0, v))
    && forall i, v :: 0 <= i < n ==> !EntrySays(img, dyn, i, 0, v)
  }

  lemma DynEnds(img: Img, dyn: int, n: nat)
    requires DynTable(img, dyn, n)
    ensures Ends(img, dyn, n)
  {
    hide WordAt, EntrySays;
    EntryIff(img, dyn, n, 0);
    forall i, v | 0 <= i < n
      ensures !EntrySays(img, dyn, i, 0, v)
    {
      assert DynEntry(img, dyn, i);
      EntryIff(img, dyn, i, 0);
      EntryTag(img, dyn, i, v);
    }
  }

  lemma EntryTag(img: Img, dyn: int, i: int, v: int)
    requires DynEntry(img, dyn, i)
    ensures EntrySays(img, dyn, i, 0, v) ==> WordAt(img, dyn + 8 * i) == 0
  {
    LongLaw(img, dyn + 8 * i);
  }

  /** What loading leaves in memory is what the file says. */
  lemma ProgramMeans(before: Img, data: seq<Byte>, n: nat)
    requires |data| >= EHDR_SIZE && Loadable(before, data, n)
    ensures ImageOf(before, data, n, Program(before, data, n))
  {
    hide Loaded, Placed, DynamicAt, DynTable, RelocationsOk, RelocateAll, Targets, TableSaid, Relocated, Ends, RelOf,
         LoadBase, PageDisjoint, SegmentsOk, DynAt, Base, HeadersFit, PhNum, Clear;
    LoadableParts(before, data, n);
    HeaderLaw(data);
    var was, dyn := Loaded(before, data, PhNum(data)), DynAt(data, PhNum(data));
    LoadedPlaced(before, data);
    DynamicIs(data);
    if dyn != 0 {
      DynEnds(was, dyn, n);
      DynReadable(was, dyn, n);
      var r := RelOf(was, dyn, n, Base(data));
      TableIs(was, dyn, n, Base(data));
      BaseSmall(data);
      AllRelocated(was, Base(data), r);
      assert ByTable(was, Program(before, data, n), Base(data), dyn, n, r.at, r.size, r.step);
    }
    assert FromPlaced(was, data, n, dyn, Program(before, data, n));
  }

  lemma DynReadable(img: Img, dyn: int, n: nat)
    requires DynTable(img, dyn, n)
    ensures forall i {:trigger DynEntry(img, dyn, i)} :: 0 <= i < n ==> DynEntry(img, dyn, i)
  {
  }

  lemma BaseSmall(data: seq<Byte>)
    requires |data| >= EHDR_SIZE
    ensures 0 <= Base(data)
  {
  }

  /** The entry point lies where the segment that holds it is loaded: there is the byte the file has for it. */
  lemma EntryByte(before: Img, data: seq<Byte>, h: int, was: Img)
    requires |data| >= EHDR_SIZE && HeadersFit(data) && SegmentsOk(data) && Placed(before, data, was) && Header(data, h)
    requires Field(data, h, 0) == 1 && Field(data, h, 8) <= Long(data, 24) < Field(data, h, 8) + Field(data, h, 16)
    ensures Entry(data) == LoadBase(data) + Long(data, 24) && Entry(data) in was
    ensures var at := Field(data, h, 4) + (Long(data, 24) - Field(data, h, 8));
      0 <= at < |data| && was[Entry(data)] == data[at]
  {
    hide U16, U32, Long, Half, Ph;
    HeaderLaw(data);
    PhLaw(data, h);
    assert IsLoad(data, h) && SegmentOk(data, h);
    assert OnSegment(data, h, Entry(data));
  }

  /** The end of loadable segment h, rounded up to a page. */
  function EndOf(data: seq<Byte>, h: int): int
    requires Header(data, h)
  {
    (LoadBase(data) + Field(data, h, 8) + Field(data, h, 20) + 0xFFF) / 0x1000 * 0x1000
  }

  /** The break elf_load reports is the highest end of a loadable segment, or 0 if there is none above it. */
  lemma BreakMeans(data: seq<Byte>)
    requires |data| >= EHDR_SIZE && HeadersFit(data)
    ensures var brk := Highest(data, PhNum(data));
      && (forall h {:trigger Header(data, h)} :: Header(data, h) && Field(data, h, 0) == 1 ==> EndOf(data, h) <= brk)
      && (brk == 0 || exists h :: Header(data, h) && Field(data, h, 0) == 1 && EndOf(data, h) == brk)
  {
    hide U16, U32, Long, Half, Field, Ph, PhNum, Base, LoadBase, Highest;
    HeaderLaw(data);
    forall h | Header(data, h)
      ensures 0 <= h < PhNum(data) && (IsLoad(data, h) <==> Field(data, h, 0) == 1) && SegEnd(data, h) == EndOf(data, h)
    {
      PhLaw(data, h);
    }
    HighestAligned(data, PhNum(data));
    forall h | Header(data, h) && Field(data, h, 0) == 1
      ensures EndOf(data, h) <= Highest(data, PhNum(data))
    {
      HighestCovers(data, PhNum(data), h);
    }
    if i :| 0 <= i < PhNum(data) && IsLoad(data, i) && Highest(data, PhNum(data)) == SegEnd(data, i) {
      PhLaw(data, i);
    }
  }
}
