/** What an ELF image means in memory: its segments, its relocations, and the bytes they leave
    (kernel/include/kernel/elf.h, kernel/arch/i386/elf.c; ELF gABI chapter 5, i386 psABI chapter 4 "Relocation"). */
module ElfFormat {
  import opened Arith
  import opened Words
  import opened Address
  import opened Pages

  const EHDR_SIZE := 52
  const PHDR_SIZE := 32
  const PT_LOAD := 1
  const PT_DYNAMIC := 2
  const ET_EXEC := 2
  const ET_DYN := 3
  const EM_386 := 3
  const DYN_BASE := 0x4000_0000
  const USER_LOW := 0x40_0000
  const USER_HIGH := 0xB000_0000

  const DT_NULL := 0
  const DT_REL := 17
  const DT_RELSZ := 18
  const DT_RELENT := 19
  const R_386_RELATIVE := 8

  type Img = map<int, Byte>

  // ---- the file ------------------------------------------------------------------------------------------

  function U16(data: seq<Byte>, at: int): int
    requires 0 <= at && at + 2 <= |data|
  {
    var lo: int, hi: int := data[at], data[at + 1];
    lo + hi * 0x100
  }

  function U32(data: seq<Byte>, at: int): (v: int)
    requires 0 <= at && at + 4 <= |data|
    ensures 0 <= v < WORD
  {
    FromBytes(data[at], data[at + 1], data[at + 2], data[at + 3])
  }

  /** The tests elf_load makes on the file header, in its order. */
  predicate Accepts(data: seq<Byte>, size: int)
    requires size <= |data|
  {
    && size >= EHDR_SIZE
    && data[0] == 0x7F && data[1] == 0x45 && data[2] == 0x4C && data[3] == 0x46
    && data[4] == 1
    && U16(data, 18) == EM_386
    && (U16(data, 16) == ET_DYN || U16(data, 16) == ET_EXEC)
  }

  /** A position-independent image is loaded at a fixed base, any other where it says. */
  function Base(data: seq<Byte>): int
    requires |data| >= EHDR_SIZE
  {
    if U16(data, 16) == ET_DYN then DYN_BASE else 0
  }

  function Entry(data: seq<Byte>): int
    requires |data| >= EHDR_SIZE
  {
    (Base(data) + U32(data, 24)) % WORD
  }

  function PhNum(data: seq<Byte>): (n: int)
    requires |data| >= EHDR_SIZE
    ensures 0 <= n
  {
    U16(data, 44)
  }

  /** The program headers lie inside the buffer. */
  predicate HeadersFit(data: seq<Byte>)
  {
    |data| >= EHDR_SIZE && U32(data, 28) + PHDR_SIZE * PhNum(data) <= |data|
  }

  datatype Phdr = Phdr(ptype: int, offset: int, vaddr: int, filesz: int, memsz: int)

  function Ph(data: seq<Byte>, i: int): Phdr
    requires HeadersFit(data) && 0 <= i < PhNum(data)
  {
    var at := U32(data, 28) + PHDR_SIZE * i;
    Phdr(U32(data, at), U32(data, at + 4), U32(data, at + 8), U32(data, at + 16), U32(data, at + 20))
  }

  predicate IsLoad(data: seq<Byte>, i: int)
    requires HeadersFit(data) && 0 <= i < PhNum(data)
  {
    Ph(data, i).ptype == PT_LOAD
  }

  function SegAt(data: seq<Byte>, i: int): int
    requires HeadersFit(data) && 0 <= i < PhNum(data)
  {
    Base(data) + Ph(data, i).vaddr
  }

  function SegStart(data: seq<Byte>, i: int): int
    requires HeadersFit(data) && 0 <= i < PhNum(data)
  {
    RoundDown(SegAt(data, i))
  }

  function SegEnd(data: seq<Byte>, i: int): int
    requires HeadersFit(data) && 0 <= i < PhNum(data)
  {
    RoundUp(SegAt(data, i) + Ph(data, i).memsz)
  }

  // ---- segments in memory ----------------------------------------------------------------------------------

  predicate Between(va: int, from: int, to: int)
  {
    from <= va < to
  }

  predicate Within(va: int, from: int, n: int)
  {
    from <= va < from + n
  }

  function Zeros(from: int, to: int): Img
  {
    map va | from <= va < to && Between(va, from, to) :: 0
  }

  ghost function BytesAt(dst: int, bytes: seq<Byte>): Img
  {
    map va | dst <= va < dst + |bytes| && Within(va, dst, |bytes|) :: bytes[va - dst]
  }

  /** The segment lies in the file and in user space, and its file part is no longer than its memory part. */
  predicate SegmentOk(data: seq<Byte>, i: int)
    requires HeadersFit(data) && 0 <= i < PhNum(data)
  {
    var p := Ph(data, i);
    p.filesz <= p.memsz && p.offset + p.filesz <= |data| && USER_LOW <= SegAt(data, i)
      && SegAt(data, i) + p.memsz <= USER_HIGH
  }

  /** The pages of one segment: its file bytes, and zeros around them. */
  ghost function SegImage(data: seq<Byte>, i: int): Img
    requires HeadersFit(data) && 0 <= i < PhNum(data) && SegmentOk(data, i)
  {
    Zeros(SegStart(data, i), SegEnd(data, i)) + BytesAt(SegAt(data, i), FileBytes(data, i))
  }

  function FileBytes(data: seq<Byte>, i: int): seq<Byte>
    requires HeadersFit(data) && 0 <= i < PhNum(data) && SegmentOk(data, i)
  {
    data[Ph(data, i).offset..Ph(data, i).offset + Ph(data, i).filesz]
  }

  ghost predicate SegmentsOk(data: seq<Byte>)
    requires HeadersFit(data)
  {
    forall i {:trigger IsLoad(data, i)} :: 0 <= i < PhNum(data) && IsLoad(data, i) ==> SegmentOk(data, i)
  }

  /** No two loadable segments touch the same page. */
  ghost predicate PageDisjoint(data: seq<Byte>)
    requires HeadersFit(data)
  {
    forall i, j {:trigger IsLoad(data, i), IsLoad(data, j)} ::
      0 <= i < j < PhNum(data) && IsLoad(data, i) && IsLoad(data, j) ==>
        SegEnd(data, i) <= SegStart(data, j) || SegEnd(data, j) <= SegStart(data, i)
  }

  /** Memory after the first k program headers. */
  ghost function Loaded(img: Img, data: seq<Byte>, k: int): Img
    requires HeadersFit(data) && SegmentsOk(data) && 0 <= k <= PhNum(data)
    decreases k
  {
    if k == 0 then img
    else if IsLoad(data, k - 1) then Loaded(img, data, k - 1) + SegImage(data, k - 1)
    else Loaded(img, data, k - 1)
  }

  /** The page-rounded top of the first k segments. */
  function Highest(data: seq<Byte>, k: int): int
    requires HeadersFit(data) && 0 <= k <= PhNum(data)
    decreases k
  {
    if k == 0 then 0
    else if IsLoad(data, k - 1) && SegEnd(data, k - 1) > Highest(data, k - 1) then SegEnd(data, k - 1)
    else Highest(data, k - 1)
  }

  /** The pages that headers k and later map, in order. */
  ghost function ElfPages(data: seq<Byte>, k: int): seq<int>
    requires HeadersFit(data) && 0 <= k <= PhNum(data)
    decreases PhNum(data) - k
  {
    if k == PhNum(data) then []
    else (if IsLoad(data, k) then PageList(SegStart(data, k), SegEnd(data, k)) else []) + ElfPages(data, k + 1)
  }

  /** The image so far has nothing where segment i goes. */
  ghost predicate Clear(img: Img, data: seq<Byte>, i: int)
    requires HeadersFit(data) && 0 <= i < PhNum(data)
  {
    forall va {:trigger va in img} :: SegStart(data, i) <= va < SegEnd(data, i) ==> va !in img
  }

  lemma {:induction false} LoadedClear(img: Img, data: seq<Byte>, k: int, i: int)
    requires HeadersFit(data) && SegmentsOk(data) && PageDisjoint(data)
    requires 0 <= k <= i < PhNum(data) && IsLoad(data, i) && Clear(img, data, i)
    ensures Clear(Loaded(img, data, k), data, i)
  {
    if k > 0 {
      LoadedClear(img, data, k - 1, i);
      if IsLoad(data, k - 1) {
        SegImageKeys(data, k - 1);
      }
    }
  }

  lemma SegImageKeys(data: seq<Byte>, i: int)
    requires HeadersFit(data) && 0 <= i < PhNum(data) && SegmentOk(data, i)
    ensures forall va {:trigger va in SegImage(data, i)} :: va in SegImage(data, i) <==>
      SegStart(data, i) <= va < SegEnd(data, i)
  {
    RoundFacts(SegAt(data, i), 0);
    RoundFacts(SegAt(data, i) + Ph(data, i).memsz, 0);
  }

  /** What the loaded image holds at the pages of segment i, whatever the other segments are. */
  lemma {:induction false} LoadedAt(img: Img, data: seq<Byte>, k: int, i: int, va: int)
    requires HeadersFit(data) && SegmentsOk(data) && PageDisjoint(data)
    requires 0 <= i < k <= PhNum(data) && IsLoad(data, i) && SegStart(data, i) <= va < SegEnd(data, i)
    ensures va in Loaded(img, data, k)
    ensures Loaded(img, data, k)[va] ==
      if SegAt(data, i) <= va < SegAt(data, i) + Ph(data, i).filesz
      then data[Ph(data, i).offset + va - SegAt(data, i)] else 0
    decreases k
  {
    hide RoundDown, RoundUp, Ph, U16, U32, SegImage, SegmentOk, IsLoad, SegAt, SegStart, SegEnd, Base, PhNum,
         HeadersFit;
    SegImageAt(data, i, va);
    if k - 1 > i {
      LoadedAt(img, data, k - 1, i, va);
      if IsLoad(data, k - 1) {
        SegImageKeys(data, k - 1);
        assert IsLoad(data, i);
      }
    }
  }

  lemma SegImageAt(data: seq<Byte>, i: int, va: int)
    requires HeadersFit(data) && 0 <= i < PhNum(data) && SegmentOk(data, i) && SegStart(data, i) <= va < SegEnd(data, i)
    ensures va in SegImage(data, i)
    ensures SegImage(data, i)[va] ==
      if SegAt(data, i) <= va < SegAt(data, i) + Ph(data, i).filesz
      then data[Ph(data, i).offset + va - SegAt(data, i)] else 0
  {
    hide RoundDown, RoundUp, U16, U32, HeadersFit;
  }

  lemma {:induction false} HighestCovers(data: seq<Byte>, k: int, i: int)
    requires HeadersFit(data) && 0 <= i < k <= PhNum(data) && IsLoad(data, i)
    ensures SegEnd(data, i) <= Highest(data, k)
    decreases k
  {
    hide SegEnd, IsLoad, HeadersFit, PhNum;
    if k - 1 > i {
      HighestCovers(data, k - 1, i);
    }
  }

  lemma {:induction false} HighestAligned(data: seq<Byte>, k: int)
    requires HeadersFit(data) && 0 <= k <= PhNum(data)
    ensures Highest(data, k) % PAGE == 0
    ensures Highest(data, k) == 0 || exists i :: 0 <= i < k && IsLoad(data, i) && Highest(data, k) == SegEnd(data, i)
    decreases k
  {
    hide IsLoad, HeadersFit, PhNum, Ph, SegAt;
    if k > 0 {
      HighestAligned(data, k - 1);
    }
  }

  // ---- relocations -----------------------------------------------------------------------------------------

  predicate HasWord(img: Img, va: int)
  {
    va in img && va + 1 in img && va + 2 in img && va + 3 in img
  }

  function WordAt(img: Img, va: int): (v: int)
    requires HasWord(img, va)
    ensures 0 <= v < WORD
  {
    FromBytes(img[va], img[va + 1], img[va + 2], img[va + 3])
  }

  function PutWord(img: Img, va: int, v: int): Img
  {
    img[va := ByteOf(v, 0)][va + 1 := ByteOf(v, 1)][va + 2 := ByteOf(v, 2)][va + 3 := ByteOf(v, 3)]
  }

  lemma WordAfterPut(img: Img, va: int, v: int)
    requires 0 <= v < WORD
    ensures HasWord(PutWord(img, va, v), va) && WordAt(PutWord(img, va, v), va) == v
  {
    hide ByteOf, FromBytes;
    FromBytesOf(v);
  }

  /** The PT_DYNAMIC address among the first k headers: the last one wins, and 0 means there is none. */
  function DynAt(data: seq<Byte>, k: int): int
    requires HeadersFit(data) && 0 <= k <= PhNum(data)
    decreases k
  {
    if k == 0 then 0
    else if Ph(data, k - 1).ptype == PT_DYNAMIC then SegAt(data, k - 1) % WORD
    else DynAt(data, k - 1)
  }

  /** A dynamic table of n entries and then DT_NULL. */
  ghost predicate DynTable(img: Img, dyn: int, n: nat)
  {
    && (forall i {:trigger DynEntry(img, dyn, i)} :: 0 <= i <= n ==> DynEntry(img, dyn, i))
    && (forall i {:trigger DynEntry(img, dyn, i)} :: 0 <= i < n ==>
      DynEntry(img, dyn, i) && WordAt(img, dyn + 8 * i) != DT_NULL)
    && DynEntry(img, dyn, n) && WordAt(img, dyn + 8 * n) == DT_NULL
  }

  predicate DynEntry(img: Img, dyn: int, i: int)
  {
    HasWord(img, dyn + 8 * i) && HasWord(img, dyn + 8 * i + 4)
  }

  /** The value of the last of the first n entries that has the tag, or the default. */
  ghost function DynValue(img: Img, dyn: int, n: nat, tag: int, default: int): int
    requires forall i {:trigger DynEntry(img, dyn, i)} :: 0 <= i < n ==> DynEntry(img, dyn, i)
  {
    if n == 0 then default
    else
      assert DynEntry(img, dyn, n - 1);
      if WordAt(img, dyn + 8 * (n - 1)) == tag then WordAt(img, dyn + 8 * (n - 1) + 4)
      else DynValue(img, dyn, n - 1, tag, default)
  }

  datatype RelTable = RelTable(at: int, size: int, step: int)

  /** The relocation table a dynamic table announces. */
  ghost function RelOf(img: Img, dyn: int, n: nat, base: int): RelTable
    requires forall i {:trigger DynEntry(img, dyn, i)} :: 0 <= i < n ==> DynEntry(img, dyn, i)
  {
    RelTable(
      if DynValue(img, dyn, n, DT_REL, -1) == -1 then 0 else (base + DynValue(img, dyn, n, DT_REL, -1)) % WORD,
      DynValue(img, dyn, n, DT_RELSZ, 0),
      DynValue(img, dyn, n, DT_RELENT, 8))
  }

  /** Every entry of the table from offset `off` on lies in the image. */
  ghost predicate RelReadable(img: Img, r: RelTable, off: int)
    requires r.step > 0
    decreases r.size - off
  {
    off >= r.size || (HasWord(img, r.at + off) && HasWord(img, r.at + off + 4) && RelReadable(img, r, off + r.step))
  }

  /** The words to relocate, from offset `off` on, in table order. */
  ghost function Targets(img: Img, base: int, r: RelTable, off: int): seq<int>
    requires r.step > 0 && RelReadable(img, r, off)
    decreases r.size - off
  {
    if off >= r.size then []
    else TargetOf(img, base, r, off) + Targets(img, base, r, off + r.step)
  }

  /** The word one entry relocates: none unless its type is R_386_RELATIVE. */
  ghost function TargetOf(img: Img, base: int, r: RelTable, off: int): seq<int>
    requires HasWord(img, r.at + off) && HasWord(img, r.at + off + 4)
  {
    if WordAt(img, r.at + off + 4) % 256 == R_386_RELATIVE then [(base + WordAt(img, r.at + off)) % WORD] else []
  }

  /** Word t shares no byte with the table. */
  ghost predicate ApartFrom(t: int, r: RelTable, off: int)
    requires r.step > 0
    decreases r.size - off
  {
    off >= r.size || ((t + 4 <= r.at + off || r.at + off + 8 <= t) && ApartFrom(t, r, off + r.step))
  }

  /** `*(uint32_t*) t += base` */
  function Relocate(img: Img, t: int, base: int): Img
    requires HasWord(img, t)
  {
    PutWord(img, t, (WordAt(img, t) + base) % WORD)
  }

  ghost predicate AllWords(img: Img, targets: seq<int>)
  {
    forall i {:trigger targets[i]} :: 0 <= i < |targets| ==> HasWord(img, targets[i])
  }

  /** The targets relocated one after the other. */
  ghost function RelocateAll(img: Img, targets: seq<int>, base: int): (r: Img)
    requires AllWords(img, targets)
    ensures r.Keys == img.Keys
  {
    if targets == [] then img
    else
      assert HasWord(img, targets[|targets| - 1]);
      var r := RelocateAll(img, targets[..|targets| - 1], base);
      Relocate(r, targets[|targets| - 1], base)
  }

  /** The relocation hypotheses: a readable table whose relative entries name distinct words of the image,
      none of which overlaps the table. */
  ghost predicate RelocationsOk(img: Img, base: int, r: RelTable)
  {
    && r.step >= 8 && 0 <= r.at && 0 <= r.size && r.at + r.size + r.step <= WORD
    && RelReadable(img, r, 0)
    && AllWords(img, Targets(img, base, r, 0))
    && ApartAll(Targets(img, base, r, 0), r, 0)
    && Separate(Targets(img, base, r, 0))
  }

  ghost predicate Separate(targets: seq<int>)
  {
    forall i, j {:trigger targets[i], targets[j]} :: 0 <= i < j < |targets| ==>
      targets[i] + 4 <= targets[j] || targets[j] + 4 <= targets[i]
  }

  /** A byte outside every target keeps its value. */
  lemma {:induction false} RelocatedByte(img: Img, targets: seq<int>, base: int, va: int)
    requires AllWords(img, targets) && va in img && Outside(va, targets)
    ensures RelocateAll(img, targets, base)[va] == img[va]
  {
    hide ByteOf, WordAt;
    if targets != [] {
      var rest, t := targets[..|targets| - 1], targets[|targets| - 1];
      RelocatedByte(img, rest, base, va);
      assert va < t || t + 4 <= va;
    }
  }

  lemma WordKept(r: Img, t: int, v: int, u: int)
    requires HasWord(r, u) && (u + 4 <= t || t + 4 <= u)
    ensures HasWord(PutWord(r, t, v), u) && WordAt(PutWord(r, t, v), u) == WordAt(r, u)
  {
    hide ByteOf, FromBytes;
  }

  lemma WordSame(img: Img, r: Img, t: int)
    requires HasWord(img, t) && img.Keys == r.Keys
    requires r[t] == img[t] && r[t + 1] == img[t + 1] && r[t + 2] == img[t + 2] && r[t + 3] == img[t + 3]
    ensures HasWord(r, t) && WordAt(r, t) == WordAt(img, t)
  {
    hide FromBytes;
  }

  /** Relocating words that share no byte adds the base to each of them exactly once. */
  lemma {:induction false} RelocatedWord(img: Img, targets: seq<int>, base: int, i: int)
    requires AllWords(img, targets) && Separate(targets) && 0 <= i < |targets|
    ensures HasWord(img, targets[i]) && HasWord(RelocateAll(img, targets, base), targets[i])
    ensures WordAt(RelocateAll(img, targets, base), targets[i]) == (WordAt(img, targets[i]) + base) % WORD
    decreases |targets|
  {
    hide FromBytes, ByteOf, WordAt, PutWord;
    var n := |targets| - 1;
    var rest, t := targets[..n], targets[n];
    var r := RelocateAll(img, rest, base);
    assert HasWord(img, targets[i]);
    assert HasWord(img, t);
    if i == n {
      RestOutside(targets);
      RelocatedByte(img, rest, base, t);
      RelocatedByte(img, rest, base, t + 1);
      RelocatedByte(img, rest, base, t + 2);
      RelocatedByte(img, rest, base, t + 3);
      WordSame(img, r, t);
      WordAfterPut(r, t, (WordAt(r, t) + base) % WORD);
    } else {
      assert rest[i] == targets[i];
      RelocatedWord(img, rest, base, i);
      assert targets[i] + 4 <= t || t + 4 <= targets[i];
      WordKept(r, t, (WordAt(r, t) + base) % WORD, targets[i]);
    }
  }

  lemma RestOutside(targets: seq<int>)
    requires targets != [] && Separate(targets)
    ensures var rest, t := targets[..|targets| - 1], targets[|targets| - 1];
      Outside(t, rest) && Outside(t + 1, rest) && Outside(t + 2, rest) && Outside(t + 3, rest)
  {
    var rest, t := targets[..|targets| - 1], targets[|targets| - 1];
    forall i | 0 <= i < |rest|
      ensures rest[i] + 4 <= t || t + 4 <= rest[i]
    {
      assert rest[i] == targets[i];
    }
  }

  ghost predicate Outside(va: int, targets: seq<int>)
  {
    forall i {:trigger targets[i]} :: 0 <= i < |targets| ==> va < targets[i] || targets[i] + 4 <= va
  }

  /** The relocation hypotheses on a loaded image, if its file announces a dynamic table. */
  ghost predicate Relocatable(img: Img, data: seq<Byte>, base: int, n: nat)
    requires HeadersFit(data)
  {
    var dyn := DynAt(data, PhNum(data));
    dyn != 0 ==> DynTable(img, dyn, n) && RelocationsOk(img, base, RelOf(img, dyn, n, base))
  }

  /** What the loader relies on in an accepted image: headers and segments in range, segments on distinct pages that
      are not mapped yet, and a sound relocation table. */
  ghost predicate Loadable(img: Img, data: seq<Byte>, n: nat)
    requires |data| >= EHDR_SIZE
  {
    && HeadersFit(data) && SegmentsOk(data) && PageDisjoint(data)
    && (forall i {:trigger IsLoad(data, i)} :: 0 <= i < PhNum(data) && IsLoad(data, i) ==> Clear(img, data, i))
    && Relocatable(Loaded(img, data, PhNum(data)), data, Base(data), n)
  }

  /** Memory after a completed load. */
  ghost function Program(img: Img, data: seq<Byte>, n: nat): Img
    requires |data| >= EHDR_SIZE && Loadable(img, data, n)
  {
    AfterRelocation(Loaded(img, data, PhNum(data)), data, Base(data), n)
  }

  lemma LoadableParts(img: Img, data: seq<Byte>, n: nat)
    requires |data| >= EHDR_SIZE && Loadable(img, data, n)
    ensures HeadersFit(data) && SegmentsOk(data) && Relocatable(Loaded(img, data, PhNum(data)), data, Base(data), n)
    ensures Program(img, data, n) == AfterRelocation(Loaded(img, data, PhNum(data)), data, Base(data), n)
  {
  }

  lemma LoadStarts(img: Img, data: seq<Byte>)
    requires HeadersFit(data) && SegmentsOk(data)
    ensures Loaded(img, data, 0) == img && Highest(data, 0) == 0
  {
  }

  lemma LoadUnfolds(img: Img, data: seq<Byte>, i: int)
    requires HeadersFit(data) && SegmentsOk(data) && 0 <= i < PhNum(data)
    ensures IsLoad(data, i) ==>
      SegmentOk(data, i) && Loaded(img, data, i + 1) == Loaded(img, data, i) + SegImage(data, i)
    ensures !IsLoad(data, i) ==> Loaded(img, data, i + 1) == Loaded(img, data, i)
    ensures Highest(data, i + 1) ==
      if IsLoad(data, i) && SegEnd(data, i) > Highest(data, i) then SegEnd(data, i) else Highest(data, i)
    ensures IsLoad(data, i) ==>
      ElfPages(data, i) == PageList(SegStart(data, i), SegEnd(data, i)) + ElfPages(data, i + 1)
    ensures !IsLoad(data, i) ==> ElfPages(data, i) == ElfPages(data, i + 1)
  {
    hide PageList, SegStart, SegEnd, SegImage, SegmentOk, Ph;
  }

  /** The image once apply_relocations has run. */
  ghost function AfterRelocation(img: Img, data: seq<Byte>, base: int, n: nat): Img
    requires HeadersFit(data) && Relocatable(img, data, base, n)
  {
    var dyn := DynAt(data, PhNum(data));
    if dyn == 0 then img
    else RelocateAll(img, Targets(img, base, RelOf(img, dyn, n, base), 0), base)
  }

  ghost predicate ApartAll(ts: seq<int>, r: RelTable, off: int)
    requires r.step > 0
  {
    forall i {:trigger ts[i]} :: 0 <= i < |ts| ==> ApartFrom(ts[i], r, off)
  }

  /** The relocation loop at offset `off`: `done` has been relocated in `img`, giving `now`. */
  ghost predicate RelocState(img: Img, now: Img, all: seq<int>, done: seq<int>, base: int, r: RelTable, off: int)
  {
    && r.step >= 8 && 0 <= off && RelReadable(img, r, off)
    && AllWords(img, all) && AllWords(img, done)
    && now == RelocateAll(img, done, base)
    && done + Targets(img, base, r, off) == all
    && ApartAll(all, r, off)
  }

  lemma RelocTable(img: Img, base: int, r: RelTable)
    requires RelocationsOk(img, base, r)
    ensures r.step >= 8 && RelReadable(img, r, 0)
  {
  }

  lemma RelocStart(img: Img, base: int, r: RelTable)
    requires RelocationsOk(img, base, r)
    ensures RelocState(img, img, Targets(img, base, r, 0), [], base, r, 0)
  {
    hide WordAt, TargetOf, HasWord;
    assert [] + Targets(img, base, r, 0) == Targets(img, base, r, 0);
  }

  lemma RelocEnd(img: Img, now: Img, all: seq<int>, done: seq<int>, base: int, r: RelTable, off: int)
    requires RelocState(img, now, all, done, base, r, off) && off >= r.size
    ensures AllWords(img, all) && now == RelocateAll(img, all, base)
  {
    hide WordAt, HasWord, ApartAll, RelocateAll;
    assert done == all;
  }

  /** The table entry at `off` still reads as in the unrelocated image. */
  lemma RelocRead(img: Img, now: Img, all: seq<int>, done: seq<int>, base: int, r: RelTable, off: int)
    requires RelocState(img, now, all, done, base, r, off) && off < r.size
    ensures HasWord(img, r.at + off) && HasWord(img, r.at + off + 4)
    ensures HasWord(now, r.at + off) && WordAt(now, r.at + off) == WordAt(img, r.at + off)
    ensures HasWord(now, r.at + off + 4) && WordAt(now, r.at + off + 4) == WordAt(img, r.at + off + 4)
  {
    hide Outside, RelocateAll, WordAt, Targets, ApartFrom, FromBytes;
    DonePart(img, all, done, base, r, off);
    EntryOutside(done, r, off);
    BytesKept(img, done, base, r.at + off);
    BytesKept(img, done, base, r.at + off + 4);
    WordSame(img, now, r.at + off);
    WordSame(img, now, r.at + off + 4);
  }

  lemma DonePart(img: Img, all: seq<int>, done: seq<int>, base: int, r: RelTable, off: int)
    requires r.step >= 8 && RelReadable(img, r, off) && done + Targets(img, base, r, off) == all
    requires ApartAll(all, r, off)
    ensures ApartAll(done, r, off)
  {
    hide Targets, ApartFrom;
    forall i | 0 <= i < |done|
      ensures ApartFrom(done[i], r, off)
    {
      assert all[i] == done[i];
    }
  }

  lemma BytesKept(img: Img, done: seq<int>, base: int, va: int)
    requires AllWords(img, done) && HasWord(img, va)
    requires Outside(va, done) && Outside(va + 1, done) && Outside(va + 2, done) && Outside(va + 3, done)
    ensures var now := RelocateAll(img, done, base);
      now[va] == img[va] && now[va + 1] == img[va + 1] && now[va + 2] == img[va + 2] && now[va + 3] == img[va + 3]
  {
    hide Outside, AllWords, RelocateAll;
    RelocatedByte(img, done, base, va);
    RelocatedByte(img, done, base, va + 1);
    RelocatedByte(img, done, base, va + 2);
    RelocatedByte(img, done, base, va + 3);
  }

  lemma EntryOutside(done: seq<int>, r: RelTable, off: int)
    requires r.step > 0 && off < r.size && ApartAll(done, r, off)
    ensures var a := r.at + off;
      && Outside(a, done) && Outside(a + 1, done) && Outside(a + 2, done) && Outside(a + 3, done)
      && Outside(a + 4, done) && Outside(a + 5, done) && Outside(a + 6, done) && Outside(a + 7, done)
  {
    forall i | 0 <= i < |done|
      ensures done[i] + 4 <= r.at + off || r.at + off + 8 <= done[i]
    {
      assert ApartFrom(done[i], r, off);
    }
  }

  /** An entry of another type is skipped. */
  lemma RelocSkip(img: Img, now: Img, all: seq<int>, done: seq<int>, base: int, r: RelTable, off: int)
    requires RelocState(img, now, all, done, base, r, off) && off < r.size
    requires HasWord(img, r.at + off) && HasWord(img, r.at + off + 4) && TargetOf(img, base, r, off) == []
    ensures RelocState(img, now, all, done, base, r, off + r.step)
  {
    hide WordAt, HasWord, RelocateAll, TargetOf, AllWords;
    ApartNext(all, r, off);
    assert [] + Targets(img, base, r, off + r.step) == Targets(img, base, r, off + r.step);
  }

  /** A relative entry relocates its word. */
  lemma RelocStep(img: Img, now: Img, all: seq<int>, done: seq<int>, base: int, r: RelTable, off: int, t: int)
    requires RelocState(img, now, all, done, base, r, off) && off < r.size
    requires HasWord(img, r.at + off) && HasWord(img, r.at + off + 4) && TargetOf(img, base, r, off) == [t]
    ensures HasWord(now, t) && RelocState(img, Relocate(now, t, base), all, done + [t], base, r, off + r.step)
  {
    hide WordAt, TargetOf, RelocateAll, ApartFrom;
    ApartNext(all, r, off);
    TargetsUnfold(img, base, r, off, t);
    var rest := Targets(img, base, r, off + r.step);
    assert (done + [t]) + rest == done + ([t] + rest);
    assert all[|done|] == t;
    WordsOfPart(img, all, done + [t], rest);
    RelocateOneMore(img, done, t, base);
  }

  lemma TargetsUnfold(img: Img, base: int, r: RelTable, off: int, t: int)
    requires r.step > 0 && RelReadable(img, r, off) && off < r.size
    requires HasWord(img, r.at + off) && HasWord(img, r.at + off + 4) && TargetOf(img, base, r, off) == [t]
    ensures RelReadable(img, r, off + r.step)
    ensures Targets(img, base, r, off) == [t] + Targets(img, base, r, off + r.step)
  {
    hide WordAt, TargetOf;
  }

  lemma WordsOfPart(img: Img, all: seq<int>, part: seq<int>, rest: seq<int>)
    requires AllWords(img, all) && part + rest == all
    ensures AllWords(img, part)
  {
    hide HasWord;
    forall i | 0 <= i < |part|
      ensures HasWord(img, part[i])
    {
      assert all[i] == part[i];
    }
  }

  lemma RelocateOneMore(img: Img, done: seq<int>, t: int, base: int)
    requires AllWords(img, done) && AllWords(img, done + [t])
    ensures HasWord(RelocateAll(img, done, base), t)
    ensures RelocateAll(img, done + [t], base) == Relocate(RelocateAll(img, done, base), t, base)
  {
    hide WordAt, Relocate;
    assert (done + [t])[..|done|] == done;
    assert (done + [t])[|done|] == t;
  }

  lemma ApartNext(all: seq<int>, r: RelTable, off: int)
    requires r.step > 0 && off < r.size && ApartAll(all, r, off)
    ensures ApartAll(all, r, off + r.step)
  {
    forall i | 0 <= i < |all|
      ensures ApartFrom(all[i], r, off + r.step)
    {
      assert ApartFrom(all[i], r, off);
    }
  }

  /** The pages of the next segment are in user space and still clear. */
  lemma SegmentReady(img: Img, data: seq<Byte>, i: int, n: nat)
    requires |data| >= EHDR_SIZE && Loadable(img, data, n) && 0 <= i < PhNum(data) && IsLoad(data, i)
    ensures Clear(Loaded(img, data, i), data, i)
    ensures USER_LOW <= SegStart(data, i) <= SegEnd(data, i) <= USER_HIGH
    ensures SegStart(data, i) % PAGE == 0 && SegEnd(data, i) % PAGE == 0
  {
    hide Loaded, Clear, U32, U16, Relocatable;
    LoadedClear(img, data, i, i);
    RoundFacts(SegAt(data, i), USER_LOW);
    RoundFacts(SegAt(data, i) + Ph(data, i).memsz, USER_LOW);
    RoundUpMonotone(SegAt(data, i) + Ph(data, i).memsz, USER_HIGH);
  }

  /** The file part of a segment falls on its pages. */
  lemma SegmentFits(img: Img, data: seq<Byte>, i: int)
    requires HeadersFit(data) && 0 <= i < PhNum(data) && SegmentOk(data, i)
    ensures forall va {:trigger va in img + Zeros(SegStart(data, i), SegEnd(data, i))} ::
      SegAt(data, i) <= va < SegAt(data, i) + |FileBytes(data, i)| ==>
        va in img + Zeros(SegStart(data, i), SegEnd(data, i))
  {
    hide U32, U16;
    RoundFacts(SegAt(data, i), 0);
    RoundFacts(SegAt(data, i) + Ph(data, i).memsz, 0);
  }

  /** The words a completed load has relocated. */
  ghost function ProgramTargets(img: Img, data: seq<Byte>, n: nat): (ts: seq<int>)
    requires |data| >= EHDR_SIZE && Loadable(img, data, n)
    ensures AllWords(Loaded(img, data, PhNum(data)), ts) && Separate(ts)
    ensures Program(img, data, n) == RelocateAll(Loaded(img, data, PhNum(data)), ts, Base(data))
  {
    var now, dyn := Loaded(img, data, PhNum(data)), DynAt(data, PhNum(data));
    if dyn == 0 then [] else Targets(now, Base(data), RelOf(now, dyn, n, Base(data)), 0)
  }

  /** Image exactness: on the pages of every loadable segment a completed load leaves the file's bytes, zeros beyond
      them, and the base added once to each word a relative relocation names. */
  lemma ProgramExact(img: Img, data: seq<Byte>, n: nat, i: int, va: int)
    requires |data| >= EHDR_SIZE && Loadable(img, data, n)
    requires 0 <= i < PhNum(data) && IsLoad(data, i) && SegStart(data, i) <= va < SegEnd(data, i)
    ensures va in Program(img, data, n)
    ensures Outside(va, ProgramTargets(img, data, n)) ==>
      Program(img, data, n)[va] ==
        if SegAt(data, i) <= va < SegAt(data, i) + Ph(data, i).filesz
        then data[Ph(data, i).offset + va - SegAt(data, i)] else 0
  {
    hide Loaded, SegStart, SegEnd, Program, Relocatable, Clear, Outside, U32;
    LoadedAt(img, data, PhNum(data), i, va);
    var ts := ProgramTargets(img, data, n);
    if Outside(va, ts) {
      RelocatedByte(Loaded(img, data, PhNum(data)), ts, Base(data), va);
    }
  }

  lemma ProgramRelocated(img: Img, data: seq<Byte>, n: nat, j: int)
    requires |data| >= EHDR_SIZE && Loadable(img, data, n) && 0 <= j < |ProgramTargets(img, data, n)|
    ensures var t := ProgramTargets(img, data, n)[j];
      var before := Loaded(img, data, PhNum(data));
      && HasWord(before, t) && HasWord(Program(img, data, n), t)
      && WordAt(Program(img, data, n), t) == (WordAt(before, t) + Base(data)) % WORD
  {
    hide *;
    LoadableParts(img, data, n);
    RelocatedWord(Loaded(img, data, PhNum(data)), ProgramTargets(img, data, n), Base(data), j);
  }

  lemma {:induction false} LoadedBelow(img: Img, data: seq<Byte>, k: int)
    requires HeadersFit(data) && SegmentsOk(data) && 0 <= k <= PhNum(data)
    requires forall va {:trigger va in img} :: va in img ==> va < USER_HIGH
    ensures forall va {:trigger va in Loaded(img, data, k)} :: va in Loaded(img, data, k) ==> va < USER_HIGH
    decreases k
  {
    hide SegImage, SegEnd, SegStart, SegmentOk, U32, Ph;
    if k > 0 {
      LoadedBelow(img, data, k - 1);
      if IsLoad(data, k - 1) {
        SegBelow(data, k - 1);
      }
    }
  }

  lemma SegBelow(data: seq<Byte>, i: int)
    requires HeadersFit(data) && 0 <= i < PhNum(data) && SegmentOk(data, i)
    ensures forall va {:trigger va in SegImage(data, i)} :: va in SegImage(data, i) ==> va < USER_HIGH
  {
    hide U32, U16;
    SegImageKeys(data, i);
    RoundUpMonotone(SegAt(data, i) + Ph(data, i).memsz, USER_HIGH);
  }

  lemma ProgramBelow(data: seq<Byte>, n: nat)
    requires |data| >= EHDR_SIZE && Loadable(map[], data, n)
    ensures forall va {:trigger va in Program(map[], data, n)} :: va in Program(map[], data, n) ==> va < USER_HIGH
  {
    hide Loaded, RelocateAll, Program, SegmentsOk, Relocatable, PageDisjoint;
    LoadedBelow(map[], data, PhNum(data));
    var ts := ProgramTargets(map[], data, n);
    assert Program(map[], data, n).Keys == Loaded(map[], data, PhNum(data)).Keys;
  }
}
