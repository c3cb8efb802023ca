/** 32-bit virtual addresses, the two-level walk, and the windows through which the kernel reaches
    directories, tables and scratch frames (Intel SDM Vol. 3A, section 4.3; kernel/include/kernel/paging.h). */
module Address {
  import opened Arith
  import opened Words
  import opened Paging

  /** Frame numbers and frame addresses. */
  lemma FrameAddress(f: int)
    ensures f * PAGE / PAGE == f && f * PAGE % PAGE == 0
    ensures f != 0 ==> f * PAGE != 0
  {
  }

  lemma AddressFrame(a: int)
    requires a % PAGE == 0
    ensures a / PAGE * PAGE == a
  {
  }
  const NO_PHYS := 0xFFFF_FFFF

  const PD_VIRT := 0xFFFF_F000
  const PT_VIRT := 0xFFC0_0000
  const TMP_VIRT := 0xFFBF_F000
  const TMP2_VIRT := 0xFFBF_E000

  const TMP_SLOT := 1023
  const TMP2_SLOT := 1022

  function DirOf(va: int): int
  {
    va / 0x40_0000
  }

  function TableOf(va: int): int
  {
    va / 0x1000 % 1024
  }

  function WordOf(va: int): int
  {
    va / 4 % 1024
  }

  /** The entry the hardware walk of va ends at, starting from the directory in frame cr3. */
  function WalkEntry(mem: seq<Page>, cr3: int, va: int): Word
  {
    Pte(mem, cr3, DirOf(va), TableOf(va))
  }

  predicate Mapped(mem: seq<Page>, cr3: int, va: int)
  {
    WalkEntry(mem, cr3, va).present && WalkEntry(mem, cr3, va).frame < |mem|
  }

  function FrameAt(mem: seq<Page>, cr3: int, va: int): int
  {
    WalkEntry(mem, cr3, va).frame
  }

  lemma PageAddress(d: int, t: int, o: int)
    requires Slot(d) && Slot(t) && 0 <= o < PAGE
    ensures var va := d * 0x40_0000 + t * 0x1000 + o;
      0 <= va < WORD && DirOf(va) == d && TableOf(va) == t && WordOf(va) == o / 4 && va % 4 == o % 4
  {
    var va := d * 0x40_0000 + t * 0x1000 + o;
    Quotient(va, 0x40_0000, d, t * 0x1000 + o);
    Quotient(va, 0x1000, d * 1024 + t, o);
    Quotient(d * 1024 + t, 1024, d, t);
    var w := o / 4;
    Quotient(va, 4, (d * 1024 + t) * 1024 + w, o - w * 4);
    Quotient((d * 1024 + t) * 1024 + w, 1024, d * 1024 + t, w);
  }

  lemma AddressParts(va: int)
    requires 0 <= va < WORD
    ensures Slot(DirOf(va)) && Slot(TableOf(va)) && Slot(WordOf(va))
    ensures va == DirOf(va) * 0x40_0000 + TableOf(va) * 0x1000 + WordOf(va) * 4 + va % 4
  {
    var p, w := va / 0x1000, va / 4;
    Quotient(p, 1024, p / 1024, p % 1024);
    Quotient(va, 0x40_0000, p / 1024, va - p / 1024 * 0x40_0000);
    Quotient(w, 1024, w / 1024, w % 1024);
    Quotient(va, 0x1000, w / 1024, va - w / 1024 * 0x1000);
  }

  /** The i-th word of the page at a page-aligned address. */
  lemma WordAddress(va: int, i: int)
    requires 0 <= va < WORD && va % PAGE == 0 && Slot(i)
    ensures 0 <= va + 4 * i < WORD
    ensures DirOf(va + 4 * i) == DirOf(va) && TableOf(va + 4 * i) == TableOf(va) && WordOf(va + 4 * i) == i
  {
    AddressParts(va);
    PageAddress(DirOf(va), TableOf(va), 0);
    assert WordOf(va) * 4 + va % 4 == 0 by {
      Quotient(va, 0x1000, DirOf(va) * 1024 + TableOf(va), WordOf(va) * 4 + va % 4);
    }
    PageAddress(DirOf(va), TableOf(va), 4 * i);
  }

  /** The walk of PD_VIRT + 4d ends at word d of the current directory. */
  lemma DirectoryWindow(mem: seq<Page>, cr3: int, d: int)
    requires 0 <= cr3 < |mem| <= 0x10_0000 && Slot(d) && Pde(mem, cr3, WINDOW) == WindowEntry(cr3)
    ensures Mapped(mem, cr3, PD_VIRT + 4 * d)
    ensures FrameAt(mem, cr3, PD_VIRT + 4 * d) == cr3 && WordOf(PD_VIRT + 4 * d) == d
  {
    PageAddress(WINDOW, 1023, 4 * d);
  }

  /** The walk of PT_VIRT(d) + 4t ends at word t of the table behind entry d. */
  lemma TableWindow(mem: seq<Page>, cr3: int, d: int, t: int)
    requires 0 <= cr3 < |mem| <= 0x10_0000 && Slot(d) && Slot(t) && Pde(mem, cr3, WINDOW) == WindowEntry(cr3)
    requires Pde(mem, cr3, d).present && Pde(mem, cr3, d).frame < |mem|
    ensures Mapped(mem, cr3, PT_VIRT + 0x1000 * d + 4 * t)
    ensures FrameAt(mem, cr3, PT_VIRT + 0x1000 * d + 4 * t) == Pde(mem, cr3, d).frame
    ensures WordOf(PT_VIRT + 0x1000 * d + 4 * t) == t
  {
    PageAddress(WINDOW, d, 4 * t);
    assert WalkEntry(mem, cr3, PT_VIRT + 0x1000 * d + 4 * t) == Pde(mem, cr3, d);
  }

  lemma ScratchAddresses()
    ensures DirOf(TMP_VIRT) == TMP_DIR && TableOf(TMP_VIRT) == TMP_SLOT
    ensures DirOf(TMP2_VIRT) == TMP_DIR && TableOf(TMP2_VIRT) == TMP2_SLOT
  {
  }
}
