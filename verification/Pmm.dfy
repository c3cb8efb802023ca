/** The physical frame allocator: one bit a frame, and a hint below which every frame is used
    (kernel/arch/i386/pmm.c). */
module Pmm {
  import opened Arith
  import opened Bits

  /** One entry of the boot loader's memory map. */
  datatype Region = Region(base: nat, len: nat, available: bool)

  /** A range of bytes [start, end) that must never be handed out. */
  datatype Range = Range(start: nat, end: nat)

  const LOW_MEMORY: nat := 0x10_0000
  const MODULE_SIZE: nat := 16

  /** The frames a memory-map entry frees: one for every page-sized step from its base. */
  ghost predicate Covers(r: Region, f: nat)
  {
    r.available && r.base / PAGE <= f && r.base + (f - r.base / PAGE) * PAGE < r.base + r.len
  }

  ghost predicate Available(regions: seq<Region>, f: nat)
  {
    exists i :: 0 <= i < |regions| && Covers(regions[i], f)
  }

  /** Some byte of frame f lies in the range. */
  ghost predicate Touches(r: Range, f: nat)
  {
    r.start / PAGE <= f <= (r.end - 1) / PAGE
  }

  ghost predicate Reserved(ranges: seq<Range>, f: nat)
  {
    exists i :: 0 <= i < |ranges| && Touches(ranges[i], f)
  }

  predicate InFrame(a: nat, f: nat)
  {
    f * PAGE <= a < (f + 1) * PAGE
  }

  /** Touching is sharing a byte. */
  lemma TouchesIff(r: Range, f: nat)
    requires r.start < r.end
    ensures Touches(r, f) <==> exists a :: r.start <= a < r.end && InFrame(a, f)
  {
    var first, last := r.start / PAGE, (r.end - 1) / PAGE;
    if Touches(r, f) {
      var a := if f * PAGE >= r.start then f * PAGE else r.start;
      assert r.start <= a < r.end && InFrame(a, f);
    }
  }

  /** Every frame a memory-map entry frees lies wholly inside it exactly when its base and length are page-aligned. */
  lemma WholeFramesIff(r: Region)
    requires r.available && r.len > 0
    ensures (forall f: nat {:trigger Covers(r, f)} :: Covers(r, f) ==>
      r.base <= f * PAGE && (f + 1) * PAGE <= r.base + r.len)
      <==> r.base % PAGE == 0 && r.len % PAGE == 0
  {
    var first := r.base / PAGE;
    var last := first + (r.len - 1) / PAGE;
    assert Covers(r, first);
    assert Covers(r, last);
  }

  /** The usual first entry, 639 KiB from address 0 on, is not page-aligned: its last frame reaches past its end. */
  lemma FrameSticksOut()
    ensures var r := Region(0, 0x9_FC00, true);
      Covers(r, 0x9F) && (0x9F + 1) * PAGE > r.base + r.len
  {
  }

  function Highest(regions: seq<Region>): nat
  {
    if regions == [] then 0
    else
      var rest := Highest(regions[..|regions| - 1]);
      var r := regions[|regions| - 1];
      if r.available && r.base + r.len > rest then r.base + r.len else rest
  }

  lemma {:induction false} HighestBounds(regions: seq<Region>, i: nat)
    requires i < |regions| && regions[i].available
    ensures regions[i].base + regions[i].len <= Highest(regions)
  {
    if i < |regions| - 1 {
      HighestBounds(regions[..|regions| - 1], i);
    }
  }

  /** Everything pass 3 reserves: low memory, the kernel and its bitmap, and what the boot loader brought. */
  function Ranges(kernelStart: nat, bitmapEnd: nat, modules: seq<Range>, descriptors: nat): seq<Range>
  {
    [Range(0, LOW_MEMORY), Range(kernelStart, bitmapEnd)] +
    (if modules == [] then [] else modules + [Range(descriptors, descriptors + |modules| * MODULE_SIZE)])
  }

  function BitmapEnd(kernelEnd: nat, top: nat): nat
  {
    kernelEnd + (top / PAGE + 7) / 8
  }

  /** What there is to reserve lies in memory the bitmap covers. */
  ghost predicate InMemory(ranges: seq<Range>, top: nat)
  {
    forall i :: 0 <= i < |ranges| ==>
      ranges[i].start < ranges[i].end && (ranges[i].end - 1) / PAGE <= top / PAGE
  }

  ghost function Covered(r: Region, total: nat): set<nat>
  {
    set f: nat | f < total && Covers(r, f)
  }

  ghost function AvailableIn(regions: seq<Region>, total: nat): set<nat>
  {
    set f: nat | f < total && Available(regions, f)
  }

  lemma AvailableGrows(regions: seq<Region>, i: nat, total: nat)
    requires i < |regions|
    ensures AvailableIn(regions[..i + 1], total) == AvailableIn(regions[..i], total) + Covered(regions[i], total)
  {
    forall f: nat
      ensures Available(regions[..i + 1], f) <==> Available(regions[..i], f) || Covers(regions[i], f)
    {
      if Available(regions[..i + 1], f) {
        var j :| 0 <= j < i + 1 && Covers(regions[..i + 1][j], f);
        assert j < i ==> regions[..i][j] == regions[j];
      }
      if Available(regions[..i], f) {
        var j :| 0 <= j < i && Covers(regions[..i][j], f);
        assert regions[..i + 1][j] == regions[j];
      }
      assert regions[..i + 1][i] == regions[i];
    }
  }

  lemma ReservedGrows(ranges: seq<Range>, i: nat, total: nat, f: nat)
    requires i < |ranges|
    ensures Reserved(ranges[..i + 1], f) <==> Reserved(ranges[..i], f) || Touches(ranges[i], f)
  {
    if Reserved(ranges[..i + 1], f) {
      var j :| 0 <= j < i + 1 && Touches(ranges[..i + 1][j], f);
      assert j < i ==> ranges[..i][j] == ranges[j];
    }
    if Reserved(ranges[..i], f) {
      var j :| 0 <= j < i && Touches(ranges[..i][j], f);
      assert ranges[..i + 1][j] == ranges[j];
    }
    assert ranges[..i + 1][i] == ranges[i];
  }

  // ---- what is free after pmm_initialize, byte by byte ------------------------------------------------------------

  /** Frame f holds a byte of [start, end). */
  ghost predicate Holds(f: nat, start: nat, end: nat)
  {
    exists a: nat :: start <= a < end && InFrame(a, f)
  }

  /** Going through an available entry in steps of a page from its base, one comes to an address in frame f. */
  ghost predicate Offered(regions: seq<Region>, f: nat)
  {
    exists i, k: nat :: 0 <= i < |regions| && StepsTo(regions[i], k, f)
  }

  predicate StepsTo(r: Region, k: nat, f: nat)
  {
    r.available && k * 4096 < r.len && InFrame(r.base + k * 4096, f)
  }

  /** Frame f holds no byte that is in use: of the first MiB, of the kernel and the bitmap behind it (one bit a frame),
      of what the boot loader brought, or of the list of it. */
  ghost predicate Unused(f: nat, frames: nat, kernelStart: nat, kernelEnd: nat, modules: seq<Range>, descriptors: nat)
  {
    && !Holds(f, 0, 0x10_0000) && !Holds(f, kernelStart, kernelEnd + (frames + 7) / 8)
    && (forall i {:trigger modules[i]} :: 0 <= i < |modules| ==> !Holds(f, modules[i].start, modules[i].end))
    && (modules != [] ==> !Holds(f, descriptors, descriptors + 16 * |modules|))
  }

  /** The frames below the end of the highest available entry. */
  ghost predicate TopFrames(regions: seq<Region>, frames: nat)
  {
    && (forall i :: 0 <= i < |regions| && regions[i].available ==> (regions[i].base + regions[i].len) / 4096 <= frames)
    && (frames != 0 ==>
          exists i :: 0 <= i < |regions| && regions[i].available && frames == (regions[i].base + regions[i].len) / 4096)
  }

  lemma OfferedIff(regions: seq<Region>, f: nat)
    ensures Offered(regions, f) <==> Available(regions, f)
  {
    forall i | 0 <= i < |regions|
      ensures Covers(regions[i], f) <==> exists k: nat :: StepsTo(regions[i], k, f)
    {
      CoversIff(regions[i], f);
    }
  }

  lemma CoversIff(r: Region, f: nat)
    ensures Covers(r, f) <==> exists k: nat :: StepsTo(r, k, f)
  {
    forall k: nat | StepsTo(r, k, f)
      ensures Covers(r, f)
    {
      assert f == r.base / PAGE + k;
    }
    if Covers(r, f) {
      StepFrame(r.base, f);
      assert StepsTo(r, f - r.base / PAGE, f);
    }
  }

  lemma HoldsIff(r: Range, f: nat)
    requires r.start < r.end
    ensures Holds(f, r.start, r.end) <==> Touches(r, f)
  {
    TouchesIff(r, f);
  }

  lemma UnusedIff(f: nat, frames: nat, top: nat, kernelStart: nat, kernelEnd: nat, modules: seq<Range>,
                  descriptors: nat)
    requires frames == top / PAGE && InMemory(Ranges(kernelStart, BitmapEnd(kernelEnd, top), modules, descriptors), top)
    ensures Unused(f, frames, kernelStart, kernelEnd, modules, descriptors) <==>
      !Reserved(Ranges(kernelStart, BitmapEnd(kernelEnd, top), modules, descriptors), f)
  {
    hide Touches, Holds;
    var ranges := Ranges(kernelStart, BitmapEnd(kernelEnd, top), modules, descriptors);
    forall i | 0 <= i < |ranges|
      ensures Holds(f, ranges[i].start, ranges[i].end) <==> Touches(ranges[i], f)
    {
      HoldsIff(ranges[i], f);
    }
    forall i | 0 <= i < |modules|
      ensures ranges[i + 2] == modules[i]
    {
    }
    assert modules != [] ==> ranges[|modules| + 2] == Range(descriptors, descriptors + |modules| * MODULE_SIZE);
    if Unused(f, frames, kernelStart, kernelEnd, modules, descriptors) {
      forall i | 0 <= i < |ranges|
        ensures !Touches(ranges[i], f)
      {
        assert 2 <= i < |modules| + 2 ==> ranges[i] == modules[i - 2];
      }
    } else if i :| 0 <= i < |modules| && Holds(f, modules[i].start, modules[i].end) {
      assert Touches(ranges[i + 2], f);
    } else if modules != [] && Holds(f, descriptors, descriptors + 16 * |modules|) {
      assert Touches(ranges[|modules| + 2], f);
    } else {
      assert Touches(ranges[0], f) || Touches(ranges[1], f);
    }
  }

  lemma {:induction false} TopIs(regions: seq<Region>)
    ensures TopFrames(regions, Highest(regions) / PAGE)
  {
    forall i | 0 <= i < |regions| && regions[i].available
      ensures (regions[i].base + regions[i].len) / 4096 <= Highest(regions) / PAGE
    {
      HighestBounds(regions, i);
    }
    HighestReached(regions);
  }

  lemma {:induction false} HighestReached(regions: seq<Region>)
    ensures Highest(regions) != 0 ==>
      exists i :: 0 <= i < |regions| && regions[i].available && Highest(regions) == regions[i].base + regions[i].len
  {
    if regions != [] {
      HighestReached(regions[..|regions| - 1]);
    }
  }

  /** Pass 1 of pmm_initialize. */
  method TopOfMemory(regions: seq<Region>) returns (highest: nat)
    ensures highest == Highest(regions)
  {
    highest := 0;
    for i := 0 to |regions|
      invariant highest == Highest(regions[..i])
    {
      assert regions[..i + 1][..i] == regions[..i];
      var r := regions[i];
      if r.available {
        var top := r.base + r.len;
        if top > highest {
          highest := top;
        }
      }
    }
    assert regions[..|regions|] == regions;
  }

  class FrameAllocator {
    const bitmap: array<bv32>
    const totalFrames: nat
    var lastAlloc: nat
    ghost var free: set<nat>

    ghost predicate Valid()
      reads this, bitmap
    {
      && BitsAgree()
      && 0 !in free
      && (forall f :: f in free ==> lastAlloc <= f)
    }

    /** The abstract free set is what the bits say. */
    ghost predicate BitsAgree()
      reads this, bitmap
    {
      && totalFrames < 32 * bitmap.Length
      && (forall f :: f in free ==> 0 <= f < totalFrames)
      && (forall f {:trigger f in free} :: 0 <= f < totalFrames ==> (f in free <==> !Used(f)))
    }

    predicate Used(f: nat)
      requires f < 32 * bitmap.Length
      reads bitmap
    {
      Test(bitmap[f / 32], f % 32)
    }

    method FrameSet(f: nat)
      requires f <= totalFrames && BitsAgree()
      modifies bitmap, `free
      ensures BitsAgree() && free == old(free) - {f}
    {
      hide Test, Set, Clear;
      bitmap[f / 32] := Set(bitmap[f / 32], f % 32);
      forall g: nat | g < totalFrames
        ensures Used(g) <==> g == f || old(Used(g))
      {
        if g / 32 == f / 32 {
          SetAndClear(old(bitmap[f / 32]), f % 32, g % 32);
        }
      }
      free := free - {f};
    }

    method FrameClear(f: nat)
      requires f <= totalFrames && BitsAgree()
      modifies bitmap, `free
      ensures BitsAgree() && free == old(free) + (if f < totalFrames then {f} else {})
    {
      hide Test, Set, Clear;
      bitmap[f / 32] := Clear(bitmap[f / 32], f % 32);
      forall g: nat | g < totalFrames
        ensures Used(g) <==> g != f && old(Used(g))
      {
        if g / 32 == f / 32 {
          SetAndClear(old(bitmap[f / 32]), f % 32, g % 32);
        }
      }
      free := free + (if f < totalFrames then {f} else {});
    }

    /** pmm_initialize: free is exactly what the memory map offers and nothing that is in use already. The memory map
        describes 32-bit addresses, and the top page of the address space is not offered. */
    constructor (regions: seq<Region>, kernelStart: nat, kernelEnd: nat, modules: seq<Range>, descriptors: nat)
      requires forall i :: 0 <= i < |regions| ==> regions[i].base + regions[i].len <= 0xFFFF_F000
      requires InMemory(Ranges(kernelStart, BitmapEnd(kernelEnd, Highest(regions)), modules, descriptors),
        Highest(regions))
      ensures Valid() && fresh(bitmap) && totalFrames == Highest(regions) / PAGE && TopFrames(regions, totalFrames)
      ensures forall f: nat :: f in free <==>
        && f < totalFrames && Offered(regions, f)
        && Unused(f, totalFrames, kernelStart, kernelEnd, modules, descriptors)
    {
      hide Test, Set, Clear, Covers, Touches, Available, Reserved, Highest, TopFrames, Offered, Unused;
      var highest := TopOfMemory(regions);
      totalFrames := highest / PAGE;
      bitmap := new bv32[highest / PAGE / 32 + 1](_ => 0xFFFF_FFFF);
      lastAlloc, free := 0, {};
      new;
      AllUsed();
      NothingAvailable(regions, totalFrames);
      for i := 0 to |regions|
        invariant BitsAgree() && free == AvailableIn(regions[..i], totalFrames) && lastAlloc == 0
      {
        AvailableGrows(regions, i, totalFrames);
        if regions[i].available {
          HighestBounds(regions, i);
          FreeRegion(regions[i]);
        } else {
          NotCovered(regions[i], totalFrames);
        }
      }
      assert regions[..|regions|] == regions;
      var ranges := Ranges(kernelStart, BitmapEnd(kernelEnd, highest), modules, descriptors);
      NothingReserved(ranges);
      for i := 0 to |ranges|
        invariant BitsAgree() && lastAlloc == 0
        invariant forall f: nat :: f in free <==> f < totalFrames && Available(regions, f) && !Reserved(ranges[..i], f)
      {
        forall f: nat
          ensures Reserved(ranges[..i + 1], f) <==> Reserved(ranges[..i], f) || Touches(ranges[i], f)
        {
          ReservedGrows(ranges, i, totalFrames, f);
        }
        ReserveRange(ranges[i]);
      }
      assert ranges[..|ranges|] == ranges;
      FirstReserved(ranges);
      TopIs(regions);
      forall f: nat
        ensures Offered(regions, f) <==> Available(regions, f)
        ensures Unused(f, totalFrames, kernelStart, kernelEnd, modules, descriptors) <==> !Reserved(ranges, f)
      {
        OfferedIff(regions, f);
        UnusedIff(f, totalFrames, highest, kernelStart, kernelEnd, modules, descriptors);
      }
    }

    lemma AllUsed()
      requires totalFrames < 32 * bitmap.Length && free == {} && forall k :: 0 <= k < bitmap.Length ==>
        bitmap[k] == 0xFFFF_FFFF
      ensures BitsAgree()
    {
      hide Test;
      forall f: nat | f < totalFrames
        ensures Used(f)
      {
        AllOnes(f % 32);
      }
    }

    /** `for (a = base; a < base + len; a += PAGE) frame_clear(a / PAGE)` */
    method FreeRegion(r: Region)
      requires BitsAgree() && r.available && (r.len > 0 ==> (r.base + r.len - 1) / PAGE <= totalFrames)
      modifies bitmap, `free
      ensures BitsAgree() && free == old(free) + Covered(r, totalFrames)
    {
      hide Test, Set, Clear;
      var a := r.base;
      ghost var f := r.base / PAGE;
      while a < r.base + r.len
        invariant f >= r.base / PAGE && a == r.base + (f - r.base / PAGE) * PAGE
        invariant BitsAgree()
        invariant free == old(free) + set g: nat | g < f && g in Covered(r, totalFrames)
        decreases r.base + r.len - a
      {
        StepFrame(r.base, f);
        assert a / PAGE == f && Covers(r, f);
        FrameBound(a, r.base + r.len, totalFrames);
        FrameClear(a / PAGE);
        a, f := a + PAGE, f + 1;
      }
      forall g | g in Covered(r, totalFrames)
        ensures g < f
      {
      }
    }

    /** `for (f = start / PAGE; f <= (end - 1) / PAGE; f++) frame_set(f)` */
    method ReserveRange(r: Range)
      requires BitsAgree() && r.start < r.end && (r.end - 1) / PAGE <= totalFrames
      modifies bitmap, `free
      ensures BitsAgree() && forall g :: g in free <==> g in old(free) && !Touches(r, g)
    {
      hide Test, Set, Clear;
      var f := r.start / PAGE;
      while f <= (r.end - 1) / PAGE
        invariant r.start / PAGE <= f && BitsAgree()
        invariant forall g :: g in free <==> g in old(free) && !(r.start / PAGE <= g < f)
        invariant f <= (r.end - 1) / PAGE + 1 || f == r.start / PAGE
        decreases (r.end - 1) / PAGE + 1 - f
      {
        FrameSet(f);
        f := f + 1;
      }
    }

    /** Hand out the lowest free frame; 0 means there is none. */
    method AllocFrame() returns (addr: nat)
      requires Valid()
      modifies this, bitmap
      ensures Valid()
      ensures addr == 0 <==> old(free) == {}
      ensures addr == 0 ==> free == old(free)
      ensures addr != 0 ==>
        && addr % PAGE == 0
        && addr / PAGE in old(free)
        && (forall f :: f in old(free) ==> addr / PAGE <= f)
        && free == old(free) - {addr / PAGE}
    {
      hide Test, Set, Clear;
      var i := lastAlloc;
      while i < totalFrames
        invariant lastAlloc <= i
        invariant forall f :: f in free ==> i <= f
        decreases totalFrames - i
      {
        if !Used(i) {
          assert i in free;
          FrameSet(i);
          lastAlloc := i;
          return i * PAGE;
        }
        i := i + 1;
      }

      // The wrap-around scan of the source: it never finds a frame.
      i := 0;
      while i < lastAlloc && i < totalFrames
        invariant free == {}
      {
        assert i !in free;
        assert Used(i);
        i := i + 1;
      }
      return 0;
    }

    method FreeFrame(addr: nat)
      requires Valid() && 0 < addr / PAGE < totalFrames
      modifies this, bitmap
      ensures Valid() && free == old(free) + {addr / PAGE}
    {
      var frame := addr / PAGE;
      FrameClear(frame);
      if frame < lastAlloc {
        lastAlloc := frame;
      }
    }

    method FreeFrameCount() returns (count: nat)
      requires Valid()
      ensures count == |free|
    {
      hide Test, Set, Clear;
      count := 0;
      ghost var seen: set<nat> := {};
      for i := 0 to totalFrames
        invariant seen == set f | f in free && f < i
        invariant count == |seen|
      {
        if !Used(i) {
          count := count + 1;
          seen := seen + {i};
        }
      }
      assert seen == free;
    }
  }

  lemma StepFrame(base: nat, f: nat)
    requires f >= base / PAGE
    ensures (base + (f - base / PAGE) * PAGE) / PAGE == f
  {
  }

  lemma FrameBound(a: nat, end: nat, total: nat)
    requires a < end && (end - 1) / PAGE <= total
    ensures a / PAGE <= total
  {
  }

  lemma NothingAvailable(regions: seq<Region>, total: nat)
    ensures AvailableIn(regions[..0], total) == {}
  {
  }

  lemma NotCovered(r: Region, total: nat)
    requires !r.available
    ensures Covered(r, total) == {}
  {
  }

  lemma NothingReserved(ranges: seq<Range>)
    ensures forall f: nat :: !Reserved(ranges[..0], f)
  {
  }

  lemma FirstReserved(ranges: seq<Range>)
    requires |ranges| > 0 && ranges[0] == Range(0, LOW_MEMORY)
    ensures Reserved(ranges, 0)
  {
    assert Touches(ranges[0], 0);
  }
}
