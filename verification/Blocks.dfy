/** The block list of the user heap on values: what malloc and free make of it (libc/stdlib/malloc.c). */
module Blocks {
  import opened Arith

  const HDR := 12

  /** A header address, the payload bytes behind the header, and whether the block is free. */
  datatype Block = Block(addr: int, size: int, free: bool)

  function End(b: Block): int
  {
    b.addr + HDR + b.size
  }

  /** The blocks lie in address order and cover [start, brk) exactly, each payload at least 8 bytes. */
  ghost predicate Tiled(blocks: seq<Block>, start: int, brk: int)
  {
    && (forall k {:trigger blocks[k]} :: 0 <= k < |blocks| ==>
          blocks[k].size >= 8 && End(blocks[k]) == if k + 1 < |blocks| then blocks[k + 1].addr else brk)
    && (if blocks == [] then start == brk else blocks[0].addr == start)
  }

  /** Where a block starts, in terms of the ones before it. */
  lemma {:induction false} TiledBounds(blocks: seq<Block>, start: int, brk: int, k: int)
    requires Tiled(blocks, start, brk) && 0 <= k < |blocks|
    ensures start <= blocks[k].addr && blocks[k].addr >= start + 20 * k
    decreases k
  {
    if k > 0 {
      TiledBounds(blocks, start, brk, k - 1);
      assert End(blocks[k - 1]) == blocks[k].addr;
    }
  }

  lemma {:induction false} TiledOrder(blocks: seq<Block>, start: int, brk: int, j: int, k: int)
    requires Tiled(blocks, start, brk) && 0 <= j < k < |blocks|
    ensures End(blocks[j]) <= blocks[k].addr
    decreases k - j
  {
    assert End(blocks[j]) == blocks[j + 1].addr;
    if j + 1 < k {
      TiledOrder(blocks, start, brk, j + 1, k);
      assert blocks[j + 1].size >= 8;
    }
  }

  lemma {:induction false} TiledEnd(blocks: seq<Block>, start: int, brk: int, k: int)
    requires Tiled(blocks, start, brk) && 0 <= k < |blocks|
    ensures End(blocks[k]) <= brk
    decreases |blocks| - k
  {
    if k + 1 < |blocks| {
      assert End(blocks[k]) == blocks[k + 1].addr;
      TiledEnd(blocks, start, brk, k + 1);
      assert blocks[k + 1].size >= 8;
    }
  }

  predicate Payload(b: Block, va: int)
  {
    b.addr + HDR <= va < b.addr + HDR + b.size
  }

  /** Payloads are pairwise disjoint, and apart from every header. */
  lemma PayloadsApart(blocks: seq<Block>, start: int, brk: int, j: int, k: int, va: int)
    requires Tiled(blocks, start, brk) && 0 <= j < |blocks| && 0 <= k < |blocks| && Payload(blocks[j], va)
    ensures start <= va < brk
    ensures Payload(blocks[k], va) ==> j == k
    ensures !(blocks[k].addr <= va < blocks[k].addr + HDR)
    ensures j != k ==> !(blocks[k].addr <= va < End(blocks[k]))
  {
    TiledBounds(blocks, start, brk, j);
    TiledEnd(blocks, start, brk, j);
    assert blocks[k].size >= 8;
    if j < k {
      TiledOrder(blocks, start, brk, j, k);
    } else if k < j {
      TiledOrder(blocks, start, brk, k, j);
    }
  }

  // ---- malloc -----------------------------------------------------------------------------------------------------

  /** The request rounded up to a multiple of 8, as the 32-bit expression computes it. */
  function Round8(size: int): int
  {
    (size + 7) % WORD / 8 * 8
  }

  /** The rounding covers the request exactly when it does not wrap around. */
  lemma Round8Iff(size: int)
    requires 0 <= size < WORD
    ensures Round8(size) >= size <==> size <= WORD - 8
    ensures size <= WORD - 8 ==> Round8(size) < size + 8 && Round8(size) % 8 == 0
  {
    if size > WORD - 8 {
      assert (size + 7) % WORD == size + 7 - WORD;
    }
  }

  /** The seven largest requests are rounded to 0. */
  lemma Round8Wraps(size: int)
    requires WORD - 8 < size < WORD
    ensures Round8(size) == 0
  {
    assert (size + 7) % WORD == size + 7 - WORD;
  }

  /** The bytes a growth asks sbrk for: whole pages. */
  function Need(size: int): int
  {
    (size + HDR + 0xFFF) / PAGE * PAGE
  }

  lemma NeedCovers(size: int)
    requires 8 <= size
    ensures Need(size) % PAGE == 0 && size + HDR <= Need(size) < size + HDR + PAGE
  {
  }

  /** The first free block that is large enough, or |blocks|. */
  function FirstFit(blocks: seq<Block>, size: int): (k: int)
    ensures 0 <= k <= |blocks|
  {
    if blocks == [] then 0
    else if blocks[0].free && blocks[0].size >= size then 0
    else 1 + FirstFit(blocks[1..], size)
  }

  lemma {:induction false} FirstFitIs(blocks: seq<Block>, size: int, k: int)
    requires 0 <= k <= |blocks| && forall j :: 0 <= j < k ==> !(blocks[j].free && blocks[j].size >= size)
    requires k < |blocks| ==> blocks[k].free && blocks[k].size >= size
    ensures FirstFit(blocks, size) == k
  {
    if k > 0 {
      FirstFitIs(blocks[1..], size, k - 1);
    }
  }

  /** find_free returns the lowest-addressed free block that fits, and none only if none fits. */
  lemma {:induction false} FirstFitLowest(blocks: seq<Block>, size: int, j: int)
    requires 0 <= j < |blocks| && blocks[j].free && blocks[j].size >= size
    ensures FirstFit(blocks, size) <= j
    ensures blocks[FirstFit(blocks, size)].free && blocks[FirstFit(blocks, size)].size >= size
  {
    if !(blocks[0].free && blocks[0].size >= size) {
      FirstFitLowest(blocks[1..], size, j - 1);
    }
  }

  /** `split`: the remainder becomes a free block of its own, if it is worth it. */
  function Split(blocks: seq<Block>, k: int, size: int): seq<Block>
    requires 0 <= k < |blocks|
  {
    var b := blocks[k];
    if b.size < size + HDR + 8 then blocks
    else
      var rest := Block(b.addr + HDR + size, b.size - size - HDR, true);
      blocks[..k] + [Block(b.addr, size, b.free), rest] + blocks[k + 1..]
  }

  function SetFree(blocks: seq<Block>, k: int, free: bool): seq<Block>
    requires 0 <= k < |blocks|
  {
    blocks[k := Block(blocks[k].addr, blocks[k].size, free)]
  }

  /** malloc when block k fits. */
  function Placed(blocks: seq<Block>, k: int, size: int): seq<Block>
    requires 0 <= k < |blocks|
  {
    SetFree(Split(blocks, k, size), k, false)
  }

  /** The list after the break grew by `need` bytes from brk. */
  function Grown(blocks: seq<Block>, brk: int, need: int): seq<Block>
  {
    blocks + [Block(brk, need - HDR, false)]
  }

  lemma SplitKeeps(blocks: seq<Block>, start: int, brk: int, k: int, size: int)
    requires Tiled(blocks, start, brk) && 0 <= k < |blocks| && size >= 8
    ensures Tiled(Split(blocks, k, size), start, brk)
    ensures |Split(blocks, k, size)| > k && Split(blocks, k, size)[k].addr == blocks[k].addr
    ensures blocks[k].size >= size ==> Split(blocks, k, size)[k].size >= size
    ensures Split(blocks, k, size)[k].free == blocks[k].free
    ensures forall j :: 0 <= j < k ==> Split(blocks, k, size)[j] == blocks[j]
  {
    if blocks[k].size >= size + HDR + 8 {
      var n := Split(blocks, k, size);
      SplitAt(blocks, k, size, k);
      SplitAt(blocks, k, size, 0);
      forall j | 0 <= j < |n|
        ensures n[j].size >= 8 && End(n[j]) == if j + 1 < |n| then n[j + 1].addr else brk
        ensures j < k ==> n[j] == blocks[j]
      {
        SplitTile(blocks, start, brk, k, size, j);
      }
    }
  }

  lemma SplitTile(blocks: seq<Block>, start: int, brk: int, k: int, size: int, j: int)
    requires Tiled(blocks, start, brk) && 0 <= k < |blocks| && size >= 8 && 0 <= j <= |blocks|
    requires blocks[k].size >= size + HDR + 8
    ensures var n := Split(blocks, k, size);
      && |n| == |blocks| + 1 && n[j].size >= 8
      && End(n[j]) == (if j + 1 < |n| then n[j + 1].addr else brk)
      && (j < k ==> n[j] == blocks[j])
  {
    hide Split;
    SplitAt(blocks, k, size, j);
    SplitAt(blocks, k, size, j + 1);
    assert j < k ==> End(blocks[j]) == blocks[j + 1].addr;
    assert j > k + 1 ==> End(blocks[j - 1]) == if j < |blocks| then blocks[j].addr else brk;
    assert End(blocks[k]) == if k + 1 < |blocks| then blocks[k + 1].addr else brk;
  }

  lemma SplitAt(blocks: seq<Block>, k: int, size: int, j: int)
    requires 0 <= k < |blocks| && 0 <= j
    requires blocks[k].size >= size + HDR + 8
    ensures |Split(blocks, k, size)| == |blocks| + 1
    ensures j < |blocks| + 1 ==>
      Split(blocks, k, size)[j] ==
        (if j < k then blocks[j]
         else if j == k then Block(blocks[k].addr, size, blocks[k].free)
         else if j == k + 1 then Block(blocks[k].addr + HDR + size, blocks[k].size - size - HDR, true)
         else blocks[j - 1])
  {
  }

  lemma SetFreeKeeps(blocks: seq<Block>, start: int, brk: int, k: int, free: bool)
    requires Tiled(blocks, start, brk) && 0 <= k < |blocks|
    ensures Tiled(SetFree(blocks, k, free), start, brk)
  {
  }

  lemma GrownKeeps(blocks: seq<Block>, start: int, brk: int, need: int)
    requires Tiled(blocks, start, brk) && need >= HDR + 8
    ensures Tiled(Grown(blocks, brk, need), start, brk + need)
  {
    var n := Grown(blocks, brk, need);
    forall j | 0 <= j < |n|
      ensures n[j].size >= 8 && End(n[j]) == if j + 1 < |n| then n[j + 1].addr else brk + need
    {
      assert j < |blocks| ==> n[j] == blocks[j];
    }
  }

  // ---- free -------------------------------------------------------------------------------------------------------

  /** Block k takes in the block behind it. */
  function Merge(blocks: seq<Block>, k: int): seq<Block>
    requires 0 <= k && k + 1 < |blocks|
  {
    blocks[..k] + [Block(blocks[k].addr, blocks[k].size + HDR + blocks[k + 1].size, blocks[k].free)] + blocks[k + 2..]
  }

  /** The loop of free: forward coalescing as long as the next block is free. */
  function Coalesce(blocks: seq<Block>, k: int): (r: seq<Block>)
    requires 0 <= k < |blocks|
    ensures |r| > k
    decreases |blocks|
  {
    if k + 1 < |blocks| && blocks[k + 1].free then Coalesce(Merge(blocks, k), k) else blocks
  }

  function Freed(blocks: seq<Block>, k: int): seq<Block>
    requires 0 <= k < |blocks|
  {
    Coalesce(SetFree(blocks, k, true), k)
  }

  lemma MergeKeeps(blocks: seq<Block>, start: int, brk: int, k: int)
    requires Tiled(blocks, start, brk) && 0 <= k && k + 1 < |blocks|
    ensures Tiled(Merge(blocks, k), start, brk)
  {
    var n := Merge(blocks, k);
    forall j | 0 <= j < |n|
      ensures n[j].size >= 8 && End(n[j]) == if j + 1 < |n| then n[j + 1].addr else brk
    {
      MergeAt(blocks, k, j);
      MergeAt(blocks, k, j + 1);
      assert blocks[k].size >= 8 && blocks[k + 1].size >= 8;
      assert End(blocks[k]) == blocks[k + 1].addr;
      assert j < k ==> End(blocks[j]) == blocks[j + 1].addr;
      assert j >= k ==> End(blocks[j + 1]) == if j + 2 < |blocks| then blocks[j + 2].addr else brk;
    }
  }

  lemma MergeAt(blocks: seq<Block>, k: int, j: int)
    requires 0 <= k && k + 1 < |blocks| && 0 <= j
    ensures |Merge(blocks, k)| == |blocks| - 1
    ensures j < |blocks| - 1 ==>
      Merge(blocks, k)[j] ==
        (if j < k then blocks[j]
         else if j == k then Block(blocks[k].addr, blocks[k].size + HDR + blocks[k + 1].size, blocks[k].free)
         else blocks[j + 1])
  {
  }

  /** Coalescing keeps the tiling, grows only the block freed, leaves what lies before it alone, drops only free
      blocks behind it, and never leaves a free block next to it. */
  lemma {:induction false} CoalesceKeeps(blocks: seq<Block>, start: int, brk: int, k: int)
    requires Tiled(blocks, start, brk) && 0 <= k < |blocks|
    ensures var n := Coalesce(blocks, k);
      && Tiled(n, start, brk)
      && n[k].addr == blocks[k].addr && n[k].size >= blocks[k].size && n[k].free == blocks[k].free
      && n[..k] == blocks[..k]
      && (k + 1 < |n| ==> !n[k + 1].free)
      && (forall b :: b in blocks && !b.free && b != blocks[k] ==> b in n)
      && (forall b :: b in n && !b.free && b != n[k] ==> b in blocks && b != blocks[k])
    decreases |blocks|
  {
    if k + 1 < |blocks| && blocks[k + 1].free {
      MergeKeeps(blocks, start, brk, k);
      MergeAt(blocks, k, k);
      CoalesceKeeps(Merge(blocks, k), start, brk, k);
      forall b | b in Merge(blocks, k) && !b.free && b != Merge(blocks, k)[k]
        ensures b in blocks && b != blocks[k]
      {
        MergedFrom(blocks, start, brk, k, b);
      }
      assert blocks[k + 1].size >= 8;
      assert Merge(blocks, k)[..k] == blocks[..k];
      forall b | b in blocks && !b.free && b != blocks[k]
        ensures b in Coalesce(blocks, k)
      {
        var i :| 0 <= i < |blocks| && blocks[i] == b;
        MergeAt(blocks, k, if i < k then i else i - 1);
        MergedAddr(blocks, start, brk, k, i);
      }
    }
  }

  lemma MergedFrom(blocks: seq<Block>, start: int, brk: int, k: int, b: Block)
    requires Tiled(blocks, start, brk) && 0 <= k && k + 1 < |blocks| && b in Merge(blocks, k)
    requires b != Merge(blocks, k)[k]
    ensures b in blocks && b != blocks[k]
  {
    var i :| 0 <= i < |blocks| - 1 && Merge(blocks, k)[i] == b;
    MergeAt(blocks, k, i);
    var j := if i < k then i else i + 1;
    assert blocks[j] == b;
    assert blocks[j].size >= 8 && blocks[k].size >= 8;
    if j < k {
      TiledOrder(blocks, start, brk, j, k);
    } else {
      TiledOrder(blocks, start, brk, k, j);
    }
  }

  lemma MergedAddr(blocks: seq<Block>, start: int, brk: int, k: int, i: int)
    requires Tiled(blocks, start, brk) && 0 <= k && k + 1 < |blocks| && 0 <= i < |blocks| && i != k && i != k + 1
    ensures blocks[i] in Merge(blocks, k) && blocks[i] != Merge(blocks, k)[k]
  {
    MergeAt(blocks, k, k);
    MergeAt(blocks, k, if i < k then i else i - 1);
    assert blocks[i].size >= 8 && blocks[k].size >= 8;
    if i < k {
      TiledOrder(blocks, start, brk, i, k);
    } else {
      TiledOrder(blocks, start, brk, k, i);
    }
  }

  /** free marks the block, keeps the tiling and every other live block, and the block behind it is not free. */
  lemma FreedKeeps(blocks: seq<Block>, start: int, brk: int, k: int)
    requires Tiled(blocks, start, brk) && 0 <= k < |blocks|
    ensures var n := Freed(blocks, k);
      && Tiled(n, start, brk)
      && |n| > k && n[k].addr == blocks[k].addr && n[k].size >= blocks[k].size && n[k].free
      && n[..k] == blocks[..k]
      && (k + 1 < |n| ==> !n[k + 1].free)
      && (forall b :: b in blocks && !b.free && b != blocks[k] ==> b in n)
      && (forall b :: b in n && !b.free ==> b in blocks && b.addr != blocks[k].addr)
  {
    var m := SetFree(blocks, k, true);
    SetFreeKeeps(blocks, start, brk, k, true);
    CoalesceKeeps(m, start, brk, k);
    assert m[..k] == blocks[..k];
    forall b | b in blocks && !b.free && b != blocks[k]
      ensures b in Freed(blocks, k)
    {
      var i :| 0 <= i < |blocks| && blocks[i] == b;
      assert m[i] == b;
    }
    forall b | b in Freed(blocks, k) && !b.free
      ensures b in blocks && b.addr != blocks[k].addr
    {
      assert b in m && b != m[k];
      var i :| 0 <= i < |m| && m[i] == b;
      assert i != k && blocks[i] == b;
      AddressesApart(blocks, start, brk, i, k);
    }
  }

  lemma AddressesApart(blocks: seq<Block>, start: int, brk: int, i: int, j: int)
    requires Tiled(blocks, start, brk) && 0 <= i < |blocks| && 0 <= j < |blocks| && i != j
    ensures blocks[i].addr != blocks[j].addr
  {
    assert blocks[i].size >= 8 && blocks[j].size >= 8;
    if i < j {
      TiledOrder(blocks, start, brk, i, j);
    } else {
      TiledOrder(blocks, start, brk, j, i);
    }
  }

  // ---- malloc again -----------------------------------------------------------------------------------------------

  /** What malloc leaves: the list it started from or that list grown, with the request placed at index `at`. */
  function Malloced(blocks: seq<Block>, brk: int, size: int): seq<Block>
  {
    var k := FirstFit(blocks, size);
    if k < |blocks| then Placed(blocks, k, size) else Placed(Grown(blocks, brk, Need(size)), k, size)
  }

  function BreakAfter(blocks: seq<Block>, brk: int, size: int): int
  {
    if FirstFit(blocks, size) < |blocks| then brk else brk + Need(size)
  }

  lemma PlacedKeeps(blocks: seq<Block>, start: int, brk: int, k: int, size: int)
    requires Tiled(blocks, start, brk) && 0 <= k < |blocks| && size >= 8 && blocks[k].size >= size
    ensures var n := Placed(blocks, k, size);
      && Tiled(n, start, brk)
      && |n| > k && n[k].addr == blocks[k].addr && n[k].size >= size && !n[k].free
      && n[..k] == blocks[..k]
      && (forall b :: b in blocks && b != blocks[k] ==> b in n)
      && (forall b :: b in n && !b.free && b != n[k] ==> b in blocks)
  {
    hide Tiled;
    SplitKeeps(blocks, start, brk, k, size);
    SetFreeKeeps(Split(blocks, k, size), start, brk, k, false);
    assert Placed(blocks, k, size)[..k] == blocks[..k];
    PlacedHolds(blocks, k, size);
    PlacedFrom(blocks, k, size);
  }

  lemma PlacedHolds(blocks: seq<Block>, k: int, size: int)
    requires 0 <= k < |blocks| && size >= 8 && blocks[k].size >= size && |Split(blocks, k, size)| > k
    ensures forall b :: b in blocks && b != blocks[k] ==> b in Placed(blocks, k, size)
  {
    var n := Placed(blocks, k, size);
    forall b | b in blocks && b != blocks[k]
      ensures b in n
    {
      var i :| 0 <= i < |blocks| && blocks[i] == b;
      if blocks[k].size >= size + HDR + 8 {
        SplitAt(blocks, k, size, if i < k then i else i + 1);
        assert n[if i < k then i else i + 1] == b;
      } else {
        assert n[i] == b;
      }
    }
  }

  lemma PlacedFrom(blocks: seq<Block>, k: int, size: int)
    requires 0 <= k < |blocks| && size >= 8 && blocks[k].size >= size && |Split(blocks, k, size)| > k
    ensures var n := Placed(blocks, k, size); |n| > k && forall b :: b in n && !b.free && b != n[k] ==> b in blocks
  {
    var n := Placed(blocks, k, size);
    forall b | b in n && !b.free && b != n[k]
      ensures b in blocks
    {
      var i :| 0 <= i < |n| && n[i] == b;
      if blocks[k].size >= size + HDR + 8 {
        SplitAt(blocks, k, size, i);
        assert b == blocks[if i < k then i else i - 1];
      } else {
        assert b == blocks[i];
      }
    }
  }

  /** malloc keeps the tiling and every live block, and the block it hands out is large enough. */
  lemma MallocedKeeps(blocks: seq<Block>, start: int, brk: int, size: int)
    requires Tiled(blocks, start, brk) && size >= 8
    ensures var k, n := FirstFit(blocks, size), Malloced(blocks, brk, size);
      && Tiled(n, start, BreakAfter(blocks, brk, size))
      && k < |n| && n[k].size >= size && !n[k].free
      && n[k].addr == (if k < |blocks| then blocks[k].addr else brk)
      && n[..k] == blocks[..k]
      && (forall b :: b in blocks && !b.free ==> b in n)
      && (forall b :: b in n && !b.free && b != n[k] ==> b in blocks)
  {
    hide Tiled, Placed, Grown, FirstFit, Need;
    var k := FirstFit(blocks, size);
    if k < |blocks| {
      FitsAt(blocks, size);
      PlacedKeeps(blocks, start, brk, k, size);
    } else {
      GrownPlaced(blocks, start, brk, size);
    }
  }

  lemma GrownPlaced(blocks: seq<Block>, start: int, brk: int, size: int)
    requires Tiled(blocks, start, brk) && size >= 8
    ensures var k, n := |blocks|, Placed(Grown(blocks, brk, Need(size)), |blocks|, size);
      && |Grown(blocks, brk, Need(size))| > k
      && Tiled(n, start, brk + Need(size))
      && k < |n| && n[k].size >= size && !n[k].free && n[k].addr == brk && n[..k] == blocks
      && (forall b :: b in blocks && !b.free ==> b in n)
      && (forall b :: b in n && !b.free && b != n[k] ==> b in blocks)
  {
    hide Tiled, Placed, Grown, FirstFit, Need;
    var g, k := Grown(blocks, brk, Need(size)), |blocks|;
    NeedCovers(size);
    GrownKeeps(blocks, start, brk, Need(size));
    GrownHolds(blocks, start, brk, Need(size));
    PlacedKeeps(g, start, brk + Need(size), k, size);
    var n := Placed(g, k, size);
    forall b | b in n && !b.free && b != n[k]
      ensures b in blocks
    {
      assert b in g;
      PlacedNotFirst(g, start, brk + Need(size), k, size, b);
    }
  }

  /** A used block behind which the placement left nothing of the old block k is not that block. */
  lemma PlacedNotFirst(blocks: seq<Block>, start: int, brk: int, k: int, size: int, b: Block)
    requires Tiled(blocks, start, brk) && 0 <= k < |blocks| && size >= 8 && blocks[k].size >= size
    requires |Placed(blocks, k, size)| > k && b in Placed(blocks, k, size) && b != Placed(blocks, k, size)[k]
    ensures b != blocks[k]
  {
    hide Placed, Tiled;
    PlacedKeeps(blocks, start, brk, k, size);
    var n := Placed(blocks, k, size);
    var i :| 0 <= i < |n| && n[i] == b;
    AddressesApart(n, start, brk, i, k);
  }

  lemma GrownHolds(blocks: seq<Block>, start: int, brk: int, need: int)
    requires Tiled(blocks, start, brk)
    ensures var g := Grown(blocks, brk, need);
      && |g| == |blocks| + 1 && g[|blocks|] == Block(brk, need - HDR, false) && g[..|blocks|] == blocks
      && (forall b :: b in blocks ==> b in g && b != g[|blocks|])
      && (forall b :: b in g && b != g[|blocks|] ==> b in blocks)
  {
    var g := Grown(blocks, brk, need);
    forall b | b in blocks
      ensures b in g && b != g[|blocks|]
    {
      var i :| 0 <= i < |blocks| && blocks[i] == b;
      assert g[i] == b;
      TiledEnd(blocks, start, brk, i);
      assert b.size >= 8;
    }
  }

  lemma {:induction false} FitsAt(blocks: seq<Block>, size: int)
    requires FirstFit(blocks, size) < |blocks|
    ensures blocks[FirstFit(blocks, size)].free && blocks[FirstFit(blocks, size)].size >= size
    ensures forall j :: 0 <= j < FirstFit(blocks, size) ==> !(blocks[j].free && blocks[j].size >= size)
  {
    if !(blocks[0].free && blocks[0].size >= size) {
      FitsAt(blocks[1..], size);
    }
  }

  lemma {:induction false} NoneBefore(blocks: seq<Block>, size: int, j: int)
    requires 0 <= j < FirstFit(blocks, size)
    ensures j < |blocks| && !(blocks[j].free && blocks[j].size >= size)
  {
    if j > 0 {
      NoneBefore(blocks[1..], size, j - 1);
    }
  }

  /** First fit is stable: allocating, freeing and allocating the same size again returns the same block, and the
      second allocation needs no growth. */
  lemma StableFit(blocks: seq<Block>, start: int, brk: int, size: int)
    requires Tiled(blocks, start, brk) && size >= 8
    ensures var k, m := FirstFit(blocks, size), Malloced(blocks, brk, size);
      && k < |m|
      && var n := Freed(m, k);
        FirstFit(n, size) == k && k < |n| && n[k].addr == m[k].addr
  {
    var k, m := FirstFit(blocks, size), Malloced(blocks, brk, size);
    MallocedKeeps(blocks, start, brk, size);
    FreedKeeps(m, start, BreakAfter(blocks, brk, size), k);
    var n := Freed(m, k);
    forall j | 0 <= j < k
      ensures !(n[j].free && n[j].size >= size)
    {
      NoneBefore(blocks, size, j);
      assert n[j] == n[..k][j] == m[..k][j] == blocks[..k][j];
    }
    FirstFitIs(n, size, k);
  }

  /** What malloc makes of one of the seven largest requests: it hands out a block of fewer than 20 bytes, and one with
      no payload at all if the block it found (or the page it was given) had 20 or more. */
  lemma WrappedRequest(blocks: seq<Block>, start: int, brk: int, size: int)
    requires Tiled(blocks, start, brk) && WORD - 8 < size < WORD
    ensures var k, n := FirstFit(blocks, Round8(size)), Malloced(blocks, brk, Round8(size));
      && k < |n| && n[k].size < 20 && !n[k].free
      && (k == |blocks| || blocks[k].size >= 20 ==> n[k].size == 0)
  {
    Round8Wraps(size);
    var k := FirstFit(blocks, 0);
    if k < |blocks| {
      FitsAt(blocks, 0);
    } else {
      assert Grown(blocks, brk, Need(0))[k] == Block(brk, 4096 - HDR, false);
    }
  }

  // ---- calloc's overflow test -------------------------------------------------------------------------------------

  /** `n && total / n != size` with total == n * size in 32 bits rejects exactly the products that reach 2^32. */
  lemma OverflowTest(n: int, size: int)
    requires 0 <= n < WORD && 0 <= size < WORD
    ensures (n != 0 && n * size % WORD / n != size) <==> n * size >= WORD
  {
    if n != 0 {
      var p := n * size;
      if p < WORD {
        WrapsNot(p);
        Divides(n, size);
      } else {
        var t := p % WORD;
        assert t < WORD <= p;
        Quotient(t, n);
        NotSize(t / n, n, size, t);
      }
    }
  }

  lemma WrapsNot(p: int)
    requires 0 <= p < WORD
    ensures p % WORD == p
  {
  }

  lemma Divides(n: int, size: int)
    requires n > 0
    ensures n * size / n == size
  {
    Arith.Quotient(n * size, n, size, 0);
  }

  lemma NotSize(q: int, n: int, size: int, t: int)
    requires q * n <= t < n * size
    ensures q != size
  {
  }

  lemma Quotient(t: int, n: int)
    requires n > 0 && t >= 0
    ensures t / n * n <= t
  {
  }
}
