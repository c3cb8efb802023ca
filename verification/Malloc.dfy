/** The user heap in memory: a list of headers kept in the bytes it manages (libc/stdlib/malloc.c). */
module Malloc {
  import opened Arith
  import opened Words
  import opened ElfFormat
  import opened Blocks

  /** The largest request whose page-rounded growth still fits the signed argument of sbrk: see GrowthIff. */
  const MAX_REQUEST := 0x7FFF_EFF0

  const INT_LIMIT := 0x8000_0000

  function Flag(free: bool): int
  {
    if free then 1 else 0
  }

  /** The increment that grow passes to sbrk, in C's arithmetic: 32-bit sums, read as a signed number. */
  function Increment(size: int): int
  {
    var need := ((size + HDR) % WORD + 0xFFF) % WORD / PAGE * PAGE;
    if need < INT_LIMIT then need else need - WORD
  }

  /** malloc rounds a request up, and grow then asks sbrk for enough, exactly up to MAX_REQUEST: nothing in malloc.c
      tests for larger ones. */
  lemma GrowthIff(size: int)
    requires 0 < size < WORD
    ensures Round8(size) >= size && Increment(Round8(size)) >= Round8(size) + HDR <==> size <= MAX_REQUEST
    ensures size <= MAX_REQUEST ==> Increment(Round8(size)) == Need(Round8(size))
  {
    hide Increment, Round8;
    var r := Round8(size);
    Round8Iff(size);
    if size > WORD - 8 {
      Round8Wraps(size);
    } else if r + HDR + 0xFFF < WORD {
      IncrementPlain(r);
    } else {
      IncrementWraps(r);
    }
  }

  lemma IncrementPlain(r: int)
    requires 0 <= r && r % 8 == 0 && r + HDR + 0xFFF < WORD
    ensures Increment(r) == if r <= MAX_REQUEST then Need(r) else Need(r) - WORD
    ensures r + HDR <= Need(r) <= WORD
  {
  }

  lemma IncrementWraps(r: int)
    requires 0 <= r < WORD && r + HDR + 0xFFF >= WORD
    ensures Increment(r) <= 0x1000
  {
  }

  /** A request that makes grow give a page back. */
  lemma ShrinkingRequest()
    ensures Increment(Round8(0xFFFF_E000)) == -4096
  {
  }

  /** The three words of a header: size, next, free. */
  predicate HeaderAt(img: Img, b: Block, next: int)
  {
    && HasWord(img, b.addr) && WordAt(img, b.addr) == b.size
    && HasWord(img, b.addr + 4) && WordAt(img, b.addr + 4) == next
    && HasWord(img, b.addr + 8) && WordAt(img, b.addr + 8) == Flag(b.free)
  }

  /** The address of block k, or the null pointer behind the last. */
  function AddrOf(blocks: seq<Block>, k: int): int
  {
    if 0 <= k < |blocks| then blocks[k].addr else 0
  }

  ghost predicate Headers(img: Img, blocks: seq<Block>)
  {
    forall k {:trigger blocks[k]} :: 0 <= k < |blocks| ==> HeaderAt(img, blocks[k], AddrOf(blocks, k + 1))
  }

  ghost predicate Backed(img: Img, start: int, brk: int)
  {
    forall va {:trigger va in img} :: start <= va < brk ==> va in img
  }

  /** Memory is the same but for the bytes of [lo, hi). */
  ghost predicate SameOutside(a: Img, b: Img, lo: int, hi: int)
  {
    && (forall va {:trigger va in b} :: va in a ==> va in b)
    && (forall va {:trigger b[va]} :: va in b && !(lo <= va < hi) ==> va in a && b[va] == a[va])
  }

  /** Memory has grown by [lo, hi). */
  ghost predicate Extends(a: Img, b: Img, lo: int, hi: int)
  {
    SameOutside(a, b, lo, hi) && forall va {:trigger va in b} :: lo <= va < hi ==> va in b
  }

  /** Memory below `top` is the same; above it there may be more. */
  ghost predicate SameBelow(a: Img, b: Img, top: int)
  {
    && (forall va {:trigger va in b} :: va in a ==> va in b)
    && (forall va {:trigger b[va]} :: va in b && va < top ==> va in a && b[va] == a[va])
  }

  /** The bytes of [start, top) that a has are in b too, the same. */
  ghost predicate SameWithin(a: Img, b: Img, start: int, top: int)
  {
    forall va {:trigger va in a} {:trigger va in b} :: start <= va < top && va in a ==> va in b && b[va] == a[va]
  }

  lemma BelowWithin(a: Img, b: Img, start: int, top: int)
    requires SameBelow(a, b, top)
    ensures SameWithin(a, b, start, top)
  {
  }

  /** Every live payload other than block `but` has kept its bytes. */
  ghost predicate SameHeld(a: Img, b: Img, blocks: seq<Block>, but: int)
  {
    forall k, va {:trigger Payload(blocks[k], va)} :: 0 <= k < |blocks| && k != but ==>
      (!blocks[k].free && Payload(blocks[k], va) ==> va in a && va in b && b[va] == a[va])
  }

  /** The n bytes at src in memory a are at dst in memory b. */
  ghost predicate Carried(a: Img, src: int, b: Img, dst: int, n: int)
  {
    forall va {:trigger CarriedByte(a, src, b, dst, va)} :: dst <= va < dst + n ==> CarriedByte(a, src, b, dst, va)
  }

  predicate CarriedByte(a: Img, src: int, b: Img, dst: int, va: int)
  {
    va in b && va - dst + src in a && b[va] == a[va - dst + src]
  }

  // ---- what the program holds -------------------------------------------------------------------------------------

  /** The n bytes at p. */
  ghost function BytesFrom(img: Img, p: int, n: nat): (s: seq<Byte>)
    ensures |s| == n && forall i :: 0 <= i < n && p + i in img ==> s[i] == img[p + i]
  {
    seq(n, i requires 0 <= i < n => if p + i in img then img[p + i] else 0)
  }

  /** Memory shows these bytes at p. */
  ghost predicate Shows(img: Img, p: int, bytes: seq<Byte>)
  {
    forall i {:trigger ByteAt(img, p, bytes, i)} :: 0 <= i < |bytes| ==> ByteAt(img, p, bytes, i)
  }

  predicate ByteAt(img: Img, p: int, bytes: seq<Byte>, i: int)
    requires 0 <= i < |bytes|
  {
    p + i in img && img[p + i] == bytes[i]
  }

  predicate Serves(b: Block, p: int, n: int)
  {
    b.addr + HDR == p && !b.free && n <= b.size
  }

  /** Pointer p was handed out for n bytes: a used block serves it. */
  ghost predicate HasBlock(blocks: seq<Block>, p: int, n: int)
  {
    exists k :: 0 <= k < |blocks| && Serves(blocks[k], p, n)
  }

  /** Every pointer the program holds is served by a used block at least as large as requested, which shows the bytes
      the program left there; and every used block is held. */
  ghost predicate Granted(img: Img, blocks: seq<Block>, live: map<int, seq<Byte>>)
  {
    && (forall p {:trigger p in live} :: p in live ==> HasBlock(blocks, p, |live[p]|) && Shows(img, p, live[p]))
    && (forall k {:trigger blocks[k]} :: 0 <= k < |blocks| && !blocks[k].free ==> blocks[k].addr + HDR in live)
  }

  // ---- words and frames -------------------------------------------------------------------------------------------

  lemma PutFrame(img: Img, at: int, v: int)
    requires HasWord(img, at) && 0 <= v < WORD
    ensures SameOutside(img, PutWord(img, at, v), at, at + 4)
    ensures HasWord(PutWord(img, at, v), at) && WordAt(PutWord(img, at, v), at) == v
  {
    hide ByteOf;
    WordAfterPut(img, at, v);
  }

  lemma SameWord(a: Img, b: Img, lo: int, hi: int, x: int)
    requires SameOutside(a, b, lo, hi) && HasWord(a, x) && (x + 4 <= lo || hi <= x)
    ensures HasWord(b, x) && WordAt(b, x) == WordAt(a, x)
  {
  }

  lemma SameHeader(a: Img, b: Img, lo: int, hi: int, block: Block, next: int)
    requires SameOutside(a, b, lo, hi) && HeaderAt(a, block, next) && (block.addr + HDR <= lo || hi <= block.addr)
    ensures HeaderAt(b, block, next)
  {
    hide FromBytes;
    SameWord(a, b, lo, hi, block.addr);
    SameWord(a, b, lo, hi, block.addr + 4);
    SameWord(a, b, lo, hi, block.addr + 8);
  }

  lemma SameOutsideTrans(a: Img, b: Img, c: Img, lo: int, mid: int, hi: int, lo': int, hi': int)
    requires SameOutside(a, b, lo, mid) && SameOutside(b, c, lo', hi') && lo' <= lo && mid <= hi'
    ensures SameOutside(a, c, lo', hi')
  {
  }

  lemma SameOutsideWider(a: Img, b: Img, lo: int, hi: int, lo': int, hi': int)
    requires SameOutside(a, b, lo, hi) && lo' <= lo && hi <= hi'
    ensures SameOutside(a, b, lo', hi')
  {
  }

  /** A header written anew. */
  function SetHeader(img: Img, at: int, size: int, next: int, free: int): Img
  {
    PutWord(PutWord(PutWord(img, at, size), at + 4, next), at + 8, free)
  }

  lemma SetHeaderIs(img: Img, b: Block, next: int)
    requires HasWord(img, b.addr) && HasWord(img, b.addr + 4) && HasWord(img, b.addr + 8)
    requires 0 <= b.size < WORD && 0 <= next < WORD
    ensures var n := SetHeader(img, b.addr, b.size, next, Flag(b.free));
      HeaderAt(n, b, next) && SameOutside(img, n, b.addr, b.addr + HDR)
  {
    hide PutWord, WordAt, SameOutside;
    var i1 := PutWord(img, b.addr, b.size);
    PutFrame(img, b.addr, b.size);
    SameWord(img, i1, b.addr, b.addr + 4, b.addr + 4);
    SameWord(img, i1, b.addr, b.addr + 4, b.addr + 8);
    var i2 := PutWord(i1, b.addr + 4, next);
    PutFrame(i1, b.addr + 4, next);
    SameWord(i1, i2, b.addr + 4, b.addr + 8, b.addr);
    SameWord(i1, i2, b.addr + 4, b.addr + 8, b.addr + 8);
    var i3 := PutWord(i2, b.addr + 8, Flag(b.free));
    PutFrame(i2, b.addr + 8, Flag(b.free));
    SameWord(i2, i3, b.addr + 8, b.addr + 12, b.addr);
    SameWord(i2, i3, b.addr + 8, b.addr + 12, b.addr + 4);
    SameOutsideTrans(img, i1, i2, b.addr, b.addr + 4, b.addr + 8, b.addr, b.addr + 8) by {
      SameOutsideWider(i1, i2, b.addr + 4, b.addr + 8, b.addr, b.addr + 8);
    }
    SameOutsideWider(i2, i3, b.addr + 8, b.addr + 12, b.addr, b.addr + 12);
    SameOutsideTrans(img, i2, i3, b.addr, b.addr + 8, b.addr + 12, b.addr, b.addr + 12);
  }

  /** The words of a range that is backed. */
  lemma BackedWord(img: Img, start: int, brk: int, at: int)
    requires Backed(img, start, brk) && start <= at && at + 4 <= brk
    ensures HasWord(img, at)
  {
  }

  lemma BackedHeader(img: Img, start: int, brk: int, at: int)
    requires Backed(img, start, brk) && start <= at && at + HDR <= brk
    ensures HasWord(img, at) && HasWord(img, at + 4) && HasWord(img, at + 8)
  {
  }

  lemma BackedKept(a: Img, b: Img, lo: int, hi: int, start: int, brk: int)
    requires Backed(a, start, brk) && SameOutside(a, b, lo, hi)
    ensures Backed(b, start, brk)
  {
  }

  /** Writing inside block k leaves every other block's header and payload alone. */
  lemma InsideBlock(a: Img, b: Img, blocks: seq<Block>, start: int, brk: int, k: int, j: int)
    requires Tiled(blocks, start, brk) && 0 <= k < |blocks| && 0 <= j < |blocks| && j != k
    requires SameOutside(a, b, blocks[k].addr, End(blocks[k])) && HeaderAt(a, blocks[j], AddrOf(blocks, j + 1))
    ensures HeaderAt(b, blocks[j], AddrOf(blocks, j + 1))
  {
    hide HeaderAt, SameOutside;
    assert blocks[j].size >= 8 && blocks[k].size >= 8;
    if j < k {
      TiledOrder(blocks, start, brk, j, k);
    } else {
      TiledOrder(blocks, start, brk, k, j);
    }
    SameHeader(a, b, blocks[k].addr, End(blocks[k]), blocks[j], AddrOf(blocks, j + 1));
  }

  lemma HeldInside(a: Img, b: Img, blocks: seq<Block>, start: int, brk: int, k: int)
    requires Tiled(blocks, start, brk) && 0 <= k < |blocks| && Backed(a, start, brk)
    requires SameOutside(a, b, blocks[k].addr, End(blocks[k]))
    ensures SameHeld(a, b, blocks, k)
  {
    hide Tiled, End, Payload;
    forall j, va | 0 <= j < |blocks| && j != k && !blocks[j].free && Payload(blocks[j], va)
      ensures va in a && va in b && b[va] == a[va]
    {
      PayloadsApart(blocks, start, brk, j, k, va);
    }
  }

  /** The new headers: block k rewritten, the rest as they were. */
  lemma OneHeader(a: Img, b: Img, blocks: seq<Block>, start: int, brk: int, k: int, c: Block)
    requires Tiled(blocks, start, brk) && 0 <= k < |blocks| && Headers(a, blocks)
    requires c.addr == blocks[k].addr && SameOutside(a, b, blocks[k].addr, End(blocks[k]))
    requires HeaderAt(b, c, AddrOf(blocks, k + 1))
    ensures Headers(b, blocks[k := c])
  {
    hide HeaderAt, SameOutside;
    var n := blocks[k := c];
    forall j | 0 <= j < |n|
      ensures HeaderAt(b, n[j], AddrOf(n, j + 1))
    {
      if j != k {
        InsideBlock(a, b, blocks, start, brk, k, j);
      }
    }
  }

  lemma HeaderOf(img: Img, blocks: seq<Block>, k: int)
    requires Headers(img, blocks) && 0 <= k < |blocks|
    ensures HeaderAt(img, blocks[k], AddrOf(blocks, k + 1))
  {
  }

  lemma MakeHeaders(img: Img, blocks: seq<Block>)
    requires forall j {:trigger blocks[j]} :: 0 <= j < |blocks| ==> HeaderAt(img, blocks[j], AddrOf(blocks, j + 1))
    ensures Headers(img, blocks)
  {
  }

  lemma SplitHeaders(a: Img, b: Img, blocks: seq<Block>, start: int, brk: int, k: int, size: int)
    requires Tiled(blocks, start, brk) && 0 <= k < |blocks| && Headers(a, blocks) && size >= 8
    requires blocks[k].size >= size + HDR + 8
    requires SameOutside(a, b, blocks[k].addr, End(blocks[k]))
    requires var n := Split(blocks, k, size);
      && |n| == |blocks| + 1
      && HeaderAt(b, n[k], n[k + 1].addr) && HeaderAt(b, n[k + 1], AddrOf(blocks, k + 1))
    ensures Headers(b, Split(blocks, k, size))
  {
    hide HeaderAt, SameOutside, Split, Headers, Tiled;
    var n := Split(blocks, k, size);
    forall j | 0 <= j < |n|
      ensures HeaderAt(b, n[j], AddrOf(n, j + 1))
    {
      SplitAt(blocks, k, size, j);
      SplitAt(blocks, k, size, j + 1);
      if j < k {
        HeaderOf(a, blocks, j);
        InsideBlock(a, b, blocks, start, brk, k, j);
      } else if j > k + 1 {
        HeaderOf(a, blocks, j - 1);
        InsideBlock(a, b, blocks, start, brk, k, j - 1);
      }
    }
    MakeHeaders(b, n);
  }

  lemma MergeHeaders(a: Img, b: Img, blocks: seq<Block>, start: int, brk: int, k: int)
    requires Tiled(blocks, start, brk) && 0 <= k && k + 1 < |blocks| && Headers(a, blocks)
    requires SameOutside(a, b, blocks[k].addr, End(blocks[k]))
    requires HeaderAt(b, Merge(blocks, k)[k], AddrOf(blocks, k + 2))
    ensures Headers(b, Merge(blocks, k))
  {
    hide HeaderAt, SameOutside, Merge, Headers, Tiled;
    var n := Merge(blocks, k);
    MergeAt(blocks, k, k);
    forall j | 0 <= j < |n|
      ensures HeaderAt(b, n[j], AddrOf(n, j + 1))
    {
      MergeAt(blocks, k, j);
      MergeAt(blocks, k, j + 1);
      if j < k {
        HeaderOf(a, blocks, j);
        InsideBlock(a, b, blocks, start, brk, k, j);
      } else if j > k {
        HeaderOf(a, blocks, j + 1);
        InsideBlock(a, b, blocks, start, brk, k, j + 1);
      }
    }
    MakeHeaders(b, n);
  }

  /** A block appended behind the old break, and linked from the last. */
  lemma GrownHeaders(a: Img, b: Img, blocks: seq<Block>, start: int, brk: int, need: int)
    requires Tiled(blocks, start, brk) && Headers(a, blocks)
    requires blocks != [] ==> SameOutside(a, b, blocks[|blocks| - 1].addr, End(blocks[|blocks| - 1]))
    requires blocks != [] ==> HeaderAt(b, blocks[|blocks| - 1], brk)
    requires HeaderAt(b, Block(brk, need - HDR, false), 0)
    ensures Headers(b, Grown(blocks, brk, need))
  {
    hide HeaderAt, SameOutside;
    var n := Grown(blocks, brk, need);
    forall j | 0 <= j < |n|
      ensures HeaderAt(b, n[j], AddrOf(n, j + 1))
    {
      if j < |blocks| - 1 {
        InsideBlock(a, b, blocks, start, brk, |blocks| - 1, j);
      }
    }
  }

  class Heap {
    const start: int
    const limit: int
    var img: Img
    var brk: int
    var head: int
    ghost var blocks: seq<Block>
    ghost var live: map<int, seq<Byte>>    // what was requested and not freed, and the bytes it holds

    ghost predicate Valid()
      reads this
    {
      && 0 < start <= brk <= limit <= INT_LIMIT
      && Tiled(blocks, start, brk)
      && head == AddrOf(blocks, 0)
      && Backed(img, start, brk)
      && Headers(img, blocks)
    }

    /** The heap invariant, between calls. */
    ghost predicate Ready()
      reads this
    {
      Valid() && Granted(img, blocks, live)
    }

    /** A process that has not allocated yet, with whatever memory it has; sbrk refuses to go beyond `limit`. */
    constructor (start: int, limit: int, img: Img)
      requires 0 < start <= limit <= INT_LIMIT
      ensures Ready() && live == map[] && blocks == [] && brk == start == this.start && this.limit == limit
      ensures this.img == img
    {
      this.start, this.limit, brk, head := start, limit, start, 0;
      this.img, blocks, live := img, [], map[];
    }

    method Load(at: int) returns (v: int)
      requires HasWord(img, at)
      ensures v == WordAt(img, at)
    {
      v := WordAt(img, at);
    }

    method Store(at: int, v: int)
      requires HasWord(img, at)
      modifies `img
      ensures img == PutWord(old(img), at, v)
    {
      img := PutWord(img, at, v);
    }

    /** sbrk: the old break, or -1 when the limit is reached or the kernel has no memory. The kernel clears only pages
        that were not mapped, so the new bytes may be anything; and it keeps what it mapped before it ran out. */
    method Sbrk(inc: int) returns (p: int)
      requires 0 < inc && 0 < brk
      modifies `img, `brk
      ensures p == -1 ==> SameBelow(old(img), img, brk) && brk == old(brk)
      ensures p != -1 ==> p == old(brk) && brk == old(brk) + inc <= limit && Extends(old(img), img, old(brk), brk)
      ensures old(brk) + inc > limit ==> p == -1
    {
      var refused: bool := *;
      var more: Img := *;
      if brk + inc > limit || refused {
        img := (map va | va in more && va >= brk :: more[va]) + img;
        return -1;
      }
      p := brk;
      img := img + (map va | brk <= va < brk + inc :: if va in more then more[va] else 0);
      brk := brk + inc;
    }

    method FindFree(size: int) returns (b: int, ghost k: int)
      requires Valid()
      ensures k == FirstFit(blocks, size) && b == AddrOf(blocks, k)
    {
      hide HeaderAt, Tiled, FirstFit, Headers, HasWord, WordAt;
      b := head;
      k := 0;
      HeaderFacts(img, blocks, start, brk, k);
      while b != 0
        invariant 0 <= k <= |blocks| && b == AddrOf(blocks, k)
        invariant forall j :: 0 <= j < k ==> !(blocks[j].free && blocks[j].size >= size)
        decreases |blocks| - k
      {
        HeaderFacts(img, blocks, start, brk, k);
        var free := Load(b + 8);
        var have := Load(b);
        if free != 0 && have >= size {
          FirstFitIs(blocks, size, k);
          return;
        }
        b := Load(b + 4);
        k := k + 1;
      }
      HeaderFacts(img, blocks, start, brk, k);
      FirstFitIs(blocks, size, k);
    }

    /** grow: whole pages from sbrk become one used block at the end of the list. */
    method Grow(size: int) returns (b: int)
      requires Valid() && 8 <= size <= MAX_REQUEST
      modifies `img, `brk, `head, `blocks
      ensures Valid()
      ensures b == 0 ==> SameBelow(old(img), img, brk) && brk == old(brk) && blocks == old(blocks) && head == old(head)
      ensures b != 0 ==>
        b == old(brk) && brk == old(brk) + Need(size) && blocks == Grown(old(blocks), old(brk), Need(size))
      ensures b != 0 ==> SameHeld(old(img), img, old(blocks), -1)
    {
      hide HeaderAt, Tiled, PutWord, Grown, HasWord, SameHeld, Headers, Backed, Extends, SameOutside;
      ghost var before, was, top := img, blocks, brk;
      NeedCovers(size);
      var need := (size + HDR + 0xFFF) / PAGE * PAGE;
      NeedSmall(size);
      var p := Sbrk(need);
      if p == -1 {
        BelowWithin(before, img, start, top);
        WithinKept(before, img, was, start, top);
        return 0;
      }
      ghost var larger := img;
      MoreMemory(before, larger, was, start, top, brk);
      BackedHeader(img, start, brk, p);
      Store(p, need - HDR);
      NextWord(larger, img, p, need - HDR, start, brk, p + 4);
      ghost var half := img;
      Store(p + 4, 0);
      NextWord(half, img, p + 4, 0, start, brk, p + 8);
      Store(p + 8, 0);
      ghost var written := img;
      NewBlock(before, larger, written, was, start, top, brk);
      if head == 0 {
        blocks := Grown(was, top, need);
        FirstBlock(written, was, start, top, need);
        head := p;
      } else {
        var last := LastBlock(was, top);
        LastWord(written, was, start, top, brk);
        Store(last + 4, p);
        blocks := Grown(was, top, need);
        LinkedBlock(before, written, img, was, start, top, need);
      }
      b := p;
    }

    /** The walk of grow to the last block. */
    method LastBlock(ghost was: seq<Block>, ghost top: int) returns (last: int)
      requires head != 0 && head == AddrOf(was, 0) && Tiled(was, start, top) && 0 < start && Headers(img, was)
      ensures was != [] && last == was[|was| - 1].addr
    {
      hide HeaderAt, Tiled, Headers;
      last := head;
      ghost var k := 0;
      HeaderFacts(img, was, start, top, k);
      var next := Load(last + 4);
      while next != 0
        invariant 0 <= k < |was| && last == was[k].addr && next == AddrOf(was, k + 1)
        decreases |was| - k
      {
        last := next;
        k := k + 1;
        HeaderFacts(img, was, start, top, k);
        next := Load(last + 4);
      }
      HeaderFacts(img, was, start, top, k + 1);
    }

    /** split: the rest of block k beyond `size` bytes becomes a free block, if that leaves at least 8 bytes. */
    method SplitBlock(b: int, size: int, ghost k: int)
      requires Valid() && 0 <= k < |blocks| && b == blocks[k].addr && 8 <= size <= blocks[k].size
      modifies `img, `blocks
      ensures Valid() && blocks == Split(old(blocks), k, size)
      ensures SameHeld(old(img), img, old(blocks), k)
      ensures SameOutside(old(img), img, old(blocks)[k].addr, End(old(blocks)[k]))
    {
      hide HeaderAt, Tiled, PutWord, HasWord, WordAt, SameHeld, Headers, Backed, SameOutside, Split;
      ghost var was, before := blocks, img;
      HeaderFacts(img, blocks, start, brk, k);
      BlockSize(blocks, start, brk, k);
      var have := Load(b);
      if have < size + HDR + 8 {
        NotSplit(was, k, size);
        HeldRefl(img, blocks, start, brk, k);
        SameOutsideRefl(img, blocks[k].addr, End(blocks[k]));
        return;
      }
      var rest := b + HDR + size;
      var next := Load(b + 4);
      BackedHeader(img, start, brk, rest);
      Store(rest, have - size - HDR);
      NextWord(before, img, rest, have - size - HDR, start, brk, rest + 4);
      ghost var i1 := img;
      Store(rest + 4, next);
      NextWord(i1, img, rest + 4, next, start, brk, rest + 8);
      Store(rest + 8, 1);
      ghost var i3 := img;
      RestWritten(before, i3, was, start, brk, k, size);
      KeepsWord(i3, b, size, b + 4);
      Store(b, size);
      Store(b + 4, rest);
      blocks := Split(was, k, size);
      SplitWritten(before, i3, img, was, start, brk, k, size);
    }

    /** malloc: the lowest block that fits, or a new one; null for a zero request or when sbrk refuses. */
    method Malloc(size: int) returns (p: int)
      requires Ready() && 0 <= size <= MAX_REQUEST
      modifies this
      ensures Ready()
      ensures size == 0 ==> p == 0
      ensures p == 0 ==> Untouched(old(img), old(brk), old(blocks), old(live))
      ensures p == 0 && size > 0 ==> FirstFit(old(blocks), Round8(size)) == |old(blocks)|
      ensures p != 0 ==> p !in old(live) && p in live && |live[p]| == size && live == old(live)[p := live[p]]
      ensures p != 0 ==>
        var k := FirstFit(old(blocks), Round8(size));
        && blocks == Malloced(old(blocks), old(brk), Round8(size))
        && brk == BreakAfter(old(blocks), old(brk), Round8(size))
        && k < |blocks| && p == blocks[k].addr + HDR && !blocks[k].free && blocks[k].size >= size
        && SameHeld(old(img), img, old(blocks), -1)
    {
      hide Granted, HeaderAt, Tiled, SameHeld, Headers, Backed, SameOutside, Placed, Grown, FirstFit, Need, Round8;
      if size == 0 {
        return 0;
      }
      ghost var was, before, top := blocks, img, brk;
      Round8Iff(size);
      Round8Size(size);
      p := Allocate(size);
      if p == 0 {
        BelowWithin(before, img, start, top);
        StillGranted(before, img, was, live, start, top);
      } else {
        MallocGrants(before, was, live, img, start, top, p, size, Round8(size));
        live := live[p := BytesFrom(img, p, size)];
      }
    }

    /** Nothing has changed but, perhaps, memory above the break. */
    ghost predicate Untouched(img0: Img, brk0: int, blocks0: seq<Block>, live0: map<int, seq<Byte>>)
      reads this
    {
      SameBelow(img0, img, brk0) && brk == brk0 && blocks == blocks0 && live == live0
    }

    /** malloc on the list and in memory. */
    method Allocate(size: int) returns (p: int)
      requires Valid() && 0 < size <= MAX_REQUEST
      modifies `img, `brk, `head, `blocks
      ensures Valid()
      ensures p == 0 ==> SameBelow(old(img), img, brk) && brk == old(brk) && blocks == old(blocks) && head == old(head)
      ensures p == 0 ==> FirstFit(old(blocks), Round8(size)) == |old(blocks)|
      ensures p != 0 ==>
        var k := FirstFit(old(blocks), Round8(size));
        && blocks == Malloced(old(blocks), old(brk), Round8(size))
        && brk == BreakAfter(old(blocks), old(brk), Round8(size))
        && k < |blocks| && p == blocks[k].addr + HDR && !blocks[k].free && blocks[k].size >= size
        && SameHeld(old(img), img, old(blocks), -1)
    {
      hide HeaderAt, Tiled, SameHeld, Headers, Backed, SameOutside, Placed, Grown, FirstFit, Need, Round8;
      ghost var was := blocks;
      Round8Iff(size);
      Round8Size(size);
      Round8Is(size);
      var rounded := (size + 7) % WORD / 8 * 8;
      MallocedKeeps(was, start, brk, rounded);
      ghost var k;
      var b;
      b, k := FindFree(rounded);
      HeaderFacts(img, blocks, start, brk, k);
      if b != 0 {
        FitsAt(was, rounded);
        BlockSize(was, start, brk, k);
        TakeFit(b, rounded, k);
      } else {
        b := TakeNew(rounded);
        if b == 0 {
          return 0;
        }
      }
      p := b + HDR;
    }

    /** malloc in a block that fits. */
    method TakeFit(b: int, size: int, ghost k: int)
      requires Valid() && 0 <= k < |blocks| && b == blocks[k].addr && blocks[k].free && 8 <= size <= blocks[k].size
      modifies `img, `blocks
      ensures Valid() && blocks == Placed(old(blocks), k, size) && SameHeld(old(img), img, old(blocks), -1)
    {
      hide HeaderAt, Tiled, SameHeld, Headers, Backed, SameOutside, Split, SetFree;
      ghost var was, before := blocks, img;
      SplitKeeps(was, start, brk, k, size);
      SplitBlock(b, size, k);
      SplitFree(before, img, was, k);
      ghost var cut := img;
      Mark(b, false, k);
      SplitHeld(before, cut, img, was, start, brk, k);
    }

    /** malloc in a block that sbrk provides. */
    method TakeNew(size: int) returns (b: int)
      requires Valid() && 8 <= size <= MAX_REQUEST
      modifies `img, `brk, `head, `blocks
      ensures Valid()
      ensures b == 0 ==> SameBelow(old(img), img, brk) && brk == old(brk) && blocks == old(blocks) && head == old(head)
      ensures b != 0 ==>
        && b == old(brk) && brk == old(brk) + Need(size)
        && blocks == Placed(Grown(old(blocks), old(brk), Need(size)), |old(blocks)|, size)
        && SameHeld(old(img), img, old(blocks), -1)
    {
      hide HeaderAt, Tiled, SameHeld, Headers, Backed, SameOutside, Split, Grown, Need, SetFree;
      ghost var was, before, k := blocks, img, |blocks|;
      GrownIs(was, brk, start, size);
      b := Grow(size);
      if b == 0 {
        return 0;
      }
      ghost var grown, more := blocks, img;
      SplitKeeps(grown, start, brk, k, size);
      SplitBlock(b, size, k);
      GrownHeld(before, more, img, was, grown, k);
      AlreadyUsed(blocks, k);
    }

    /** `b->free = ...` */
    method Mark(b: int, free: bool, ghost k: int)
      requires Valid() && 0 <= k < |blocks| && b == blocks[k].addr
      modifies `img, `blocks
      ensures Valid() && blocks == SetFree(old(blocks), k, free)
      ensures SameOutside(old(img), img, b, b + HDR)
    {
      hide HeaderAt, Tiled, PutWord, HasWord, WordAt, SameHeld, Headers, Backed, SameOutside, SetFree;
      ghost var was, before := blocks, img;
      HeaderFacts(img, blocks, start, brk, k);
      Store(b + 8, Flag(free));
      blocks := SetFree(was, k, free);
      Flagged(before, img, was, start, brk, k, free);
    }

    /** free: the block is marked, and takes in the free blocks behind it. */
    method Free(p: int) returns (ghost k: int)
      requires Ready() && (p != 0 ==> p in live)
      modifies `img, `blocks, `live
      ensures Ready() && live == old(live) - {p}
      ensures p == 0 ==> img == old(img) && blocks == old(blocks)
      ensures p != 0 ==>
        && 0 <= k < |old(blocks)| && Serves(old(blocks)[k], p, |old(live)[p]|)
        && blocks == Freed(old(blocks), k)
        && SameHeld(old(img), img, old(blocks), -1)
        && SameOutside(old(img), img, p - HDR, p)
        && k < |blocks| && blocks[k].free && (k + 1 < |blocks| ==> !blocks[k + 1].free)
    {
      hide Granted, HeaderAt, Tiled, SameHeld, Headers, Backed, SameOutside, SetFree, Coalesce;
      k := 0;
      if p == 0 {
        NullNotHeld(blocks, live, img, start, brk);
        return;
      }
      ghost var was, before := blocks, img;
      k := Server(img, blocks, live, p);
      Release(p, k);
      FreeGrants(before, was, live, img, start, brk, p, k);
      live := live - {p};
    }

    /** free on the list and in memory. */
    method Release(p: int, ghost k: int)
      requires Valid() && 0 <= k < |blocks| && p == blocks[k].addr + HDR && !blocks[k].free
      modifies `img, `blocks
      ensures Valid() && blocks == Freed(old(blocks), k)
      ensures SameHeld(old(img), img, old(blocks), -1)
      ensures SameOutside(old(img), img, p - HDR, p)
      ensures k < |blocks| && blocks[k].free && (k + 1 < |blocks| ==> !blocks[k + 1].free)
    {
      hide HeaderAt, Tiled, SameHeld, Headers, Backed, SameOutside, SetFree, Coalesce;
      ghost var was, before := blocks, img;
      FreedKeeps(was, start, brk, k);
      Mark(p - HDR, true, k);
      ghost var cur := img;
      MarkedAt(was, k, true);
      CoalesceForward(p - HDR, k);
      SameOutsideTrans(before, cur, img, p - HDR, p, p, p - HDR, p);
      HeldHeader(before, img, was, start, brk, k);
    }

    /** The loop of free. */
    method CoalesceForward(b: int, ghost k: int)
      requires Valid() && 0 <= k < |blocks| && b == blocks[k].addr
      modifies `img, `blocks
      ensures Valid() && blocks == Coalesce(old(blocks), k)
      ensures SameOutside(old(img), img, b, b + HDR)
    {
      hide HeaderAt, Tiled, PutWord, HasWord, WordAt, Headers, Backed, SameOutside, Merge;
      ghost var was, before := blocks, img;
      SameOutsideRefl(img, b, b + HDR);
      HeaderFacts(img, blocks, start, brk, k);
      var next := Load(b + 4);
      var more := Behind(b, next, k);
      while more
        invariant Valid() && 0 <= k < |blocks| && blocks[k].addr == b && next == AddrOf(blocks, k + 1)
        invariant more <==> k + 1 < |blocks| && blocks[k + 1].free
        invariant Coalesce(blocks, k) == Coalesce(was, k)
        invariant SameOutside(before, img, b, b + HDR)
        decreases |blocks|
      {
        next := Absorb(b, next, k, before);
        more := Behind(b, next, k);
      }
    }

    /** `b->size += HDR + b->next->size; b->next = b->next->next` */
    method Absorb(b: int, next: int, ghost k: int, ghost before: Img) returns (after: int)
      requires Valid() && 0 <= k && k + 1 < |blocks| && b == blocks[k].addr && next == blocks[k + 1].addr
      requires SameOutside(before, img, b, b + HDR)
      modifies `img, `blocks
      ensures Valid() && blocks == Merge(old(blocks), k) && |blocks| == |old(blocks)| - 1
      ensures blocks[k].addr == b && after == AddrOf(blocks, k + 1)
      ensures SameOutside(before, img, b, b + HDR)
    {
      hide HeaderAt, Tiled, PutWord, HasWord, WordAt, Headers, Backed, SameOutside, Merge;
      ghost var now, cur := blocks, img;
      HeaderFacts(img, blocks, start, brk, k);
      HeaderFacts(img, blocks, start, brk, k + 1);
      var mine := Load(b);
      var its := Load(next);
      after := Load(next + 4);
      KeepsWord(cur, b, mine + HDR + its, b + 4);
      Store(b, mine + HDR + its);
      Store(b + 4, after);
      blocks := Merge(now, k);
      Merged(before, cur, img, now, start, brk, k);
    }

    /** `b->next && b->next->free && (char*) b + HDR + b->size == (char*) b->next`: adjacency always holds. */
    method Behind(b: int, next: int, ghost k: int) returns (more: bool)
      requires Valid() && 0 <= k < |blocks| && b == blocks[k].addr && next == AddrOf(blocks, k + 1)
      ensures more <==> k + 1 < |blocks| && blocks[k + 1].free
    {
      hide HeaderAt, Tiled, HasWord, WordAt, Headers, Backed;
      HeaderFacts(img, blocks, start, brk, k);
      HeaderFacts(img, blocks, start, brk, k + 1);
      Neighbour(blocks, start, brk, k);
      if next == 0 {
        return false;
      }
      var free := Load(next + 8);
      var size := Load(b);
      more := free != 0 && b + HDR + size == next;
    }

    // ---- calloc and realloc ---------------------------------------------------------------------------------------

    /** memset(p, 0, n) inside the payload of block k. */
    method Clear(p: int, n: int, ghost k: int)
      requires Valid() && 0 <= k < |blocks| && blocks[k].addr + HDR <= p && 0 <= n && p + n <= End(blocks[k])
      modifies `img
      ensures Valid() && SameOutside(old(img), img, p, p + n)
      ensures forall va :: p <= va < p + n ==> va in img && img[va] == 0
    {
      hide HeaderAt, Tiled, Headers, Backed;
      ghost var before := img;
      SameOutsideRefl(img, p, p + n);
      for i := 0 to n
        invariant SameOutside(before, img, p, p + n)
        invariant forall va :: p <= va < p + i ==> va in img && img[va] == 0
      {
        img := img[p + i := 0];
      }
      PayloadWritten(before, img, blocks, start, brk, k, p, p + n);
    }

    /** memcpy(dst, src, n) between the payloads of two blocks. */
    method Copy(dst: int, src: int, n: int, ghost j: int, ghost k: int)
      requires Valid() && 0 <= j < |blocks| && 0 <= k < |blocks| && j != k && 0 <= n
      requires dst == blocks[j].addr + HDR && n <= blocks[j].size && src == blocks[k].addr + HDR && n <= blocks[k].size
      modifies `img
      ensures Valid() && SameOutside(old(img), img, dst, dst + n)
      ensures Carried(old(img), src, img, dst, n)
    {
      hide HeaderAt, Tiled, Headers, Backed, HasWord, WordAt, PutWord;
      ghost var before := img;
      SameOutsideRefl(img, dst, dst + n);
      for i := 0 to n
        invariant SameOutside(before, img, dst, dst + n)
        invariant Carried(before, src, img, dst, i)
      {
        SourceApart(before, blocks, start, brk, j, k, n, src + i);
        CarriedGrows(before, src, img, dst, n, i);
        img := img[dst + i := img[src + i]];
      }
      PayloadWritten(before, img, blocks, start, brk, j, dst, dst + n);
    }

    /** calloc: null exactly when the product reaches 2^32 or malloc has nothing; otherwise all zeros. */
    method Calloc(n: int, size: int) returns (p: int)
      requires Ready() && 0 <= n < WORD && 0 <= size < WORD && (n * size < WORD ==> n * size <= MAX_REQUEST)
      modifies this
      ensures Ready()
      ensures n * size >= WORD ==> p == 0
      ensures p == 0 ==> Untouched(old(img), old(brk), old(blocks), old(live))
      ensures p == 0 && 0 < n * size < WORD ==> FirstFit(old(blocks), Round8(n * size)) == |old(blocks)|
      ensures p != 0 ==>
        && 0 < n * size < WORD
        && p !in old(live) && live == old(live)[p := seq(n * size, _ => 0)]
        && SameHeld(old(img), img, old(blocks), -1)
        && blocks == Malloced(old(blocks), old(brk), Round8(n * size))
    {
      hide Granted, HeaderAt, Tiled, SameHeld, Headers, Backed, SameOutside, Malloced, FirstFit, Round8;
      OverflowTest(n, size);
      var total := n * size % WORD;
      if n != 0 && total / n != size {
        return 0;
      }
      Product(n, size);
      ghost var was, before, top := blocks, img, brk;
      p := Malloc(total);
      if p != 0 {
        ghost var k, mid := FirstFit(was, Round8(total)), img;
        Round8Iff(total);
        Round8Size(total);
        NewBlockApart(was, start, top, Round8(total));
        Clear(p, total, k);
        HeldThrough(was, blocks, mid, img, start, brk, k, p, p + total);
        HeldTrans(before, mid, img, was, -1);
        Rewritten(mid, img, blocks, live, start, brk, k, p, p + total, total);
        live := live[p := BytesFrom(img, p, total)];
        assert live[p] == seq(n * size, _ => 0);
      }
    }

    /** realloc: the block stays if it is large enough; otherwise its bytes move to a new block and it is freed. Every
        other pointer keeps its entry, and the list is that of the two calls it makes. */
    method Realloc(p: int, size: int) returns (np: int)
      requires Ready() && 0 <= size <= MAX_REQUEST && (p != 0 ==> p in live)
      modifies this
      ensures Ready()
      ensures p == 0 && np != 0 ==>
        && np !in old(live) && np in live && |live[np]| == size && live == old(live)[np := live[np]]
        && blocks == Malloced(old(blocks), old(brk), Round8(size))
      ensures p == 0 && np == 0 ==> Untouched(old(img), old(brk), old(blocks), old(live))
      ensures p != 0 && size == 0 ==>
        && np == 0 && live == old(live) - {p} && brk == old(brk)
        && exists k :: Gave(old(blocks), k, p) && blocks == Freed(old(blocks), k)
      ensures p != 0 && size > 0 && np == 0 ==> Untouched(old(img), old(brk), old(blocks), old(live))
      ensures size > 0 && np == 0 ==>
        && FirstFit(old(blocks), Round8(size)) == |old(blocks)|
        && (p != 0 ==> exists k :: Gave(old(blocks), k, p) && old(blocks)[k].size < size)
      ensures p != 0 && np != 0 ==>
        && np in live && |live[np]| == size && live == (old(live) - {p})[np := live[np]]
        && (np == p || np !in old(live))
        && SamePrefix(old(live)[p], live[np])
        && exists k :: Gave(old(blocks), k, p) && Resized(old(blocks), old(brk), k, size, blocks, brk, np == p)
    {
      hide Granted, HeaderAt, Tiled, SameHeld, Headers, Backed, SameOutside, Malloced, FirstFit, Round8, Freed, HasWord,
           WordAt;
      if p == 0 {
        np := Malloc(size);
        return;
      }
      ghost var k;
      if size == 0 {
        k := Free(p);
        assert Gave(old(blocks), k, p);
        return 0;
      }
      k := Server(img, blocks, live, p);
      HeaderFacts(img, blocks, start, brk, k);
      var have := Load(p - HDR);
      if have >= size {
        Rewritten(img, img, blocks, live, start, brk, k, p, p, size) by {
          SameOutsideRefl(img, p, p);
        }
        StillThere(img, blocks, live, start, brk, k, p, size);
        live := live[p := BytesFrom(img, p, size)];
        assert Gave(old(blocks), k, p);
        return p;
      }
      np := Move(p, size, have, k);
      assert Gave(old(blocks), k, p);
    }

    /** realloc when the block is too small. */
    method Move(p: int, size: int, have: int, ghost k: int) returns (np: int)
      requires Ready() && 0 < size <= MAX_REQUEST && 0 <= k < |blocks| && p in live && Serves(blocks[k], p, |live[p]|)
      requires have == blocks[k].size < size
      modifies this
      ensures Ready()
      ensures np == 0 ==> Untouched(old(img), old(brk), old(blocks), old(live))
      ensures np == 0 ==> FirstFit(old(blocks), Round8(size)) == |old(blocks)|
      ensures np != 0 ==>
        && np != p && np !in old(live) && np in live && |live[np]| == size && live == (old(live) - {p})[np := live[np]]
        && SamePrefix(old(live)[p], live[np])
        && Resized(old(blocks), old(brk), k, size, blocks, brk, false)
    {
      hide Granted, HeaderAt, Tiled, SameHeld, Headers, Backed, SameOutside, Malloced, FirstFit, Round8, Freed, Shows,
           HasBlock;
      ghost var was, before, top, held := blocks, img, brk, live;
      Round8Iff(size);
      Round8Size(size);
      BlockSize(was, start, top, k);
      ghost var j := FirstFit(was, Round8(size));
      NewBlockApart(was, start, top, Round8(size));
      np := Malloc(size);
      if np == 0 {
        return;
      }
      ghost var n, mid := blocks, img;
      ghost var at := IndexOf(n, was[k]);
      Copy(np, p, have, j, at);
      Rewritten(mid, img, n, live, start, brk, j, np, np + have, size);
      CopiedPrefix(mid, img, n, live, p, np, have, held[p], size);
      live := live[np := BytesFrom(img, np, size)];
      ghost var freed := Free(p);
      SameIndex(n, start, brk, freed, at);
    }

    /** A store by the program into memory it holds. */
    method Write(p: int, i: int, b: Byte)
      requires Ready() && p in live && 0 <= i < |live[p]|
      modifies `img, `live
      ensures Ready() && img == old(img)[p + i := b]
      ensures p in live && live[p] == old(live)[p][i := b] && live == old(live)[p := live[p]]
    {
      hide Granted, HeaderAt, Tiled, Headers, Backed, SameOutside;
      ghost var before := img;
      ghost var k := Server(img, blocks, live, p);
      ghost var bytes := live[p];
      HeldBytes(img, blocks, live, p);
      ShownAt(img, p, bytes, i);
      img := img[p + i := b];
      OneByte(before, p + i, b);
      PayloadWritten(before, img, blocks, start, brk, k, p + i, p + i + 1);
      Rewritten(before, img, blocks, live, start, brk, k, p + i, p + i + 1, |bytes|);
      live := live[p := BytesFrom(img, p, |bytes|)];
      assert live[p] == bytes[i := b] by {
        SameButOne(before, img, p, bytes, i, b);
      }
    }

    /** malloc, free and malloc again: the same pointer, and no growth the second time. */
    method Again(size: int) returns (p: int, q: int)
      requires Ready() && 0 < size <= MAX_REQUEST
      modifies this
      ensures Ready() && q == p
      ensures p != 0 ==> brk == BreakAfter(old(blocks), old(brk), Round8(size))
    {
      hide Granted, HeaderAt, Tiled, SameHeld, Headers, Backed, SameOutside, Malloced, FirstFit, Round8, Freed;
      Round8Iff(size);
      Round8Size(size);
      ghost var was, top := blocks, brk;
      StableFit(was, start, top, Round8(size));
      p := Malloc(size);
      if p == 0 {
        return p, 0;
      }
      ghost var m := blocks;
      ghost var k := Free(p);
      SameIndex(m, start, brk, k, FirstFit(was, Round8(size)));
      MallocedKeeps(blocks, start, brk, Round8(size));
      q := Malloc(size);
    }
  }

  // ---- what the program holds, from call to call ------------------------------------------------------------------

  /** In any state between calls what the program holds lies in the heap, and no two of its pieces overlap. */
  lemma HeldApart(img: Img, blocks: seq<Block>, live: map<int, seq<Byte>>, start: int, brk: int, p: int, q: int)
    requires Tiled(blocks, start, brk) && Granted(img, blocks, live) && p in live && q in live
    ensures start < p && p + |live[p]| <= brk
    ensures p < q ==> p + |live[p]| + HDR <= q
  {
    hide Granted, Tiled;
    var j := Server(img, blocks, live, p);
    var k := Server(img, blocks, live, q);
    BlockSize(blocks, start, brk, j);
    if p < q {
      BlockSize(blocks, start, brk, k);
      if k < j {
        TiledOrder(blocks, start, brk, k, j);
      } else if j < k {
        TiledOrder(blocks, start, brk, j, k);
      }
    }
  }

  lemma Server(img: Img, blocks: seq<Block>, live: map<int, seq<Byte>>, p: int) returns (k: int)
    requires Granted(img, blocks, live) && p in live
    ensures 0 <= k < |blocks| && Serves(blocks[k], p, |live[p]|)
  {
    assert HasBlock(blocks, p, |live[p]|);
    k :| 0 <= k < |blocks| && Serves(blocks[k], p, |live[p]|);
  }

  lemma HeldBytes(img: Img, blocks: seq<Block>, live: map<int, seq<Byte>>, p: int)
    requires Granted(img, blocks, live) && p in live
    ensures Shows(img, p, live[p])
  {
  }

  lemma NullNotHeld(blocks: seq<Block>, live: map<int, seq<Byte>>, img: Img, start: int, brk: int)
    requires Granted(img, blocks, live) && Tiled(blocks, start, brk) && 0 < start
    ensures 0 !in live && live - {0} == live
  {
    if 0 in live {
      var k := Server(img, blocks, live, 0);
      BlockSize(blocks, start, brk, k);
    }
  }

  /** An entry outlives any operation that keeps its block and its payload. */
  lemma GrantKept(a: Img, was: seq<Block>, b: Img, now: seq<Block>, but: int, p: int, bytes: seq<Byte>)
    requires HasBlock(was, p, |bytes|) && Shows(a, p, bytes) && SameHeld(a, b, was, but)
    requires 0 <= but < |was| ==> was[but].addr + HDR != p
    requires forall x :: x in was && !x.free && (0 <= but < |was| ==> x.addr != was[but].addr) ==> x in now
    ensures HasBlock(now, p, |bytes|) && Shows(b, p, bytes)
  {
    var k :| 0 <= k < |was| && Serves(was[k], p, |bytes|);
    assert was[k] in was;
    var t :| 0 <= t < |now| && now[t] == was[k];
    assert Serves(now[t], p, |bytes|);
    StillShown(a, b, was, but, k, p, bytes);
  }

  lemma StillShown(a: Img, b: Img, was: seq<Block>, but: int, k: int, p: int, bytes: seq<Byte>)
    requires 0 <= k < |was| && k != but && Serves(was[k], p, |bytes|) && Shows(a, p, bytes) && SameHeld(a, b, was, but)
    ensures Shows(b, p, bytes)
  {
    forall i | 0 <= i < |bytes|
      ensures ByteAt(b, p, bytes, i)
    {
      ShownAt(a, p, bytes, i);
      assert Payload(was[k], p + i);
    }
  }

  lemma MallocGrants(a: Img, was: seq<Block>, live: map<int, seq<Byte>>, b: Img, start: int, top: int, p: int,
                     size: int, rounded: int)
    requires Granted(a, was, live) && Tiled(was, start, top) && rounded >= 8 && 0 <= size <= rounded
    requires var n := Malloced(was, top, rounded);
      && Backed(b, start, BreakAfter(was, top, rounded))
      && FirstFit(was, rounded) < |n| && p == n[FirstFit(was, rounded)].addr + HDR
    requires SameHeld(a, b, was, -1)
    ensures p !in live && Granted(b, Malloced(was, top, rounded), live[p := BytesFrom(b, p, size)])
  {
    hide Granted, Malloced, Tiled, SameHeld, FirstFit, BreakAfter, HasBlock, Shows, Backed;
    MallocedKeeps(was, start, top, rounded);
    NewBlockApart(was, start, top, rounded);
    var n, k := Malloced(was, top, rounded), FirstFit(was, rounded);
    NotHeldYet(a, was, n, live, start, BreakAfter(was, top, rounded), k);
    var more := live[p := BytesFrom(b, p, size)];
    forall q | q in more
      ensures HasBlock(n, q, |more[q]|) && Shows(b, q, more[q])
    {
      if q == p {
        NewGrant(b, n, start, BreakAfter(was, top, rounded), k, size);
      } else {
        GrantOf(a, was, live, q);
        GrantKept(a, was, b, n, -1, q, live[q]);
      }
    }
    forall i | 0 <= i < |n| && !n[i].free
      ensures n[i].addr + HDR in more
    {
      if n[i] != n[k] {
        HeldAll(a, was, live, n[i]);
      }
    }
    MakeGranted(b, n, more);
  }

  lemma GrantOf(img: Img, blocks: seq<Block>, live: map<int, seq<Byte>>, p: int)
    requires Granted(img, blocks, live) && p in live
    ensures HasBlock(blocks, p, |live[p]|) && Shows(img, p, live[p])
  {
  }

  lemma HeldAll(img: Img, blocks: seq<Block>, live: map<int, seq<Byte>>, b: Block)
    requires Granted(img, blocks, live) && b in blocks && !b.free
    ensures b.addr + HDR in live
  {
  }

  lemma MakeGranted(img: Img, blocks: seq<Block>, live: map<int, seq<Byte>>)
    requires forall p {:trigger p in live} :: p in live ==> HasBlock(blocks, p, |live[p]|) && Shows(img, p, live[p])
    requires forall k {:trigger blocks[k]} :: 0 <= k < |blocks| && !blocks[k].free ==> blocks[k].addr + HDR in live
    ensures Granted(img, blocks, live)
  {
  }

  /** The block just handed out serves no pointer held before. */
  lemma NotHeldYet(img: Img, was: seq<Block>, n: seq<Block>, live: map<int, seq<Byte>>, start: int, brk: int, k: int)
    requires Granted(img, was, live) && Tiled(n, start, brk) && 0 <= k < |n|
    requires forall b :: b in was && !b.free ==> b in n && b != n[k]
    ensures n[k].addr + HDR !in live
  {
    hide Granted, Tiled;
    var p := n[k].addr + HDR;
    if p in live {
      var i := Server(img, was, live, p);
      assert was[i] in was;
      var t :| 0 <= t < |n| && n[t] == was[i];
      AddressesApart(n, start, brk, t, k);
    }
  }

  lemma NewGrant(img: Img, blocks: seq<Block>, start: int, brk: int, k: int, n: nat)
    requires Tiled(blocks, start, brk) && Backed(img, start, brk) && 0 <= k < |blocks| && !blocks[k].free
    requires n <= blocks[k].size
    ensures HasBlock(blocks, blocks[k].addr + HDR, n)
    ensures Shows(img, blocks[k].addr + HDR, BytesFrom(img, blocks[k].addr + HDR, n))
  {
    BlockSize(blocks, start, brk, k);
    assert Serves(blocks[k], blocks[k].addr + HDR, n);
    var p := blocks[k].addr + HDR;
  }

  lemma FreeGrants(a: Img, was: seq<Block>, live: map<int, seq<Byte>>, b: Img, start: int, brk: int, p: int, k: int)
    requires Granted(a, was, live) && Tiled(was, start, brk) && 0 <= k < |was| && p == was[k].addr + HDR
    requires SameHeld(a, b, was, -1)
    ensures Granted(b, Freed(was, k), live - {p})
  {
    hide Granted, Freed, Tiled, SameHeld;
    FreedKeeps(was, start, brk, k);
    HeldExcept(a, b, was, k);
    OthersGranted(a, was, live, b, Freed(was, k), k);
  }

  lemma OthersGranted(a: Img, was: seq<Block>, live: map<int, seq<Byte>>, b: Img, n: seq<Block>, k: int)
    requires Granted(a, was, live) && 0 <= k < |was| && SameHeld(a, b, was, k)
    requires forall x :: x in was && !x.free && x.addr != was[k].addr ==> x in n
    requires forall x :: x in n && !x.free ==> x in was && x.addr != was[k].addr
    ensures Granted(b, n, live - {was[k].addr + HDR})
  {
    hide Granted, SameHeld, HasBlock, Shows;
    var less := live - {was[k].addr + HDR};
    forall q | q in less
      ensures HasBlock(n, q, |less[q]|) && Shows(b, q, less[q])
    {
      GrantOf(a, was, live, q);
      GrantKept(a, was, b, n, k, q, live[q]);
    }
    forall i | 0 <= i < |n| && !n[i].free
      ensures n[i].addr + HDR in less
    {
      assert n[i] in n;
      HeldAll(a, was, live, n[i]);
    }
    MakeGranted(b, n, less);
  }

  /** Bytes written inside one payload: that entry is as memory now shows it, the others are as before. */
  lemma Rewritten(a: Img, b: Img, blocks: seq<Block>, live: map<int, seq<Byte>>, start: int, brk: int, k: int, lo: int,
                  hi: int, n: nat)
    requires Granted(a, blocks, live) && Tiled(blocks, start, brk) && Backed(a, start, brk) && 0 <= k < |blocks|
    requires !blocks[k].free && n <= blocks[k].size && blocks[k].addr + HDR <= lo <= hi <= End(blocks[k])
    requires SameOutside(a, b, lo, hi)
    ensures var p := blocks[k].addr + HDR; Granted(b, blocks, live[p := BytesFrom(b, p, n)])
  {
    hide Granted, Tiled, SameHeld, HasBlock, Shows, Backed, SameOutside;
    var p := blocks[k].addr + HDR;
    var now := live[p := BytesFrom(b, p, n)];
    BackedKept(a, b, lo, hi, start, brk);
    NewGrant(b, blocks, start, brk, k, n);
    SameOutsideWider(a, b, lo, hi, blocks[k].addr, End(blocks[k]));
    HeldInside(a, b, blocks, start, brk, k);
    forall q | q in now
      ensures HasBlock(blocks, q, |now[q]|) && Shows(b, q, now[q])
    {
      if q != p {
        GrantOf(a, blocks, live, q);
        GrantKept(a, blocks, b, blocks, k, q, live[q]);
      }
    }
    forall i | 0 <= i < |blocks| && !blocks[i].free
      ensures blocks[i].addr + HDR in now
    {
      HeldAll(a, blocks, live, blocks[i]);
    }
    MakeGranted(b, blocks, now);
  }

  /** The two agree as far as both go. */
  predicate SamePrefix(a: seq<Byte>, b: seq<Byte>)
  {
    forall i :: 0 <= i < |a| && i < |b| ==> b[i] == a[i]
  }

  /** Block k is the one behind p. */
  predicate Gave(blocks: seq<Block>, k: int, p: int)
  {
    0 <= k < |blocks| && blocks[k].addr + HDR == p && !blocks[k].free
  }

  /** The list after realloc: the same if the block stayed; otherwise malloc's, and then that with the old block
      freed. */
  ghost predicate Resized(was: seq<Block>, top: int, k: int, size: int, now: seq<Block>, brk: int, stayed: bool)
    requires 0 <= k < |was|
  {
    if stayed then now == was && brk == top && size <= was[k].size
    else
      var n := Malloced(was, top, Round8(size));
      && brk == BreakAfter(was, top, Round8(size)) && was[k].size < size
      && exists at :: 0 <= at < |n| && n[at] == was[k] && now == Freed(n, at)
  }

  lemma StillThere(img: Img, blocks: seq<Block>, live: map<int, seq<Byte>>, start: int, brk: int, k: int, p: int,
                   size: nat)
    requires Granted(img, blocks, live) && p in live && 0 <= k < |blocks| && Serves(blocks[k], p, |live[p]|)
    ensures SamePrefix(live[p], BytesFrom(img, p, size))
    ensures live[p := BytesFrom(img, p, size)] == (live - {p})[p := BytesFrom(img, p, size)]
  {
    var was, now := live[p], BytesFrom(img, p, size);
    forall i | 0 <= i < |was| && i < |now|
      ensures now[i] == was[i]
    {
      ShownAt(img, p, was, i);
    }
  }

  lemma CopiedPrefix(a: Img, b: Img, blocks: seq<Block>, live: map<int, seq<Byte>>, p: int, np: int, have: int,
                     bytes: seq<Byte>, size: nat)
    requires Granted(a, blocks, live) && p in live && live[p] == bytes && |bytes| <= have
    requires Carried(a, p, b, np, have)
    ensures SamePrefix(bytes, BytesFrom(b, np, size))
  {
    forall i | 0 <= i < |bytes| && i < size
      ensures BytesFrom(b, np, size)[i] == bytes[i]
    {
      assert CarriedByte(a, p, b, np, np + i);
      ShownAt(a, p, bytes, i);
    }
  }

  lemma SameIndex(blocks: seq<Block>, start: int, brk: int, j: int, k: int)
    requires Tiled(blocks, start, brk) && 0 <= j < |blocks| && 0 <= k < |blocks| && blocks[j].addr == blocks[k].addr
    ensures j == k
  {
    if j != k {
      AddressesApart(blocks, start, brk, j, k);
    }
  }

  lemma ShownAt(img: Img, p: int, bytes: seq<Byte>, i: int)
    requires Shows(img, p, bytes) && 0 <= i < |bytes|
    ensures p + i in img && img[p + i] == bytes[i]
  {
    assert ByteAt(img, p, bytes, i);
  }

  lemma OneByte(img: Img, at: int, b: Byte)
    requires at in img
    ensures SameOutside(img, img[at := b], at, at + 1)
  {
  }

  lemma SameButOne(a: Img, b: Img, p: int, bytes: seq<Byte>, i: int, v: Byte)
    requires Shows(a, p, bytes) && 0 <= i < |bytes| && b == a[p + i := v]
    ensures BytesFrom(b, p, |bytes|) == bytes[i := v]
  {
    forall j | 0 <= j < |bytes|
      ensures BytesFrom(b, p, |bytes|)[j] == bytes[i := v][j]
    {
      ShownAt(a, p, bytes, j);
    }
  }

  /** The heap is where its bytes are: memory may differ outside [start, top). */
  lemma WithinKept(a: Img, b: Img, blocks: seq<Block>, start: int, top: int)
    requires Tiled(blocks, start, top) && Headers(a, blocks) && Backed(a, start, top) && SameWithin(a, b, start, top)
    ensures Headers(b, blocks) && Backed(b, start, top) && SameHeld(a, b, blocks, -1)
  {
    hide HeaderAt, Tiled, Payload, SameWithin, SameHeld, Backed;
    forall k | 0 <= k < |blocks|
      ensures HeaderAt(b, blocks[k], AddrOf(blocks, k + 1))
    {
      BlockSize(blocks, start, top, k);
      HeaderWithin(a, b, start, top, blocks[k], AddrOf(blocks, k + 1));
    }
    HeldWithin(a, b, blocks, start, top);
  }

  lemma HeaderWithin(a: Img, b: Img, start: int, top: int, block: Block, next: int)
    requires SameWithin(a, b, start, top) && HeaderAt(a, block, next)
    requires start <= block.addr && block.addr + HDR <= top
    ensures HeaderAt(b, block, next)
  {
    hide FromBytes;
  }

  lemma HeldWithin(a: Img, b: Img, blocks: seq<Block>, start: int, top: int)
    requires Tiled(blocks, start, top) && Backed(a, start, top) && SameWithin(a, b, start, top)
    ensures SameHeld(a, b, blocks, -1) && Backed(b, start, top)
  {
    hide Tiled, End, Payload;
    forall k, va | 0 <= k < |blocks| && !blocks[k].free && Payload(blocks[k], va)
      ensures va in a && va in b && b[va] == a[va]
    {
      PayloadsApart(blocks, start, top, k, k, va);
    }
  }

  lemma StillGranted(a: Img, b: Img, blocks: seq<Block>, live: map<int, seq<Byte>>, start: int, top: int)
    requires Granted(a, blocks, live) && Tiled(blocks, start, top) && Backed(a, start, top)
    requires SameWithin(a, b, start, top)
    ensures Granted(b, blocks, live)
  {
    hide Granted, HasBlock, Shows, Tiled, Backed, SameWithin, SameHeld;
    HeldWithin(a, b, blocks, start, top);
    forall p | p in live
      ensures HasBlock(blocks, p, |live[p]|) && Shows(b, p, live[p])
    {
      GrantOf(a, blocks, live, p);
      GrantKept(a, blocks, b, blocks, -1, p, live[p]);
    }
    forall i | 0 <= i < |blocks| && !blocks[i].free
      ensures blocks[i].addr + HDR in live
    {
      HeldAll(a, blocks, live, blocks[i]);
    }
    MakeGranted(b, blocks, live);
  }

  // ---- facts the methods use --------------------------------------------------------------------------------------

  /** A block of the list has an address and a header; behind the last there is the null pointer. */
  lemma HeaderFacts(img: Img, blocks: seq<Block>, start: int, brk: int, k: int)
    requires Headers(img, blocks) && Tiled(blocks, start, brk) && 0 < start && 0 <= k <= |blocks|
    ensures AddrOf(blocks, k) == 0 <==> k == |blocks|
    ensures k < |blocks| ==>
      && HeaderAt(img, blocks[k], AddrOf(blocks, k + 1))
      && HasWord(img, blocks[k].addr) && WordAt(img, blocks[k].addr) == blocks[k].size
      && HasWord(img, blocks[k].addr + 4) && WordAt(img, blocks[k].addr + 4) == AddrOf(blocks, k + 1)
      && HasWord(img, blocks[k].addr + 8) && WordAt(img, blocks[k].addr + 8) == Flag(blocks[k].free)
  {
    hide HasWord, WordAt, Tiled;
    if k < |blocks| {
      TiledBounds(blocks, start, brk, k);
    }
  }

  lemma NeedSmall(size: int)
    requires 8 <= size <= MAX_REQUEST
    ensures 4096 <= Need(size) < INT_LIMIT
  {
  }

  lemma MoreMemory(before: Img, after: Img, blocks: seq<Block>, start: int, top: int, brk: int)
    requires Backed(before, start, top) && Extends(before, after, top, brk) && start <= top <= brk
    ensures Backed(after, start, brk) && SameOutside(before, after, top, brk)
  {
  }

  lemma NextWord(a: Img, b: Img, at: int, v: int, start: int, brk: int, x: int)
    requires HasWord(a, at) && b == PutWord(a, at, v) && 0 <= v < WORD && Backed(a, start, brk) && start <= x
    requires x + 4 <= brk
    ensures Backed(b, start, brk) && HasWord(b, x) && SameOutside(a, b, at, at + 4)
  {
    hide ByteOf;
    PutFrame(a, at, v);
    BackedWord(b, start, brk, x);
  }

  /** The old headers are intact in memory that differs only behind the old break. */
  lemma OldHeaders(a: Img, b: Img, blocks: seq<Block>, start: int, top: int, brk: int)
    requires Headers(a, blocks) && Tiled(blocks, start, top) && SameOutside(a, b, top, brk) && Backed(a, start, top)
    ensures Headers(b, blocks) && SameHeld(a, b, blocks, -1)
  {
    hide HeaderAt, Tiled, SameOutside, SameHeld, Backed;
    forall k | 0 <= k < |blocks|
      ensures HeaderAt(b, blocks[k], AddrOf(blocks, k + 1))
    {
      BlockSize(blocks, start, top, k);
      SameHeader(a, b, top, brk, blocks[k], AddrOf(blocks, k + 1));
    }
    OldHeld(a, b, blocks, start, top, brk);
  }

  lemma OldHeld(a: Img, b: Img, blocks: seq<Block>, start: int, top: int, brk: int)
    requires Tiled(blocks, start, top) && SameOutside(a, b, top, brk) && Backed(a, start, top)
    ensures SameHeld(a, b, blocks, -1)
  {
    hide Tiled, End, Payload;
    forall k, va | 0 <= k < |blocks| && !blocks[k].free && Payload(blocks[k], va)
      ensures va in a && va in b && b[va] == a[va]
    {
      PayloadsApart(blocks, start, top, k, k, va);
    }
  }

  lemma NewBlock(before: Img, larger: Img, written: Img, was: seq<Block>, start: int, top: int, brk: int)
    requires 0 < start <= top && top + 4096 <= brk <= INT_LIMIT
    requires Headers(before, was) && Tiled(was, start, top) && Backed(before, start, top)
    requires SameOutside(before, larger, top, brk) && Backed(larger, start, brk)
    requires HasWord(larger, top) && HasWord(larger, top + 4) && HasWord(larger, top + 8)
    requires written == SetHeader(larger, top, brk - top - HDR, 0, 0)
    ensures Headers(written, was) && SameHeld(before, written, was, -1) && Backed(written, start, brk)
    ensures HeaderAt(written, Block(top, brk - top - HDR, false), 0)
  {
    hide HeaderAt, Tiled, SetHeader, PutWord, HasWord, SameHeld, Headers, Backed, SameOutside;
    SetHeaderIs(larger, Block(top, brk - top - HDR, false), 0);
    BackedKept(larger, written, top, top + HDR, start, brk);
    SameOutsideWider(larger, written, top, top + HDR, top, brk);
    SameOutsideTrans(before, larger, written, top, brk, brk, top, brk);
    OldHeaders(before, written, was, start, top, brk);
  }

  lemma FirstBlock(written: Img, was: seq<Block>, start: int, top: int, need: int)
    requires Tiled(was, start, top) && 0 < start && AddrOf(was, 0) == 0 && need >= HDR + 8
    requires HeaderAt(written, Block(top, need - HDR, false), 0)
    ensures Tiled(Grown(was, top, need), start, top + need) && Headers(written, Grown(was, top, need))
    ensures AddrOf(Grown(was, top, need), 0) == top
  {
    hide HeaderAt;
    assert was == [];
    GrownKeeps(was, start, top, need);
  }

  lemma LastWord(img: Img, was: seq<Block>, start: int, top: int, brk: int)
    requires was != [] && Headers(img, was) && Tiled(was, start, top) && 0 < start
    ensures HasWord(img, was[|was| - 1].addr + 4)
  {
    hide HasWord, WordAt, Headers, Tiled, HeaderAt;
    HeaderFacts(img, was, start, top, |was| - 1);
  }

  lemma LinkedBlock(before: Img, written: Img, img: Img, was: seq<Block>, start: int, top: int, need: int)
    requires was != [] && Headers(written, was) && Tiled(was, start, top) && 0 < start <= top && need >= HDR + 8
    requires Backed(written, start, top + need) && Backed(before, start, top) && top + need <= INT_LIMIT
    requires SameHeld(before, written, was, -1) && HeaderAt(written, Block(top, need - HDR, false), 0)
    requires HasWord(written, was[|was| - 1].addr + 4) && img == PutWord(written, was[|was| - 1].addr + 4, top)
    ensures Tiled(Grown(was, top, need), start, top + need) && Headers(img, Grown(was, top, need))
    ensures Backed(img, start, top + need) && SameHeld(before, img, was, -1)
    ensures AddrOf(Grown(was, top, need), 0) == AddrOf(was, 0)
  {
    hide HeaderAt, Tiled, PutWord, HasWord, WordAt, SameHeld, Headers, Backed, SameOutside, Grown;
    var k := |was| - 1;
    var b := was[k];
    HeaderFacts(written, was, start, top, k);
    TiledEnd(was, start, top, k);
    BlockSize(was, start, top, k);
    PutFrame(written, b.addr + 4, top);
    OneWord(written, img, b, top);
    SameHeader(written, img, b.addr + 4, b.addr + 8, Block(top, need - HDR, false), 0);
    SameOutsideWider(written, img, b.addr + 4, b.addr + 8, b.addr, b.addr + HDR);
    BackedKept(written, img, b.addr, b.addr + HDR, start, top + need);
    LessBacked(written, start, top + need, top);
    HeldHeader(written, img, was, start, top, k);
    HeldTrans(before, written, img, was, -1);
    SameOutsideWider(written, img, b.addr, b.addr + HDR, b.addr, End(b));
    GrownHeaders(written, img, was, start, top, need);
    GrownKeeps(was, start, top, need);
    GrownHolds(was, start, top, need);
    assert Grown(was, top, need)[..|was|][0] == was[0];
  }

  lemma LessBacked(img: Img, start: int, brk: int, top: int)
    requires Backed(img, start, brk) && top <= brk
    ensures Backed(img, start, top)
  {
  }

  lemma BlockSize(blocks: seq<Block>, start: int, brk: int, k: int)
    requires Tiled(blocks, start, brk) && 0 <= k < |blocks|
    ensures blocks[k].size >= 8 && start <= blocks[k].addr && End(blocks[k]) <= brk
  {
    TiledBounds(blocks, start, brk, k);
    TiledEnd(blocks, start, brk, k);
  }

  /** Only the next field of a header was rewritten. */
  lemma OneWord(a: Img, b: Img, block: Block, next: int)
    requires HasWord(a, block.addr) && WordAt(a, block.addr) == block.size
    requires HasWord(a, block.addr + 8) && WordAt(a, block.addr + 8) == Flag(block.free)
    requires SameOutside(a, b, block.addr + 4, block.addr + 8) && HasWord(b, block.addr + 4)
    requires WordAt(b, block.addr + 4) == next
    ensures HeaderAt(b, block, next)
  {
    hide WordAt, SameOutside, HasWord;
    SameWord(a, b, block.addr + 4, block.addr + 8, block.addr);
    SameWord(a, b, block.addr + 4, block.addr + 8, block.addr + 8);
  }

  /** Rewriting a header touches no live payload. */
  lemma HeldHeader(a: Img, b: Img, blocks: seq<Block>, start: int, brk: int, k: int)
    requires Tiled(blocks, start, brk) && 0 <= k < |blocks| && start <= brk
    requires SameOutside(a, b, blocks[k].addr, blocks[k].addr + HDR) && Backed(a, start, brk)
    ensures SameHeld(a, b, blocks, -1)
  {
    hide Tiled, End, Payload;
    forall j, va | 0 <= j < |blocks| && !blocks[j].free && Payload(blocks[j], va)
      ensures va in a && va in b && b[va] == a[va]
    {
      PayloadsApart(blocks, start, brk, j, k, va);
    }
  }

  lemma HeldTrans(a: Img, b: Img, c: Img, blocks: seq<Block>, but: int)
    requires SameHeld(a, b, blocks, but) && SameHeld(b, c, blocks, but)
    ensures SameHeld(a, c, blocks, but)
  {
  }

  lemma HeldRefl(a: Img, blocks: seq<Block>, start: int, brk: int, but: int)
    requires Tiled(blocks, start, brk) && Backed(a, start, brk)
    ensures SameHeld(a, a, blocks, but)
  {
    forall j, va | 0 <= j < |blocks| && Payload(blocks[j], va)
      ensures va in a
    {
      PayloadsApart(blocks, start, brk, j, j, va);
    }
  }

  lemma KeepsWord(img: Img, at: int, v: int, x: int)
    requires HasWord(img, x)
    ensures HasWord(PutWord(img, at, v), x)
  {
    hide ByteOf;
  }

  lemma SameOutsideRefl(a: Img, lo: int, hi: int)
    ensures SameOutside(a, a, lo, hi)
  {
  }

  lemma NotSplit(blocks: seq<Block>, k: int, size: int)
    requires 0 <= k < |blocks| && blocks[k].size < size + HDR + 8
    ensures Split(blocks, k, size) == blocks
  {
  }

  /** The header of the remainder, written inside block k. */
  lemma RestWritten(before: Img, i3: Img, was: seq<Block>, start: int, brk: int, k: int, size: int)
    requires Tiled(was, start, brk) && 0 < start && brk <= INT_LIMIT && 0 <= k < |was| && size >= 8
    requires was[k].size >= size + HDR + 8 && Backed(before, start, brk) && Headers(before, was)
    requires var rest := was[k].addr + HDR + size;
      && HasWord(before, rest) && HasWord(before, rest + 4) && HasWord(before, rest + 8)
      && i3 == SetHeader(before, rest, was[k].size - size - HDR, AddrOf(was, k + 1), 1)
    ensures var rest := was[k].addr + HDR + size;
      && SameOutside(before, i3, rest, rest + HDR)
      && HeaderAt(i3, Block(rest, was[k].size - size - HDR, true), AddrOf(was, k + 1))
    ensures HeaderAt(i3, was[k], AddrOf(was, k + 1)) && HasWord(i3, was[k].addr) && HasWord(i3, was[k].addr + 4)
    ensures 0 <= AddrOf(was, k + 1) < WORD
  {
    hide Tiled, SetHeader, HasWord, WordAt, SameOutside, Backed;
    BlockSize(was, start, brk, k);
    if k + 1 < |was| {
      BlockSize(was, start, brk, k + 1);
    }
    var rest := was[k].addr + HDR + size;
    SetHeaderIs(before, Block(rest, was[k].size - size - HDR, true), AddrOf(was, k + 1));
    SameHeader(before, i3, rest, rest + HDR, was[k], AddrOf(was, k + 1));
  }

  lemma SplitWritten(before: Img, i3: Img, img: Img, was: seq<Block>, start: int, brk: int, k: int, size: int)
    requires Tiled(was, start, brk) && 0 < start && brk <= INT_LIMIT && 0 <= k < |was| && size >= 8
    requires was[k].size >= size + HDR + 8 && Backed(before, start, brk) && Headers(before, was)
    requires var rest := was[k].addr + HDR + size;
      && SameOutside(before, i3, rest, rest + HDR)
      && HeaderAt(i3, Block(rest, was[k].size - size - HDR, true), AddrOf(was, k + 1))
      && HeaderAt(i3, was[k], AddrOf(was, k + 1))
      && img == PutWord(PutWord(i3, was[k].addr, size), was[k].addr + 4, rest)
    ensures Headers(img, Split(was, k, size)) && Tiled(Split(was, k, size), start, brk) && Backed(img, start, brk)
    ensures AddrOf(Split(was, k, size), 0) == AddrOf(was, 0)
    ensures SameHeld(before, img, was, k) && SameOutside(before, img, was[k].addr, End(was[k]))
  {
    hide Tiled, HasWord, WordAt, SameOutside, Backed, Headers, SameHeld, PutWord, HeaderAt, Split;
    var b := was[k];
    var rest := b.addr + HDR + size;
    BlockSize(was, start, brk, k);
    SplitKeeps(was, start, brk, k, size);
    SplitAt(was, k, size, k);
    SplitAt(was, k, size, k + 1);
    SplitAt(was, k, size, 0);
    TwoWords(i3, img, b, AddrOf(was, k + 1), size, rest);
    SameHeader(i3, img, b.addr, b.addr + 8, Block(rest, b.size - size - HDR, true), AddrOf(was, k + 1));
    SameOutsideWider(before, i3, rest, rest + HDR, b.addr, End(b));
    SameOutsideWider(i3, img, b.addr, b.addr + 8, b.addr, End(b));
    SameOutsideTrans(before, i3, img, b.addr, End(b), End(b), b.addr, End(b));
    BackedKept(before, img, b.addr, End(b), start, brk);
    HeldInside(before, img, was, start, brk, k);
    SplitHeaders(before, img, was, start, brk, k, size);
  }

  /** The size and next fields of a header rewritten. */
  lemma TwoWords(a: Img, b: Img, block: Block, next: int, size: int, next': int)
    requires HeaderAt(a, block, next) && 0 <= size < WORD && 0 <= next' < WORD
    requires b == PutWord(PutWord(a, block.addr, size), block.addr + 4, next')
    ensures HeaderAt(b, Block(block.addr, size, block.free), next') && SameOutside(a, b, block.addr, block.addr + 8)
  {
    hide HasWord, WordAt, SameOutside, PutWord;
    var m := PutWord(a, block.addr, size);
    PutFrame(a, block.addr, size);
    SameWord(a, m, block.addr, block.addr + 4, block.addr + 4);
    SameWord(a, m, block.addr, block.addr + 4, block.addr + 8);
    PutFrame(m, block.addr + 4, next');
    SameWord(m, b, block.addr + 4, block.addr + 8, block.addr);
    SameWord(m, b, block.addr + 4, block.addr + 8, block.addr + 8);
    SameOutsideWider(m, b, block.addr + 4, block.addr + 8, block.addr, block.addr + 8);
    SameOutsideTrans(a, m, b, block.addr, block.addr + 4, block.addr + 8, block.addr, block.addr + 8);
  }

  /** The free field of a header rewritten. */
  lemma Flagged(before: Img, img: Img, was: seq<Block>, start: int, brk: int, k: int, free: bool)
    requires Tiled(was, start, brk) && 0 <= k < |was| && Headers(before, was) && Backed(before, start, brk) && 0 < start
    requires HasWord(before, was[k].addr + 8) && img == PutWord(before, was[k].addr + 8, Flag(free))
    ensures Headers(img, SetFree(was, k, free)) && Tiled(SetFree(was, k, free), start, brk) && Backed(img, start, brk)
    ensures AddrOf(SetFree(was, k, free), 0) == AddrOf(was, 0)
    ensures SetFree(was, k, free)[k] == Block(was[k].addr, was[k].size, free) && |SetFree(was, k, free)| == |was|
    ensures AddrOf(SetFree(was, k, free), k + 1) == AddrOf(was, k + 1)
    ensures SameOutside(before, img, was[k].addr, was[k].addr + HDR)
  {
    hide Tiled, WordAt, HasWord, SameOutside, Backed, Headers, PutWord, HeaderAt;
    var b := was[k];
    BlockSize(was, start, brk, k);
    HeaderFacts(before, was, start, brk, k);
    PutFrame(before, b.addr + 8, Flag(free));
    FlagWord(before, img, b, AddrOf(was, k + 1), free);
    SameOutsideWider(before, img, b.addr + 8, b.addr + 12, b.addr, b.addr + HDR);
    SameOutsideWider(before, img, b.addr + 8, b.addr + 12, b.addr, End(b));
    BackedKept(before, img, b.addr, b.addr + HDR, start, brk);
    SetFreeKeeps(was, start, brk, k, free);
    OneHeader(before, img, was, start, brk, k, Block(b.addr, b.size, free));
  }

  lemma FlagWord(a: Img, b: Img, block: Block, next: int, free: bool)
    requires HeaderAt(a, block, next) && SameOutside(a, b, block.addr + 8, block.addr + 12)
    requires HasWord(b, block.addr + 8) && WordAt(b, block.addr + 8) == Flag(free)
    ensures HeaderAt(b, Block(block.addr, block.size, free), next)
  {
    hide HasWord, WordAt, SameOutside;
    SameWord(a, b, block.addr + 8, block.addr + 12, block.addr);
    SameWord(a, b, block.addr + 8, block.addr + 12, block.addr + 4);
  }

  /** One turn of the coalescing loop. */
  lemma Merged(before: Img, cur: Img, img: Img, now: seq<Block>, start: int, brk: int, k: int)
    requires Tiled(now, start, brk) && 0 <= k && k + 1 < |now| && Headers(cur, now) && Backed(cur, start, brk)
    requires 0 < start && brk <= INT_LIMIT && SameOutside(before, cur, now[k].addr, now[k].addr + HDR)
    requires img ==
      PutWord(PutWord(cur, now[k].addr, now[k].size + HDR + now[k + 1].size), now[k].addr + 4, AddrOf(now, k + 2))
    ensures Headers(img, Merge(now, k)) && Tiled(Merge(now, k), start, brk) && Backed(img, start, brk)
    ensures AddrOf(Merge(now, k), 0) == AddrOf(now, 0) && AddrOf(Merge(now, k), k + 1) == AddrOf(now, k + 2)
    ensures |Merge(now, k)| == |now| - 1 && Merge(now, k)[k].addr == now[k].addr
    ensures SameOutside(before, img, now[k].addr, now[k].addr + HDR)
  {
    hide Tiled, WordAt, HasWord, SameOutside, Backed, Headers, PutWord, HeaderAt, Merge;
    var b := now[k];
    BlockSize(now, start, brk, k);
    BlockSize(now, start, brk, k + 1);
    HeaderFacts(cur, now, start, brk, k);
    if k + 2 < |now| {
      BlockSize(now, start, brk, k + 2);
    }
    MergeKeeps(now, start, brk, k);
    MergeAt(now, k, k);
    MergeAt(now, k, k + 1);
    MergeAt(now, k, 0);
    Adjacent(now, start, brk, k);
    TwoWords(cur, img, b, AddrOf(now, k + 1), b.size + HDR + now[k + 1].size, AddrOf(now, k + 2));
    SameOutsideWider(cur, img, b.addr, b.addr + 8, b.addr, End(b));
    SameOutsideWider(cur, img, b.addr, b.addr + 8, b.addr, b.addr + HDR);
    BackedKept(cur, img, b.addr, End(b), start, brk);
    MergeHeaders(cur, img, now, start, brk, k);
    SameOutsideTrans(before, cur, img, b.addr, b.addr + HDR, b.addr + HDR, b.addr, b.addr + HDR);
  }

  lemma Neighbour(blocks: seq<Block>, start: int, brk: int, k: int)
    requires Tiled(blocks, start, brk) && 0 <= k < |blocks|
    ensures k + 1 < |blocks| ==> blocks[k].addr + HDR + blocks[k].size == blocks[k + 1].addr
  {
  }

  lemma Adjacent(blocks: seq<Block>, start: int, brk: int, k: int)
    requires Tiled(blocks, start, brk) && 0 <= k && k + 1 < |blocks|
    ensures End(blocks[k]) == blocks[k + 1].addr
  {
  }

  lemma Round8Is(size: int)
    ensures Round8(size) == (size + 7) % WORD / 8 * 8
  {
  }

  lemma Round8Size(size: int)
    requires 0 < size <= MAX_REQUEST
    ensures 8 <= Round8(size) <= MAX_REQUEST
  {
  }

  /** The block being split was free, so no live payload changed at all. */
  lemma SplitFree(a: Img, b: Img, blocks: seq<Block>, k: int)
    requires 0 <= k < |blocks| && blocks[k].free && SameHeld(a, b, blocks, k)
    ensures SameHeld(a, b, blocks, -1)
  {
  }

  /** Marking the first half used after a split touches no payload that was live before. */
  lemma SplitHeld(before: Img, cut: Img, img: Img, was: seq<Block>, start: int, brk: int, k: int)
    requires Tiled(was, start, brk) && 0 <= k < |was| && SameHeld(before, cut, was, -1) && Backed(cut, start, brk)
    requires SameOutside(cut, img, was[k].addr, was[k].addr + HDR) && start <= brk
    ensures SameHeld(before, img, was, -1)
  {
    hide Tiled, SameOutside, Backed, SameHeld;
    HeldHeader(cut, img, was, start, brk, k);
    HeldTrans(before, cut, img, was, -1);
  }

  lemma GrownIs(was: seq<Block>, top: int, start: int, size: int)
    requires Tiled(was, start, top) && size >= 8
    ensures var g := Grown(was, top, Need(size));
      && |g| == |was| + 1 && g[|was|] == Block(top, Need(size) - HDR, false) && size <= Need(size) - HDR
      && g[..|was|] == was
  {
    NeedCovers(size);
    GrownHolds(was, start, top, Need(size));
  }

  lemma GrownHeld(before: Img, more: Img, img: Img, was: seq<Block>, grown: seq<Block>, k: int)
    requires SameHeld(before, more, was, -1) && SameHeld(more, img, grown, k) && k == |was| && |grown| == k + 1
    requires grown[..k] == was
    ensures SameHeld(before, img, was, -1)
  {
    forall j, va | 0 <= j < |was| && !was[j].free && Payload(was[j], va)
      ensures va in before && va in img && img[va] == before[va]
    {
      assert grown[j] == grown[..k][j];
      assert Payload(grown[j], va);
    }
  }

  lemma MarkedAt(blocks: seq<Block>, k: int, free: bool)
    requires 0 <= k < |blocks|
    ensures |SetFree(blocks, k, free)| == |blocks| && SetFree(blocks, k, free)[k].addr == blocks[k].addr
  {
  }

  lemma AlreadyUsed(blocks: seq<Block>, k: int)
    requires 0 <= k < |blocks| && !blocks[k].free
    ensures SetFree(blocks, k, false) == blocks
  {
  }

  lemma Product(n: int, size: int)
    requires 0 <= n && 0 <= size && n * size < WORD
    ensures n * size % WORD == n * size && 0 <= n * size
  {
  }

  /** Writing inside a payload leaves every header as it is. */
  lemma PayloadWritten(a: Img, b: Img, blocks: seq<Block>, start: int, brk: int, k: int, lo: int, hi: int)
    requires Tiled(blocks, start, brk) && 0 <= k < |blocks| && Headers(a, blocks) && Backed(a, start, brk)
    requires blocks[k].addr + HDR <= lo <= hi <= End(blocks[k]) && SameOutside(a, b, lo, hi)
    ensures Headers(b, blocks) && Backed(b, start, brk)
  {
    hide HeaderAt, Tiled, SameOutside, Headers, Backed;
    HeaderOf(a, blocks, k);
    SameHeader(a, b, lo, hi, blocks[k], AddrOf(blocks, k + 1));
    SameOutsideWider(a, b, lo, hi, blocks[k].addr, End(blocks[k]));
    BackedKept(a, b, lo, hi, start, brk);
    OneHeader(a, b, blocks, start, brk, k, blocks[k]);
    assert blocks[k := blocks[k]] == blocks;
  }

  /** One more byte of a copy whose source and destination do not overlap. */
  lemma CarriedGrows(before: Img, src: int, now: Img, dst: int, n: int, i: int)
    requires Carried(before, src, now, dst, i) && 0 <= i < n && SameOutside(before, now, dst, dst + n)
    requires src + i in before && !(dst <= src + i < dst + n)
    ensures src + i in now && Carried(before, src, now[dst + i := now[src + i]], dst, i + 1)
  {
    assert src + i in now && now[src + i] == before[src + i];
    var next := now[dst + i := now[src + i]];
    forall va | dst <= va < dst + i + 1
      ensures CarriedByte(before, src, next, dst, va)
    {
      assert va < dst + i ==> CarriedByte(before, src, now, dst, va);
    }
  }

  /** The source of a copy is in memory, and the destination does not overlap it. */
  lemma SourceApart(img: Img, blocks: seq<Block>, start: int, brk: int, j: int, k: int, n: int, x: int)
    requires Tiled(blocks, start, brk) && 0 <= j < |blocks| && 0 <= k < |blocks| && j != k && Backed(img, start, brk)
    requires 0 <= n <= blocks[j].size && n <= blocks[k].size && blocks[k].addr + HDR <= x < blocks[k].addr + HDR + n
    ensures x in img && !(blocks[j].addr + HDR <= x < blocks[j].addr + HDR + n)
  {
    hide Tiled;
    PayloadsApart(blocks, start, brk, k, j, x);
  }

  /** The block malloc hands out is none of those that were live, and all of those are still in the list. */
  lemma NewBlockApart(was: seq<Block>, start: int, top: int, size: int)
    requires Tiled(was, start, top) && size >= 8
    ensures var j, n := FirstFit(was, size), Malloced(was, top, size);
      && 0 <= j < |n| && n[j].size >= size
      && (forall b :: b in was && !b.free ==> b in n && b != n[j])
  {
    hide Tiled, Malloced;
    MallocedKeeps(was, start, top, size);
    var j, n := FirstFit(was, size), Malloced(was, top, size);
    if j < |was| {
      FitsAt(was, size);
    }
    forall b | b in was && !b.free
      ensures b != n[j]
    {
      var i :| 0 <= i < |was| && was[i] == b;
      BlockSize(was, start, top, i);
      if j < |was| {
        AddressesApart(was, start, top, i, j);
      }
    }
  }

  /** A write inside the new block touches no payload that was live before. */
  lemma HeldThrough(was: seq<Block>, n: seq<Block>, a: Img, b: Img, start: int, brk: int, j: int, lo: int, hi: int)
    requires Tiled(n, start, brk) && 0 <= j < |n| && Backed(a, start, brk) && SameOutside(a, b, lo, hi)
    requires n[j].addr + HDR <= lo <= hi <= End(n[j])
    requires forall x :: x in was && !x.free ==> x in n && x != n[j]
    ensures SameHeld(a, b, was, -1)
  {
    hide Tiled, SameOutside, Backed;
    SameOutsideWider(a, b, lo, hi, n[j].addr, End(n[j]));
    HeldInside(a, b, n, start, brk, j);
    forall i, va | 0 <= i < |was| && !was[i].free && Payload(was[i], va)
      ensures va in a && va in b && b[va] == a[va]
    {
      assert was[i] in was;
      var t :| 0 <= t < |n| && n[t] == was[i];
      assert Payload(n[t], va);
    }
  }

  ghost function IndexOf(blocks: seq<Block>, b: Block): (i: int)
    requires b in blocks
    ensures 0 <= i < |blocks| && blocks[i] == b
  {
    var i :| 0 <= i < |blocks| && blocks[i] == b; i
  }

  lemma HeldExcept(a: Img, b: Img, blocks: seq<Block>, k: int)
    requires SameHeld(a, b, blocks, -1)
    ensures SameHeld(a, b, blocks, k)
  {
  }

}
