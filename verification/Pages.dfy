/** Page-aligned addresses: rounding, stepping from page to page, and the bytes of a page. */
module Pages {
  import opened Arith
  import opened Words
  import opened Paging
  import opened Address
  import opened UserSpace

  function RoundDown(a: int): int
  {
    a / PAGE * PAGE
  }

  function RoundUp(a: int): int
  {
    (a + 0xFFF) / PAGE * PAGE
  }

  /** The page addresses from `from` up to `to`. */
  function PageList(from: int, to: int): (p: seq<int>)
    decreases to - from
  {
    if from >= to then [] else [from] + PageList(from + PAGE, to)
  }

  function PageAddr(d: int, t: int): int
  {
    d * 0x40_0000 + t * 0x1000
  }

  /** Where an address lies relative to its page. */
  lemma PageOf(va: int, d: int, t: int)
    requires 0 <= va < WORD && Slot(d) && Slot(t)
    ensures InPage(va, d, t) <==> RoundDown(va) == PageAddr(d, t)
    ensures RoundDown(PageAddr(d, t)) == PageAddr(d, t)
    ensures DirOf(PageAddr(d, t)) == d && TableOf(PageAddr(d, t)) == t
  {
    AddressParts(va);
    PageAddress(d, t, 0);
    PageAddress(DirOf(va), TableOf(va), WordOf(va) * 4 + va % 4);
    Quotient(va, PAGE, DirOf(va) * 1024 + TableOf(va), WordOf(va) * 4 + va % 4);
    Quotient(PageAddr(d, t), PAGE, d * 1024 + t, 0);
  }

  lemma AlignedAddress(a: int)
    requires 0 <= a < WORD && a % PAGE == 0
    ensures a == PageAddr(DirOf(a), TableOf(a)) && RoundDown(a) == a
    ensures Slot(DirOf(a)) && Slot(TableOf(a))
  {
    AddressParts(a);
    Quotient(a, PAGE, DirOf(a) * 1024 + TableOf(a), WordOf(a) * 4 + a % 4);
  }

  /** Distinct pages are at least a page apart. */
  lemma PagesApart(d: int, t: int, e: int, u: int)
    requires Slot(t) && Slot(u)
    ensures PageAddr(d, t) == PageAddr(e, u) <==> d == e && t == u
    ensures PageAddr(d, t) < PageAddr(e, u) ==> PageAddr(d, t) + PAGE <= PageAddr(e, u)
  {
  }

  lemma RoundDownAligned(va: int, a: int)
    requires a % PAGE == 0
    ensures RoundDown(va) < a + PAGE <==> RoundDown(va) < a || RoundDown(va) == a
  {
  }

  lemma UserAddress(a: int)
    requires 0x40_0000 <= a < 0xC000_0000
    ensures UserDir(DirOf(a)) && 0 <= a < WORD
  {
  }

  lemma RoundFacts(a: int, low: int)
    requires 0 <= low <= a && low % PAGE == 0
    ensures low <= RoundDown(a) <= a && RoundDown(a) % PAGE == 0
    ensures a <= RoundUp(a) < a + PAGE && RoundUp(a) % PAGE == 0
  {
  }

  lemma RoundUpMonotone(a: int, b: int)
    requires a <= b
    ensures RoundUp(a) <= RoundUp(b)
  {
  }

  lemma PageBelow(a: int, to: int)
    requires a % PAGE == 0 && a < to
    ensures a + PAGE <= RoundUp(to)
  {
  }

  lemma PageAbove(a: int, to: int)
    requires a % PAGE == 0 && to <= a <= RoundUp(to)
    ensures a == RoundUp(to)
  {
  }

  lemma NextPage(a: int, to: int)
    requires a % PAGE == 0 && to <= a < to + PAGE
    ensures a == RoundUp(to)
  {
  }

  lemma ZeroBytes(d: int, t: int, va: int)
    requires 0 <= va < WORD
    ensures va in PageBytes(ZeroPage(), d, t) <==> InPage(va, d, t)
    ensures va in PageBytes(ZeroPage(), d, t) ==> PageBytes(ZeroPage(), d, t)[va] == 0
  {
    AddressParts(va);
    ZeroByte(va % 4);
  }

  /** The bytes of a page are in the image exactly when the page is mapped. */
  lemma MappedPageBytes(n: Space, D: int, a: int, va: int)
    requires Inv(n) && D in n.dirs && 0 <= va < WORD && 0 <= a < WORD
    requires UserDir(DirOf(a))
    ensures InPage(va, DirOf(a), TableOf(a)) ==> (va in Image(n.mem, D) <==> WalkEntry(n.mem, D, a).present)
  {
    hide Image, Inv;
    ImageAt(n, D, va);
  }
}
