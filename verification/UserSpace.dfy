/** What user mode sees through a page directory, byte by byte, and why address spaces are isolated. */
module UserSpace {
  import opened Arith
  import opened Words
  import opened Paging
  import opened Address
  import opened Mapping
  import opened Directories

  function ByteAt(mem: seq<Page>, D: int, va: int): Byte
    requires WalkEntry(mem, D, va).frame < |mem| && Slot(WordOf(va))
  {
    GetByte(mem[WalkEntry(mem, D, va).frame][WordOf(va)], va % 4)
  }

  /** Every byte user mode can reach through directory D. */
  ghost function Image(mem: seq<Page>, D: int): map<int, Byte>
  {
    map va | 0 <= va < WORD && UserReaches(mem, D, va) && WalkEntry(mem, D, va).frame < |mem| && Slot(WordOf(va)) ::
      ByteAt(mem, D, va)
  }

  predicate InPage(va: int, d: int, t: int)
  {
    0 <= va < WORD && DirOf(va) == d && TableOf(va) == t
  }

  /** The bytes of a page seen at directory entry d, table entry t. */
  ghost function PageBytes(p: Page, d: int, t: int): map<int, Byte>
  {
    map va | 0 <= va < WORD && InPage(va, d, t) && Slot(WordOf(va)) :: GetByte(p[WordOf(va)], va % 4)
  }

  /** In a valid state user mode reaches exactly the present pages of the user half. */
  lemma ReachesIff(s: Space, D: int, va: int)
    requires Inv(s) && D in s.dirs && 0 <= va < WORD
    ensures Slot(DirOf(va)) && Slot(TableOf(va)) && Slot(WordOf(va))
    ensures UserReaches(s.mem, D, va) <==> UserDir(DirOf(va)) && WalkEntry(s.mem, D, va).present
    ensures UserReaches(s.mem, D, va) ==>
      var f := WalkEntry(s.mem, D, va).frame;
      0 <= f < |s.mem| && f in s.own && s.own[f] == Leaf(D, DirOf(va), TableOf(va))
  {
    AddressParts(va);
    var d, t := DirOf(va), TableOf(va);
    hide DirOf, TableOf, WordOf;
    if UserDir(d) {
      assert WalkEntry(s.mem, D, va) == Pte(s.mem, D, d, t);
    } else if KernelDir(d) {
      assert Pde(s.mem, D, d) == Pde(s.mem, s.kdir, d);
    } else {
      assert d == WINDOW;
      assert Pde(s.mem, D, WINDOW) == WindowEntry(D);
    }
  }

  /** What user mode can read it can write: the image of a live directory is all there is to store to. */
  lemma WritesIff(s: Space, D: int, va: int)
    requires Inv(s) && D in s.dirs
    ensures UserWrites(s.mem, D, va) <==> UserReaches(s.mem, D, va)
    ensures va in Image(s.mem, D) <==> 0 <= va < WORD && UserWrites(s.mem, D, va)
  {
    if 0 <= va < WORD {
      ReachesIff(s, D, va);
      assert UserReaches(s.mem, D, va) ==> WalkEntry(s.mem, D, va) == Pte(s.mem, D, DirOf(va), TableOf(va));
    }
  }

  /** The image, address by address, in terms of the table entries. */
  lemma ImageAt(s: Space, D: int, va: int)
    requires Inv(s) && D in s.dirs && 0 <= va < WORD
    ensures var e := Pte(s.mem, D, DirOf(va), TableOf(va));
      && Slot(WordOf(va))
      && (va in Image(s.mem, D) <==> UserDir(DirOf(va)) && e.present)
      && (va in Image(s.mem, D) ==> 0 <= e.frame < |s.mem| && Owns(s, e.frame, Leaf(D, DirOf(va), TableOf(va))))
      && (va in Image(s.mem, D) ==> Image(s.mem, D)[va] == GetByte(s.mem[e.frame][WordOf(va)], va % 4))
  {
    ReachesIff(s, D, va);
  }

  lemma PageBytesAt(p: Page, d: int, t: int, va: int)
    requires 0 <= va < WORD && Slot(WordOf(va))
    ensures va in PageBytes(p, d, t) <==> DirOf(va) == d && TableOf(va) == t
    ensures va in PageBytes(p, d, t) ==> PageBytes(p, d, t)[va] == GetByte(p[WordOf(va)], va % 4)
  {
  }

  lemma SameKeys(a: map<int, Byte>, b: map<int, Byte>)
    requires forall va :: va in a ==> 0 <= va < WORD
    requires forall va :: va in b ==> 0 <= va < WORD
    requires forall va :: 0 <= va < WORD ==> (va in a <==> va in b)
    requires forall va :: 0 <= va < WORD && va in b ==> a[va] == b[va]
    ensures a == b
  {
    forall va
      ensures va in a <==> va in b
    {
      assert va in a || va in b ==> 0 <= va < WORD;
    }
    forall va | va in b
      ensures a[va] == b[va]
    {
      assert 0 <= va < WORD;
    }
  }

  lemma ImageRange(mem: seq<Page>, D: int)
    ensures forall va :: va in Image(mem, D) ==> 0 <= va < WORD
    ensures forall p, d, t, va {:trigger va in PageBytes(p, d, t)} :: va in PageBytes(p, d, t) ==> 0 <= va < WORD
  {
  }

  /** Isolation: whatever user mode reaches is a page of its own address space, at that one address;
      no directory, page table, kernel frame or page of another space is ever within reach. */
  lemma UserIsolation(s: Space, D: int, E: int, va: int, vb: int)
    requires Inv(s) && D in s.dirs && E in s.dirs && 0 <= va < WORD && 0 <= vb < WORD
    requires UserReaches(s.mem, D, va) && UserReaches(s.mem, E, vb)
    ensures WalkEntry(s.mem, D, va).frame in s.own
    ensures s.own[WalkEntry(s.mem, D, va).frame] == Leaf(D, DirOf(va), TableOf(va))
    ensures WalkEntry(s.mem, D, va).frame == WalkEntry(s.mem, E, vb).frame <==>
      D == E && DirOf(va) == DirOf(vb) && TableOf(va) == TableOf(vb)
  {
    ReachesIff(s, D, va);
    ReachesIff(s, E, vb);
  }

  /** Kernel addresses (the identity map, the heap, the scratch slots) translate alike in every live directory. */
  lemma KernelAgreement(s: Space, D: int, E: int, va: int)
    requires Inv(s) && D in s.dirs && E in s.dirs && KernelDir(DirOf(va))
    ensures Pde(s.mem, D, DirOf(va)) == Pde(s.mem, E, DirOf(va))
    ensures WalkEntry(s.mem, D, va) == WalkEntry(s.mem, E, va)
  {
    assert Pde(s.mem, D, DirOf(va)) == Pde(s.mem, s.kdir, DirOf(va));
    assert Pde(s.mem, E, DirOf(va)) == Pde(s.mem, s.kdir, DirOf(va));
  }

  /** The mapping law: outside the recursive window, paging_map changes the translation of the mapped page in the
      current directory and of no other address in any directory. */
  lemma MappingLaw(s: Space, n: Space, D: int, d: int, t: int, w: Word, table: int, E: int, va: int)
    requires Inv(s) && UserDir(d) && MapsPage(s, n, D, d, t, w, table) && E in s.dirs
    requires 0 <= va < WORD && DirOf(va) != WINDOW
    ensures WalkEntry(n.mem, E, va) == if E == D && InPage(va, d, t) then w else WalkEntry(s.mem, E, va)
    ensures !(E == D && InPage(va, d, t)) ==> (UserReaches(n.mem, E, va) <==> UserReaches(s.mem, E, va))
  {
    AddressParts(va);
    ReachesIff(s, E, va);
    ReachesIff(n, E, va);
  }

  /** Pages that user mode can see and that did not change look the same. */
  ghost predicate SameUserPages(s: Space, n: Space, E: int)
  {
    forall f {:trigger n.mem[f]} :: 0 <= f < |s.mem| && 0 <= f < |n.mem| && f in s.own ==>
      (s.own[f].Leaf? && s.own[f].dir == E ==> n.mem[f] == s.mem[f])
  }

  /** A directory whose user entries and pages are unchanged shows user mode the same bytes. */
  lemma ImageKept(s: Space, n: Space, E: int)
    requires Inv(s) && Inv(n) && E in s.dirs && E in n.dirs && |s.mem| == |n.mem|
    requires SameUserEntries(s, n) && SameUserPages(s, n, E)
    ensures Image(n.mem, E) == Image(s.mem, E)
  {
    forall va | 0 <= va < WORD
      ensures va in Image(n.mem, E) <==> va in Image(s.mem, E)
      ensures va in Image(s.mem, E) ==> Image(n.mem, E)[va] == Image(s.mem, E)[va]
    {
      ReachesIff(s, E, va);
      ReachesIff(n, E, va);
      hide DirOf, TableOf, WordOf, Inv;
      if UserDir(DirOf(va)) {
        assert Pte(n.mem, E, DirOf(va), TableOf(va)) == Pte(s.mem, E, DirOf(va), TableOf(va));
      }
    }
  }

  lemma MapsPageAt(s: Space, n: Space, D: int, d: int, t: int, w: Word, table: int, E: int, e: int, u: int)
    requires Inv(s) && UserDir(d) && MapsPage(s, n, D, d, t, w, table) && E in s.dirs && UserDir(e)
    requires w.frame in s.own && s.own[w.frame] == Loose && 0 <= w.frame < |s.mem|
    ensures Inv(n) && E in n.dirs && |n.mem| == |s.mem|
    ensures Pte(n.mem, E, e, u) == if E == D && e == d && u == t then w else Pte(s.mem, E, e, u)
    ensures n.mem[w.frame] == s.mem[w.frame]
    ensures forall f :: Owns(s, f, Leaf(E, e, u)) && 0 <= f < |s.mem| ==> n.mem[f] == s.mem[f]
  {
  }

  lemma ImageMappedAt(s: Space, n: Space, D: int, d: int, t: int, w: Word, table: int, E: int, va: int)
    requires Inv(s) && D in s.dirs && UserDir(d) && Slot(t) && MapsPage(s, n, D, d, t, w, table) && E in s.dirs
    requires w.present && w.user && w.write && w.frame in s.own && s.own[w.frame] == Loose && 0 <= w.frame < |s.mem|
    requires 0 <= va < WORD
    ensures var wanted := if E == D then Image(s.mem, D) + PageBytes(s.mem[w.frame], d, t) else Image(s.mem, E);
      && (va in Image(n.mem, E) <==> va in wanted)
      && (va in wanted ==> Image(n.mem, E)[va] == wanted[va])
  {
    hide Inv, Image, PageBytes, DirOf, TableOf, WordOf, UserReaches, WalkEntry, Pte, Pde, GetByte, MapsPage;
    if UserDir(DirOf(va)) {
      MapsPageAt(s, n, D, d, t, w, table, E, DirOf(va), TableOf(va));
    } else {
      MapsPageAt(s, n, D, d, t, w, table, E, d, t);
    }
    ImageAt(s, E, va);
    ImageAt(n, E, va);
    PageBytesAt(s.mem[w.frame], d, t, va);
  }

  /** Mapping a page adds that page's bytes to one image and leaves every other image alone. */
  lemma ImageMapped(s: Space, n: Space, D: int, d: int, t: int, w: Word, table: int, E: int)
    requires Inv(s) && D in s.dirs && UserDir(d) && Slot(t) && MapsPage(s, n, D, d, t, w, table) && E in s.dirs
    requires w.present && w.user && w.write && w.frame in s.own && s.own[w.frame] == Loose && 0 <= w.frame < |s.mem|
    ensures Image(n.mem, E) == if E == D then Image(s.mem, D) + PageBytes(s.mem[w.frame], d, t) else Image(s.mem, E)
  {
    var wanted := if E == D then Image(s.mem, D) + PageBytes(s.mem[w.frame], d, t) else Image(s.mem, E);
    ImageRange(s.mem, E);
    ImageRange(n.mem, E);
    hide *;
    forall va | 0 <= va < WORD
      ensures va in Image(n.mem, E) <==> va in wanted
      ensures va in wanted ==> Image(n.mem, E)[va] == wanted[va]
    {
      ImageMappedAt(s, n, D, d, t, w, table, E, va);
    }
    SameKeys(Image(n.mem, E), wanted);
  }

  /** Unmapping a page removes its bytes from one image. */
  lemma ImageUnmapped(s: Space, n: Space, D: int, d: int, t: int, E: int)
    requires Inv(s) && D in s.dirs && UserDir(d) && Slot(t) && UnmapsPage(s, n, D, d, t) && E in s.dirs
    ensures Image(n.mem, E) ==
      if E == D then Image(s.mem, D) - (set va | 0 <= va < WORD && InPage(va, d, t)) else Image(s.mem, E)
  {
    var wanted := if E == D then Image(s.mem, D) - (set va | 0 <= va < WORD && InPage(va, d, t)) else Image(s.mem, E);
    ImageRange(s.mem, E);
    ImageRange(n.mem, E);
    hide Inv, Image, PageBytes, DirOf, TableOf, WordOf, UserReaches, WalkEntry, Pte, Pde, GetByte;
    forall va | 0 <= va < WORD
      ensures va in Image(n.mem, E) <==> va in wanted
      ensures va in wanted ==> Image(n.mem, E)[va] == wanted[va]
    {
      ImageAt(s, E, va);
      ImageAt(n, E, va);
      if UserDir(DirOf(va)) {
        assert Pte(n.mem, E, DirOf(va), TableOf(va)) ==
          if E == D && DirOf(va) == d && TableOf(va) == t then ZERO else Pte(s.mem, E, DirOf(va), TableOf(va));
      }
    }
    SameKeys(Image(n.mem, E), wanted);
  }

  /** Writing a whole user page changes the bytes of that page in one image and in no other. */
  lemma ImageFilled(s: Space, D: int, d: int, t: int, p: Page, E: int)
    requires Inv(s) && D in s.dirs && E in s.dirs && UserDir(d) && Slot(t) && Pte(s.mem, D, d, t).present
    ensures 0 <= Pte(s.mem, D, d, t).frame < |s.mem|
    ensures var n := Fill(s, Pte(s.mem, D, d, t).frame, p);
      && Inv(n)
      && SameEntries(s, n.mem)
      && Image(n.mem, E) == if E == D then Image(s.mem, D) + PageBytes(p, d, t) else Image(s.mem, E)
  {
    var f := Pte(s.mem, D, d, t).frame;
    FillKeepsInv(s, f, p);
    FillEffect(s, f, p);
    var n := Fill(s, f, p);
    var wanted := if E == D then Image(s.mem, D) + PageBytes(p, d, t) else Image(s.mem, E);
    ImageRange(s.mem, E);
    ImageRange(n.mem, E);
    hide Inv, Image, PageBytes, DirOf, TableOf, WordOf, UserReaches, WalkEntry, Pte, Pde, GetByte;
    forall va | 0 <= va < WORD
      ensures va in Image(n.mem, E) <==> va in wanted
      ensures va in wanted ==> Image(n.mem, E)[va] == wanted[va]
    {
      ImageAt(s, E, va);
      ImageAt(n, E, va);
      PageBytesAt(p, d, t, va);
      if UserDir(DirOf(va)) {
        assert Pte(n.mem, E, DirOf(va), TableOf(va)) == Pte(s.mem, E, DirOf(va), TableOf(va));
      }
    }
    SameKeys(Image(n.mem, E), wanted);
  }

  /** The page holding va with the one byte at va replaced. */
  function PageWithByte(p: Page, va: int, b: Byte): Page
    requires Slot(WordOf(va))
  {
    p[WordOf(va) := SetByte(p[WordOf(va)], va % 4, b)]
  }

  /** Two addresses of one page that agree on the word and on the byte within it are the same address. */
  lemma SameByteAddress(va: int, vb: int)
    requires 0 <= va < WORD && 0 <= vb < WORD
    requires DirOf(va) == DirOf(vb) && TableOf(va) == TableOf(vb) && WordOf(va) == WordOf(vb) && va % 4 == vb % 4
    ensures va == vb
  {
    AddressParts(va);
    AddressParts(vb);
  }

  lemma PageWithByteAt(p: Page, va: int, b: Byte, vb: int)
    requires 0 <= va < WORD && 0 <= vb < WORD && Slot(WordOf(va)) && Slot(WordOf(vb))
    requires DirOf(va) == DirOf(vb) && TableOf(va) == TableOf(vb)
    ensures GetByte(PageWithByte(p, va, b)[WordOf(vb)], vb % 4) ==
      if va == vb then b else GetByte(p[WordOf(vb)], vb % 4)
  {
    hide DirOf, TableOf, GetByte, SetByte;
    if WordOf(va) == WordOf(vb) {
      GetSetByte(p[WordOf(va)], va % 4, b, vb % 4);
      if va % 4 == vb % 4 {
        SameByteAddress(va, vb);
      }
    }
  }

  lemma StoredAt(s: Space, D: int, va: int, b: Byte, vb: int)
    requires Inv(s) && D in s.dirs && 0 <= va < WORD && va in Image(s.mem, D) && 0 <= vb < WORD
    requires Slot(WordOf(va)) && 0 <= Pte(s.mem, D, DirOf(va), TableOf(va)).frame < |s.mem|
    ensures var was := Image(s.mem, D);
      var p := PageWithByte(s.mem[Pte(s.mem, D, DirOf(va), TableOf(va)).frame], va, b);
      && (vb in was + PageBytes(p, DirOf(va), TableOf(va)) <==> vb in was[va := b])
      && (vb in was[va := b] ==> (was + PageBytes(p, DirOf(va), TableOf(va)))[vb] == was[va := b][vb])
  {
    hide Inv, Image, PageBytes, DirOf, TableOf, WordOf, UserReaches, WalkEntry, Pte, Pde, GetByte, PageWithByte;
    var d, t := DirOf(va), TableOf(va);
    var f := Pte(s.mem, D, d, t).frame;
    ImageAt(s, D, va);
    ImageAt(s, D, vb);
    PageBytesAt(PageWithByte(s.mem[f], va, b), d, t, vb);
    if DirOf(vb) == d && TableOf(vb) == t {
      PageWithByteAt(s.mem[f], va, b, vb);
    }
  }

  lemma StoredPage(s: Space, D: int, va: int, b: Byte)
    requires Inv(s) && D in s.dirs && 0 <= va < WORD && va in Image(s.mem, D)
    requires Slot(WordOf(va)) && 0 <= Pte(s.mem, D, DirOf(va), TableOf(va)).frame < |s.mem|
    ensures var p := PageWithByte(s.mem[Pte(s.mem, D, DirOf(va), TableOf(va)).frame], va, b);
      Image(s.mem, D) + PageBytes(p, DirOf(va), TableOf(va)) == Image(s.mem, D)[va := b]
  {
    ImageRange(s.mem, D);
    hide *;
    var was := Image(s.mem, D);
    var p := PageWithByte(s.mem[Pte(s.mem, D, DirOf(va), TableOf(va)).frame], va, b);
    forall vb | 0 <= vb < WORD
      ensures vb in was + PageBytes(p, DirOf(va), TableOf(va)) <==> vb in was[va := b]
      ensures vb in was[va := b] ==> (was + PageBytes(p, DirOf(va), TableOf(va)))[vb] == was[va := b][vb]
    {
      StoredAt(s, D, va, b, vb);
    }
    SameKeys(was + PageBytes(p, DirOf(va), TableOf(va)), was[va := b]);
  }

  /** Storing one byte at a user address changes that byte of that image, and nothing else anywhere. */
  lemma ImageStored(s: Space, D: int, va: int, b: Byte, E: int)
    requires Inv(s) && D in s.dirs && E in s.dirs && va in Image(s.mem, D)
    ensures 0 <= va < WORD && Slot(WordOf(va)) && 0 <= WalkEntry(s.mem, D, va).frame < |s.mem|
    ensures var f := WalkEntry(s.mem, D, va).frame;
      var n := Fill(s, f, PageWithByte(s.mem[f], va, b));
      && Inv(n) && SameEntries(s, n.mem)
      && Image(n.mem, E) == if E == D then Image(s.mem, D)[va := b] else Image(s.mem, E)
  {
    ImageRange(s.mem, D);
    ImageAt(s, D, va);
    AddressParts(va);
    var d, t := DirOf(va), TableOf(va);
    var f := Pte(s.mem, D, d, t).frame;
    var p := PageWithByte(s.mem[f], va, b);
    hide Inv, Image, PageBytes, DirOf, TableOf, WordOf, Pte, Pde, GetByte, PageWithByte, SameEntries, UserReaches;
    ImageFilled(s, D, d, t, p, E);
    StoredPage(s, D, va, b);
  }
}
